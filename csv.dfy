/**
  The quote-toggling field splitter `String.splitCSV()` (Lib1/Lib1/availablebooks.swift).
  Every `"` flips an "inside quotes" flag and is dropped; a `,` outside quotes ends a
  field; every other character is appended to the current field. Unlike rule 7 of
  section 2 of RFC 4180, a doubled quote `""` does not stand for a literal quote:
  it flips the flag twice and vanishes.
 */
module Csv {

  import opened Text

  /** The loop state of `splitCSV`: fields finished so far, the field being read, the quote flag. */
  datatype SplitState = SplitState(fields: seq<string>, current: string, insideQuotes: bool)

  const Start := SplitState([], "", false)

  /** One iteration of the loop over the characters. */
  function Step(st: SplitState, c: char): SplitState
  {
    if c == '"' then st.(insideQuotes := !st.insideQuotes)
    else if c == ',' && !st.insideQuotes then SplitState(st.fields + [st.current], "", st.insideQuotes)
    else st.(current := st.current + [c])
  }

  /** The loop run over the characters of `s`, from state `st`. */
  function Run(st: SplitState, s: string): SplitState
    decreases |s|
  {
    if s == [] then st else Run(Step(st, s[0]), s[1..])
  }

  /** The fields `splitCSV` returns: the finished fields and then the last one. */
  function Fields(s: string): (r: seq<string>)
    ensures |r| >= 1
  {
    var st := Run(Start, s);
    st.fields + [st.current]
  }

  lemma {:induction false} RunAppend(st: SplitState, a: string, b: string)
    ensures Run(st, a + b) == Run(Run(st, a), b)
    decreases |a|
  {
    if a == [] {
      assert a + b == b;
    } else {
      assert (a + b)[1..] == a[1..] + b;
      RunAppend(Step(st, a[0]), a[1..], b);
    }
  }

  lemma RunSnoc(s: string, c: char)
    ensures Run(Start, s + [c]) == Step(Run(Start, s), c)
  {
    RunAppend(Start, s, [c]);
  }

  /** `s.splitCSV()`. */
  method SplitCsv(s: string) returns (result: seq<string>)
    ensures result == Fields(s)
  {
    result := [];
    var currentField := "";
    var insideQuotes := false;
    for i := 0 to |s|
      invariant Run(Start, s[..i]) == SplitState(result, currentField, insideQuotes)
    {
      var ch := s[i];
      if ch == '"' {
        insideQuotes := !insideQuotes;
      } else if ch == ',' && !insideQuotes {
        result := result + [currentField];
        currentField := "";
      } else {
        currentField := currentField + [ch];
      }
      assert s[..i + 1] == s[..i] + [s[i]];
      RunSnoc(s[..i], s[i]);
    }
    assert s[..|s|] == s;
    result := result + [currentField];
  }

  /** The number of `"` characters in `s`. */
  function QuoteCount(s: string): nat
  {
    if s == [] then 0
    else QuoteCount(s[..|s| - 1]) + (if s[|s| - 1] == '"' then 1 else 0)
  }

  /** The number of commas in `s` preceded by an even number of quotes, i.e. outside quotes. */
  function CommasOutsideQuotes(s: string): nat
  {
    if s == [] then 0
    else
      var prefix := s[..|s| - 1];
      CommasOutsideQuotes(prefix) + (if s[|s| - 1] == ',' && QuoteCount(prefix) % 2 == 0 then 1 else 0)
  }

  lemma {:induction false} RunCounts(s: string)
    ensures Run(Start, s).insideQuotes == (QuoteCount(s) % 2 == 1)
    ensures |Run(Start, s).fields| == CommasOutsideQuotes(s)
    decreases |s|
  {
    if s != [] {
      var prefix := s[..|s| - 1];
      assert s == prefix + [s[|s| - 1]];
      RunCounts(prefix);
      RunSnoc(prefix, s[|s| - 1]);
    }
  }

  /** `splitCSV` returns one field more than there are commas outside quotes. */
  lemma FieldCount(s: string)
    ensures |Fields(s)| == CommasOutsideQuotes(s) + 1
  {
    RunCounts(s);
  }

  predicate QuoteFree(st: SplitState)
  {
    '"' !in st.current && forall f :: f in st.fields ==> '"' !in f
  }

  lemma {:induction false} RunStaysQuoteFree(st: SplitState, s: string)
    requires QuoteFree(st)
    ensures QuoteFree(Run(st, s))
    decreases |s|
  {
    if s != [] {
      RunStaysQuoteFree(Step(st, s[0]), s[1..]);
    }
  }

  /** No field contains a quote character: every quote only toggled the flag. */
  lemma FieldsHaveNoQuotes(s: string)
    ensures forall f :: f in Fields(s) ==> '"' !in f
  {
    RunStaysQuoteFree(Start, s);
  }

  /** `s` with every `"` removed. */
  function RemoveQuotes(s: string): string
  {
    if s == [] then [] else (if s[0] == '"' then [] else [s[0]]) + RemoveQuotes(s[1..])
  }

  function Flatten(st: SplitState): seq<string>
  {
    st.fields + [st.current]
  }

  lemma StepJoin(st: SplitState, c: char)
    ensures Join(Flatten(Step(st, c)), ',') == Join(Flatten(st), ',') + RemoveQuotes([c])
  {
    assert RemoveQuotes([c]) == (if c == '"' then [] else [c]) + RemoveQuotes([]);
    if c == '"' {
    } else if c == ',' && !st.insideQuotes {
      assert Flatten(Step(st, c)) == Flatten(st) + [""];
      JoinSnoc(Flatten(st), "", ',');
    } else if st.fields != [] {
      JoinSnoc(st.fields, st.current + [c], ',');
      JoinSnoc(st.fields, st.current, ',');
    }
  }

  lemma {:induction false} RunJoin(st: SplitState, s: string)
    ensures Join(Flatten(Run(st, s)), ',') == Join(Flatten(st), ',') + RemoveQuotes(s)
    decreases |s|
  {
    if s != [] {
      StepJoin(st, s[0]);
      RunJoin(Step(st, s[0]), s[1..]);
    }
  }

  /**
    Round trip: joining the fields with "," gives back `s` without its quotes, so
    commas inside quotes stay in their field and the others become separators.
   */
  lemma JoinFieldsRemovesQuotes(s: string)
    ensures Join(Fields(s), ',') == RemoveQuotes(s)
  {
    RunJoin(Start, s);
  }

  /** A doubled quote inserted anywhere changes nothing: it is not an escaped quote. */
  lemma DoubledQuoteVanishes(a: string, b: string)
    ensures Fields(a + "\"\"" + b) == Fields(a + b)
  {
    RunAppend(Start, a + "\"\"", b);
    RunAppend(Start, a, "\"\"");
    RunAppend(Start, a, b);
  }

  /** `"a""b",c` splits into `ab` and `c`, where RFC 4180 reads `a"b` and `c`. */
  lemma DoubledQuoteExample()
    ensures Fields("\"a\"\"b\",c") == ["ab", "c"]
  {
    calc {
      Run(Start, "\"a\"\"b\",c");
      Run(SplitState([], "", true), "a\"\"b\",c");
      { assert "" + ['a'] == "a"; }
      Run(SplitState([], "a", true), "\"\"b\",c");
      Run(SplitState([], "a", false), "\"b\",c");
      Run(SplitState([], "a", true), "b\",c");
      { assert "a" + ['b'] == "ab"; }
      Run(SplitState([], "ab", true), "\",c");
      Run(SplitState([], "ab", false), ",c");
      Run(SplitState(["ab"], "", false), "c");
      { assert "" + ['c'] == "c"; }
      Run(SplitState(["ab"], "c", false), "");
    }
  }
}
