/**
  String primitives the catalog code relies on: `lowercased()`, `contains`,
  the `<` ordering of strings, `trimmingCharacters(in:)` and `joined(separator:)`.
  Strings are sequences of characters; lower-casing is ASCII only.
 */
module Text {

  /** ASCII lower-casing of one character. */
  function LowerChar(c: char): char
  {
    if 'A' <= c <= 'Z' then (c as int - 'A' as int + 'a' as int) as char else c
  }

  /** The model of `lowercased()`. */
  function Lower(s: string): string
  {
    seq(|s|, i requires 0 <= i < |s| => LowerChar(s[i]))
  }

  /** Lower-casing is idempotent and leaves no upper-case ASCII letter behind. */
  lemma LowerIdempotent(s: string)
    ensures Lower(Lower(s)) == Lower(s)
    ensures forall i :: 0 <= i < |Lower(s)| ==> !('A' <= Lower(s)[i] <= 'Z')
  {
  }

  /** `haystack.contains(needle)`: `needle` occurs as a contiguous piece of `haystack`. */
  predicate Contains(haystack: string, needle: string)
    decreases |haystack|
  {
    needle <= haystack || (haystack != [] && Contains(haystack[1..], needle))
  }

  /** Lexicographic order on characters: the model of `<` on strings. */
  predicate LexLess(a: string, b: string)
    decreases |a|
  {
    if a == [] then b != []
    else if b == [] then false
    else a[0] < b[0] || (a[0] == b[0] && LexLess(a[1..], b[1..]))
  }

  lemma {:induction false} LexLessIrreflexive(a: string)
    ensures !LexLess(a, a)
    decreases |a|
  {
    if a != [] {
      LexLessIrreflexive(a[1..]);
    }
  }

  lemma {:induction false} LexLessTransitive(a: string, b: string, c: string)
    requires LexLess(a, b) && LexLess(b, c)
    ensures LexLess(a, c)
    decreases |a|
  {
    if a != [] && b != [] && c != [] && a[0] == b[0] == c[0] {
      LexLessTransitive(a[1..], b[1..], c[1..]);
    }
  }

  /** Two strings are equal or one of them is smaller. */
  lemma {:induction false} LexLessTotal(a: string, b: string)
    ensures a == b || LexLess(a, b) || LexLess(b, a)
    decreases |a|
  {
    if a != [] && b != [] && a[0] == b[0] {
      LexLessTotal(a[1..], b[1..]);
      if a[1..] == b[1..] {
        assert a == [a[0]] + a[1..] && b == [b[0]] + b[1..];
      }
    }
  }

  /** `LexLess` is asymmetric, and "not smaller" is transitive: what a sort needs of it. */
  lemma LexLessIsStrictWeakOrder(a: string, b: string, c: string)
    ensures LexLess(a, b) ==> !LexLess(b, a)
    ensures !LexLess(b, a) && !LexLess(c, b) ==> !LexLess(c, a)
  {
    if LexLess(a, b) && LexLess(b, a) {
      LexLessTransitive(a, b, a);
      LexLessIrreflexive(a);
    }
    if !LexLess(b, a) && !LexLess(c, b) && LexLess(c, a) {
      LexLessTotal(a, b);
      LexLessTotal(b, c);
      if a == b {
      } else if LexLess(a, b) {
        LexLessTransitive(c, a, b);
      }
    }
  }

  /** How many `c`s `s` starts with. */
  function LeadingRun(s: string, c: char): (n: nat)
    ensures n <= |s|
    ensures forall k :: 0 <= k < n ==> s[k] == c
    ensures n == |s| || s[n] != c
  {
    if s != [] && s[0] == c then 1 + LeadingRun(s[1..], c) else 0
  }

  /** How many `c`s `s` ends with. */
  function TrailingRun(s: string, c: char): (n: nat)
    ensures n <= |s|
    ensures forall k :: |s| - n <= k < |s| ==> s[k] == c
    ensures n == |s| || s[|s| - n - 1] != c
  {
    if s != [] && s[|s| - 1] == c then 1 + TrailingRun(s[..|s| - 1], c) else 0
  }

  /** A string of nothing but `c` is run through from both ends. */
  lemma RunsMeet(s: string, c: char)
    ensures LeadingRun(s, c) == |s| <==> TrailingRun(s, c) == |s|
    ensures LeadingRun(s, c) < |s| ==> LeadingRun(s, c) + TrailingRun(s, c) < |s|
  {
    var i, n := LeadingRun(s, c), TrailingRun(s, c);
    if i < |s| {
      assert s[i] != c;
    }
    if n < |s| {
      assert s[|s| - n - 1] != c;
    }
  }

  /**
    `s.trimmingCharacters(in: [c])`: drops every leading and trailing `c`, and
    nothing else; a string without `c` comes back unchanged.
   */
  function Trim(s: string, c: char): (r: string)
    ensures LeadingRun(s, c) + |r| + TrailingRun(s, c) == |s| || (r == [] && LeadingRun(s, c) == |s|)
    ensures r == s[LeadingRun(s, c)..LeadingRun(s, c) + |r|]
    ensures forall k :: 0 <= k < |s| && !(LeadingRun(s, c) <= k < LeadingRun(s, c) + |r|) ==> s[k] == c
    ensures r == [] || (r[0] != c && r[|r| - 1] != c)
    ensures c !in s ==> r == s
  {
    RunsMeet(s, c);
    var i := LeadingRun(s, c);
    if i == |s| then [] else s[i..|s| - TrailingRun(s, c)]
  }

  /** `xs.joined(separator: String(sep))` for a non-empty list. */
  function Join(xs: seq<string>, sep: char): string
    requires |xs| >= 1
  {
    if |xs| == 1 then xs[0] else xs[0] + [sep] + Join(xs[1..], sep)
  }

  /** Appending a piece to a joined list appends one separator and the piece. */
  lemma {:induction false} JoinSnoc(xs: seq<string>, x: string, sep: char)
    requires |xs| >= 1
    ensures Join(xs + [x], sep) == Join(xs, sep) + [sep] + x
  {
    if |xs| > 1 {
      assert (xs + [x])[1..] == xs[1..] + [x];
      JoinSnoc(xs[1..], x, sep);
    }
  }

  /** Decimal digits only. */
  predicate AllDigits(s: string)
  {
    forall i :: 0 <= i < |s| ==> '0' <= s[i] <= '9'
  }

  function DigitsValue(s: string): nat
    requires AllDigits(s)
  {
    if s == [] then 0 else DigitsValue(s[..|s| - 1]) * 10 + (s[|s| - 1] as int - '0' as int)
  }

  /** The decimal spelling of `n`, as string interpolation writes a count. */
  function ShowNat(n: nat): (r: string)
    ensures r != [] && AllDigits(r)
  {
    var d := [('0' as int + n % 10) as char];
    if n < 10 then d else ShowNat(n / 10) + d
  }

  lemma {:induction false} DigitsOfShowNat(n: nat)
    ensures DigitsValue(ShowNat(n)) == n
  {
    var d := [('0' as int + n % 10) as char];
    if n >= 10 {
      DigitsOfShowNat(n / 10);
      assert (ShowNat(n / 10) + d)[..|ShowNat(n / 10) + d| - 1] == ShowNat(n / 10);
    }
  }
}
