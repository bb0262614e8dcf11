/** Character-level helpers the formatter is built from: Go's whitespace
    classes, `strings.TrimSpace`, and the rune search and repeat helpers
    `indexRune`, `indexRuneAny` and `runesRepeat`. A Go string is modelled
    as its sequence of runes. */
module Text {
  import opened Options

  /** Go's `unicode.IsSpace`: the Latin-1 spaces plus the other code points
      with the Unicode White_Space property. `strings.TrimSpace` trims these. */
  predicate IsSpace(c: char) {
    || c == '\t' || c == '\n' || c == '\U{0B}' || c == '\U{0C}' || c == '\r' || c == ' '
    || c == '\U{85}' || c == '\U{A0}' || c == '\U{1680}'
    || ('\U{2000}' <= c <= '\U{200A}')
    || c == '\U{2028}' || c == '\U{2029}' || c == '\U{202F}' || c == '\U{205F}' || c == '\U{3000}'
  }

  /** The `\s` class of Go's regexp syntax: `[\t\n\f\r ]`. */
  predicate IsRegexSpace(c: char) {
    c == '\t' || c == '\n' || c == '\U{0C}' || c == '\r' || c == ' '
  }

  predicate AllSpace(s: string) {
    forall i :: 0 <= i < |s| ==> IsSpace(s[i])
  }

  /** Neither end of `s` is whitespace. */
  predicate IsTrimmed(s: string) {
    |s| == 0 || (!IsSpace(s[0]) && !IsSpace(s[|s| - 1]))
  }

  function TrimLeading(s: string): (r: string)
    ensures |r| <= |s| && r == s[|s| - |r|..]
    ensures AllSpace(s[..|s| - |r|])
    ensures |r| > 0 ==> !IsSpace(r[0])
    decreases |s|
  {
    if |s| > 0 && IsSpace(s[0]) then TrimLeading(s[1..]) else s
  }

  function TrimTrailing(s: string): (r: string)
    ensures |r| <= |s| && r == s[..|r|]
    ensures AllSpace(s[|r|..])
    ensures |r| > 0 ==> !IsSpace(r[|r| - 1])
    decreases |s|
  {
    if |s| > 0 && IsSpace(s[|s| - 1]) then TrimTrailing(s[..|s| - 1]) else s
  }

  /** `strings.TrimSpace`: no whitespace at either end. */
  function TrimSpace(s: string): (r: string)
    ensures IsTrimmed(r)
  {
    TrimTrailing(TrimLeading(s))
  }

  /** What trimming cuts off: the result is the infix of `s` at `i`, and
      everything cut off on both sides is whitespace. */
  lemma TrimSpaceCuts(s: string) returns (i: nat)
    ensures var r := TrimSpace(s);
            && i + |r| <= |s| && r == s[i..i + |r|]
            && AllSpace(s[..i]) && AllSpace(s[i + |r|..])
  {
    var a := TrimLeading(s);
    var r := TrimTrailing(a);
    i := |s| - |a|;
    SliceOfSuffix(s, i, a, |r|);
    assert r == TrimSpace(s);
    assert AllSpace(s[..i]);
    assert AllSpace(a[|r|..]);
    assert AllSpace(s[i + |r|..]);
  }

  /** Slices of a suffix are slices of the whole. */
  lemma SliceOfSuffix(s: string, i: nat, a: string, n: nat)
    requires i <= |s| && a == s[i..] && n <= |a|
    ensures a[..n] == s[i..i + n] && a[n..] == s[i + n..]
  {
  }

  /** Concatenation regrouped: the one associativity fact the proofs cite. */
  lemma Regroup<T>(a: seq<T>, b: seq<T>, c: seq<T>)
    ensures a + (b + c) == a + b + c
  {
  }

  /** Four pieces, the last three grouped together. */
  lemma Regroup4<T>(a: seq<T>, b: seq<T>, c: seq<T>, d: seq<T>)
    ensures a + b + c + d == a + (b + c + d)
  {
  }

  /** Trimming text that is already trimmed changes nothing. */
  lemma TrimSpaceOfTrimmed(s: string)
    requires IsTrimmed(s)
    ensures TrimSpace(s) == s
  {
    assert TrimLeading(s) == s;
    assert TrimTrailing(s) == s;
  }

  /** A single trailing blank after trimmed text is trimmed away. */
  lemma TrimSpaceDropsBlank(s: string)
    requires |s| > 0 && IsTrimmed(s)
    ensures TrimSpace(s + " ") == s
  {
    TrimLeadingNone(s + " ");
    TrimTrailingBlank(s);
  }

  lemma TrimLeadingNone(t: string)
    requires |t| > 0 && !IsSpace(t[0])
    ensures TrimLeading(t) == t
  {
  }

  lemma TrimTrailingBlank(s: string)
    requires |s| > 0 && IsTrimmed(s)
    ensures TrimTrailing(s + " ") == s
  {
    var t := s + " ";
    assert t[..|t| - 1] == s;
  }

  /** A line of nothing but whitespace trims to nothing. */
  lemma TrimSpaceOfBlank(s: string)
    requires AllSpace(s)
    ensures TrimSpace(s) == []
  {
  }

  /** Trimming removes exactly the whitespace around a trimmed core. */
  lemma TrimSpaceExact(a: string, b: string, c: string)
    requires AllSpace(a) && AllSpace(c) && |b| > 0 && IsTrimmed(b)
    ensures TrimSpace(a + b + c) == b
  {
    assert a + b + c == a + (b + c);
    TrimLeadingSkips(a, b + c);
    TrimTrailingSkips(b, c);
  }

  lemma {:induction false} TrimLeadingSkips(a: string, t: string)
    requires AllSpace(a) && |t| > 0 && !IsSpace(t[0])
    ensures TrimLeading(a + t) == t
    decreases |a|
  {
    if |a| > 0 {
      assert (a + t)[1..] == a[1..] + t;
      TrimLeadingSkips(a[1..], t);
    } else {
      assert a + t == t;
    }
  }

  lemma {:induction false} TrimTrailingSkips(t: string, c: string)
    requires AllSpace(c) && |t| > 0 && !IsSpace(t[|t| - 1])
    ensures TrimTrailing(t + c) == t
    decreases |c|
  {
    if |c| > 0 {
      assert (t + c)[..|t + c| - 1] == t + c[..|c| - 1];
      TrimTrailingSkips(t, c[..|c| - 1]);
    } else {
      assert t + c == t;
    }
  }

  /** A sequence is what precedes position `i`, the character there, and
      what follows. */
  lemma SplitAt(s: string, i: nat)
    requires i < |s|
    ensures s == s[..i] + [s[i]] + s[i + 1..]
  {
  }

  /** `indexRune`: the position of the first occurrence of `c` in `s`. */
  function IndexOf(s: string, c: char): (r: Option<nat>)
    ensures r.None? <==> c !in s
    ensures r.Some? ==> r.value < |s| && s[r.value] == c && c !in s[..r.value]
  {
    IndexFrom(s, c, 0)
  }

  function IndexFrom(s: string, c: char, from: nat): (r: Option<nat>)
    requires from <= |s|
    ensures r.None? <==> c !in s[from..]
    ensures r.Some? ==> from <= r.value < |s| && s[r.value] == c && c !in s[from..r.value]
    decreases |s| - from
  {
    if from == |s| then None
    else if s[from] == c then Some(from)
    else
      assert s[from..] == [s[from]] + s[from + 1..];
      var r := IndexFrom(s, c, from + 1);
      assert r.Some? ==> s[from..r.value] == [s[from]] + s[from + 1..r.value];
      r
  }

  /** `indexRuneAny`: the position of the first character of `s` that
      occurs in `any`. */
  function IndexOfAny(s: string, any: string): (r: Option<nat>)
    ensures r.None? <==> forall i :: 0 <= i < |s| ==> s[i] !in any
    ensures r.Some? ==> r.value < |s| && s[r.value] in any
                        && forall i :: 0 <= i < r.value ==> s[i] !in any
  {
    IndexAnyFrom(s, any, 0)
  }

  function IndexAnyFrom(s: string, any: string, from: nat): (r: Option<nat>)
    requires from <= |s|
    ensures r.None? <==> forall i :: from <= i < |s| ==> s[i] !in any
    ensures r.Some? ==> from <= r.value < |s| && s[r.value] in any
                        && forall i :: from <= i < r.value ==> s[i] !in any
    decreases |s| - from
  {
    if from == |s| then None
    else if IndexOf(any, s[from]).Some? then
      assert s[from] in any;
      Some(from)
    else IndexAnyFrom(s, any, from + 1)
  }

  /** `runesRepeat`: `count` copies of `rep`, one after the other. */
  function Repeat(rep: string, count: nat): string
  {
    if count == 0 then [] else rep + Repeat(rep, count - 1)
  }

  /** `count` copies hold `count` times as many characters. */
  lemma {:induction false} RepeatLength(rep: string, count: nat)
    ensures |Repeat(rep, count)| == count * |rep|
  {
    if count > 0 {
      RepeatLength(rep, count - 1);
    }
  }

  /** Copies of a single character: exactly `count` of them. */
  lemma {:induction false} RepeatSingle(c: char, count: nat)
    ensures |Repeat([c], count)| == count
    ensures forall i :: 0 <= i < count ==> Repeat([c], count)[i] == c
  {
    if count > 0 {
      RepeatSingle(c, count - 1);
    }
  }

  /** `n` blanks, as written by `bytes.Repeat(space, n)`. */
  function Spaces(n: nat): (r: string)
    ensures |r| == n
  {
    RepeatSingle(' ', n);
    Repeat(" ", n)
  }

  /** `Spaces(n)` is blanks only. */
  lemma SpacesBlank(n: nat)
    ensures forall i :: 0 <= i < n ==> Spaces(n)[i] == ' '
  {
    RepeatSingle(' ', n);
  }
}
