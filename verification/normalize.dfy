/** The normalisation of instruction text in `parseLine`: trim, collapse
    every run of blanks (`mulSpaces`, regexp ` +`) to one blank, then
    rewrite every comma and the blanks after it (`commaSpaces`, regexp
    `, *`) to a comma and one blank. */
module Normalize {
  import opened Text

  /** No two blanks are adjacent. */
  predicate NoDoubleSpace(s: string) {
    forall i :: 0 <= i < |s| - 1 ==> !(s[i] == ' ' && s[i + 1] == ' ')
  }

  /** Every comma is followed by exactly one blank. */
  predicate CommaSpaced(s: string) {
    forall i :: 0 <= i < |s| && s[i] == ',' ==>
      i + 1 < |s| && s[i + 1] == ' ' && (i + 2 == |s| || s[i + 2] != ' ')
  }

  /** The text with every blank removed: what normalisation must not change. */
  function RemoveSpaces(s: string): string
    decreases |s|
  {
    if |s| == 0 then [] else (if s[0] == ' ' then [] else [s[0]]) + RemoveSpaces(s[1..])
  }

  lemma {:induction false} RemoveSpacesAppend(a: string, b: string)
    ensures RemoveSpaces(a + b) == RemoveSpaces(a) + RemoveSpaces(b)
    decreases |a|
  {
    if |a| > 0 {
      assert (a + b)[1..] == a[1..] + b;
      RemoveSpacesAppend(a[1..], b);
    } else {
      assert a + b == b;
    }
  }

  /** The blanks at the front of `s` dropped. */
  function SkipSpaces(s: string): (r: string)
    ensures |r| <= |s| && r == s[|s| - |r|..]
    ensures |r| > 0 ==> r[0] != ' '
    decreases |s|
  {
    if |s| > 0 && s[0] == ' ' then SkipSpaces(s[1..]) else s
  }

  /** What `SkipSpaces` drops is blanks. */
  lemma {:induction false} SkipSpacesDrops(s: string)
    ensures forall i :: 0 <= i < |s| - |SkipSpaces(s)| ==> s[i] == ' '
    decreases |s|
  {
    if |s| > 0 && s[0] == ' ' {
      SkipSpacesDrops(s[1..]);
      forall i | 1 <= i < |s| - |SkipSpaces(s)| ensures s[i] == ' ' {
        assert s[1..][i - 1] == s[i];
      }
    }
  }

  lemma {:induction false} SkipSpacesKeepsText(s: string)
    ensures RemoveSpaces(SkipSpaces(s)) == RemoveSpaces(s)
    decreases |s|
  {
    if |s| > 0 && s[0] == ' ' {
      SkipSpacesKeepsText(s[1..]);
    }
  }

  /** A last character that is not a blank survives `SkipSpaces`. */
  lemma SkipSpacesLast(s: string)
    requires |s| > 0 && s[|s| - 1] != ' '
    ensures var r := SkipSpaces(s); |r| > 0 && r[|r| - 1] == s[|s| - 1]
  {
    SkipSpacesDrops(s);
  }

  /** A single leading blank is all `SkipSpaces` drops when no blank
      follows it. */
  lemma SkipOneBlank(t: string)
    requires |t| > 0 && t[0] == ' ' && (|t| == 1 || t[1] != ' ')
    ensures SkipSpaces(t) == t[1..]
  {
    assert SkipSpaces(t) == SkipSpaces(t[1..]);
  }

  /** A suffix of text without a double blank has none either. */
  lemma NoDoubleSpaceSuffix(s: string, k: nat)
    requires k <= |s| && NoDoubleSpace(s)
    ensures NoDoubleSpace(s[k..])
  {
    var t := s[k..];
    forall i | 0 <= i < |t| - 1 ensures !(t[i] == ' ' && t[i + 1] == ' ') {
      assert t[i] == s[k + i] && t[i + 1] == s[k + i + 1];
    }
  }

  /** `mulSpaces.ReplaceAllString(s, " ")`: each maximal run of blanks
      becomes a single blank. */
  function CollapseSpaces(s: string): string
    decreases |s|
  {
    if |s| == 0 then []
    else if s[0] == ' ' then [' '] + CollapseSpaces(SkipSpaces(s[1..]))
    else [s[0]] + CollapseSpaces(s[1..])
  }

  /** Putting `c` in front keeps text free of double blanks unless `c` is a
      blank and so is the first character. */
  lemma ConsNoDoubleSpace(c: char, x: string)
    requires NoDoubleSpace(x)
    requires c == ' ' && |x| > 0 ==> x[0] != ' '
    ensures NoDoubleSpace([c] + x)
  {
    var r := [c] + x;
    forall i | 0 <= i < |r| - 1 ensures !(r[i] == ' ' && r[i + 1] == ' ') {
      assert r[i + 1] == x[i];
      if i > 0 {
        assert r[i] == x[i - 1];
      }
    }
  }

  /** The rest `CollapseSpaces` continues with after the first character:
      the blanks after a blank are skipped. */
  function CollapseRest(s: string): string
    requires |s| > 0
  {
    if s[0] == ' ' then SkipSpaces(s[1..]) else s[1..]
  }

  lemma CollapseStep(s: string)
    requires |s| > 0
    ensures CollapseSpaces(s) == [s[0]] + CollapseSpaces(CollapseRest(s))
  {
  }

  /** A final character that is not a blank is the final character of the
      rest, for either rewrite. */
  lemma RestLast(s: string, skip: bool, t: string)
    requires |s| > 1 && s[|s| - 1] != ' '
    requires t == if skip then SkipSpaces(s[1..]) else s[1..]
    ensures |t| > 0 && t[|t| - 1] == s[|s| - 1]
  {
    assert s[1..][|s| - 2] == s[|s| - 1];
    if skip {
      SkipSpacesLast(s[1..]);
    }
  }

  /** The last characters of `h + x` are those of `x`. */
  lemma LastOf(h: string, x: string)
    requires |x| > 0
    ensures (h + x)[|h + x| - 1] == x[|x| - 1]
    ensures |x| > 1 ==> (h + x)[|h + x| - 2] == x[|x| - 2]
  {
  }

  /** Collapsing keeps the first character, a final character that is not
      a blank, and empties only empty text. */
  lemma {:induction false} CollapseSpacesEnds(s: string)
    ensures |CollapseSpaces(s)| == 0 <==> |s| == 0
    ensures |s| > 0 ==> CollapseSpaces(s)[0] == s[0]
    ensures |s| > 0 && s[|s| - 1] != ' ' ==>
              CollapseSpaces(s)[|CollapseSpaces(s)| - 1] == s[|s| - 1]
    decreases |s|
  {
    if |s| > 0 {
      var t := CollapseRest(s);
      var x := CollapseSpaces(t);
      CollapseSpacesEnds(t);
      CollapseStep(s);
      if |s| > 1 && s[|s| - 1] != ' ' {
        RestLast(s, s[0] == ' ', t);
        LastOf([s[0]], x);
      }
    }
  }

  /** Collapsing leaves no two adjacent blanks. */
  lemma {:induction false} CollapseSpacesSingle(s: string)
    ensures NoDoubleSpace(CollapseSpaces(s))
    decreases |s|
  {
    if |s| > 0 {
      var t := CollapseRest(s);
      var x := CollapseSpaces(t);
      CollapseSpacesSingle(t);
      CollapseSpacesEnds(t);
      CollapseStep(s);
      ConsNoDoubleSpace(s[0], x);
    }
  }

  /** Collapsing removes blanks only. */
  lemma {:induction false} CollapseSpacesKeepsText(s: string)
    ensures RemoveSpaces(CollapseSpaces(s)) == RemoveSpaces(s)
    decreases |s|
  {
    if |s| == 0 {
    } else {
      var c := if s[0] == ' ' then SkipSpaces(s[1..]) else s[1..];
      CollapseSpacesKeepsText(c);
      if s[0] == ' ' {
        SkipSpacesKeepsText(s[1..]);
      }
      RemoveSpacesAppend([s[0]], CollapseSpaces(c));
    }
  }

  /** Text without a double blank is left alone. */
  lemma {:induction false} CollapseSpacesFixed(s: string)
    requires NoDoubleSpace(s)
    ensures CollapseSpaces(s) == s
    decreases |s|
  {
    if |s| > 0 {
      assert NoDoubleSpace(s[1..]);
      if s[0] == ' ' {
        assert SkipSpaces(s[1..]) == s[1..];
      }
      CollapseSpacesFixed(s[1..]);
      assert s == [s[0]] + s[1..];
    }
  }

  /** `commaSpaces.ReplaceAllString(s, ", ")`: every comma, with the blanks
      that follow it, becomes a comma and one blank. */
  function SpaceAfterCommas(s: string): string
    decreases |s|
  {
    if |s| == 0 then []
    else if s[0] == ',' then ", " + SpaceAfterCommas(SkipSpaces(s[1..]))
    else [s[0]] + SpaceAfterCommas(s[1..])
  }

  /** The rest of `s` that the rewrite continues with after the first
      character, and what it writes for that character. */
  function CommaRest(s: string): string
    requires |s| > 0
  {
    if s[0] == ',' then SkipSpaces(s[1..]) else s[1..]
  }

  function CommaHead(c: char): string
  {
    if c == ',' then ", " else [c]
  }

  lemma HeadFacts(c: char)
    ensures |CommaHead(c)| > 0 && CommaHead(c)[0] == c
    ensures c == ',' ==> CommaHead(c) == ", "
    ensures c != ',' ==> CommaHead(c) == [c]
  {
  }

  lemma CommaStep(s: string)
    requires |s| > 0
    ensures SpaceAfterCommas(s) == CommaHead(s[0]) + SpaceAfterCommas(CommaRest(s))
  {
  }

  /** The rewrite keeps the first character and empties only empty text. */
  lemma SpaceAfterCommasStart(s: string)
    ensures |SpaceAfterCommas(s)| == 0 <==> |s| == 0
    ensures |s| > 0 ==> SpaceAfterCommas(s)[0] == s[0]
  {
    if |s| > 0 {
      CommaStep(s);
      HeadFacts(s[0]);
    }
  }

  /** `r` ends in a comma and a blank. */
  predicate EndsCommaBlank(r: string) {
    |r| >= 2 && r[|r| - 2] == ',' && r[|r| - 1] == ' '
  }

  /** `r` ends in `c`. */
  predicate EndsIn(r: string, c: char) {
    |r| > 0 && r[|r| - 1] == c
  }

  /** The rewrite keeps a final character that is not a blank or a comma;
      a final comma gains its blank. */
  lemma {:induction false} SpaceAfterCommasLast(s: string)
    requires |s| > 0 && s[|s| - 1] != ' '
    ensures s[|s| - 1] == ',' ==> EndsCommaBlank(SpaceAfterCommas(s))
    ensures s[|s| - 1] != ',' ==> EndsIn(SpaceAfterCommas(s), s[|s| - 1])
    decreases |s|
  {
    var t := CommaRest(s);
    var h := CommaHead(s[0]);
    var x := SpaceAfterCommas(t);
    CommaStep(s);
    HeadFacts(s[0]);
    if |s| == 1 {
      EmptyRest(s);
      assert x == [];
      assert h + x == h;
    } else {
      RestLast(s, s[0] == ',', t);
      SpaceAfterCommasLast(t);
      LastOf(h, x);
    }
  }

  lemma EmptyRest(s: string)
    requires |s| == 1
    ensures CommaRest(s) == [] && CollapseRest(s) == []
  {
    assert s[1..] == [];
  }

  /** Putting `c` in front keeps every comma followed by exactly one blank,
      provided a comma put in front is followed by exactly one blank. */
  lemma ConsCommaSpaced(c: char, x: string)
    requires CommaSpaced(x)
    requires c == ',' ==> |x| > 0 && x[0] == ' ' && (|x| == 1 || x[1] != ' ')
    ensures CommaSpaced([c] + x)
  {
    var r := [c] + x;
    forall i | 0 <= i < |r| && r[i] == ','
      ensures i + 1 < |r| && r[i + 1] == ' ' && (i + 2 == |r| || r[i + 2] != ' ')
    {
      if i > 0 {
        assert r[i] == x[i - 1];
        assert i + 1 < |r| ==> r[i + 1] == x[i];
        assert i + 2 < |r| ==> r[i + 2] == x[i + 1];
      } else {
        assert r[1] == x[0];
        assert 2 < |r| ==> r[2] == x[1];
      }
    }
  }

  /** After the rewrite every comma is followed by exactly one blank. */
  lemma {:induction false} SpaceAfterCommasSpaced(s: string)
    ensures CommaSpaced(SpaceAfterCommas(s))
    decreases |s|
  {
    if |s| > 0 {
      var t := CommaRest(s);
      var x := SpaceAfterCommas(t);
      CommaRestFacts(s);
      SpaceAfterCommasSpaced(t);
      SpaceAfterCommasStart(t);
      CommaStep(s);
      HeadCommaSpaced(s[0], x);
    }
  }

  /** The rewrite adds and removes blanks only. */
  lemma {:induction false} SpaceAfterCommasKeepsText(s: string)
    ensures RemoveSpaces(SpaceAfterCommas(s)) == RemoveSpaces(s)
    decreases |s|
  {
    if |s| == 0 {
    } else if s[0] == ',' {
      var u := SkipSpaces(s[1..]);
      SpaceAfterCommasKeepsText(u);
      SkipSpacesKeepsText(s[1..]);
      RemoveSpacesAppend(", ", SpaceAfterCommas(u));
      assert RemoveSpaces(", ") == [','];
    } else {
      SpaceAfterCommasKeepsText(s[1..]);
      RemoveSpacesAppend([s[0]], SpaceAfterCommas(s[1..]));
    }
  }

  /** The rewrite never creates a double blank. */
  lemma {:induction false} SpaceAfterCommasSingle(s: string)
    requires NoDoubleSpace(s)
    ensures NoDoubleSpace(SpaceAfterCommas(s))
    decreases |s|
  {
    if |s| > 0 {
      var t := CommaRest(s);
      var x := SpaceAfterCommas(t);
      CommaRestFacts(s);
      SpaceAfterCommasSingle(t);
      SpaceAfterCommasStart(t);
      CommaStep(s);
      HeadNoDoubleSpace(s[0], x);
    }
  }

  /** The rest the rewrite continues with is a shorter suffix, and after a
      blank or a comma it does not start with a blank when `s` has no double
      blank. */
  lemma CommaRestFacts(s: string)
    requires |s| > 0
    ensures var t := CommaRest(s);
            && |t| < |s| && t == s[|s| - |t|..]
            && (NoDoubleSpace(s) ==> NoDoubleSpace(t))
            && (NoDoubleSpace(s) && (s[0] == ' ' || s[0] == ',') && |t| > 0 ==> t[0] != ' ')
  {
    var t := CommaRest(s);
    if s[0] != ',' {
      assert t == s[1..];
    }
    if NoDoubleSpace(s) {
      NoDoubleSpaceSuffix(s, |s| - |t|);
    }
  }

  lemma CommaPieces(x: string)
    ensures CommaHead(',') + x == [','] + ([' '] + x)
  {
  }

  /** What the rewrite writes for `c`, put in front of text without a
      double blank, leaves none. */
  lemma HeadNoDoubleSpace(c: char, x: string)
    requires NoDoubleSpace(x)
    requires (c == ' ' || c == ',') && |x| > 0 ==> x[0] != ' '
    ensures NoDoubleSpace(CommaHead(c) + x)
  {
    if c == ',' {
      ConsNoDoubleSpace(' ', x);
      CommaPieces(x);
      ConsNoDoubleSpace(',', [' '] + x);
    } else {
      ConsNoDoubleSpace(c, x);
    }
  }

  /** What the rewrite writes for `c`, put in front of text whose commas
      are spaced and that does not start with a blank after a comma, keeps
      every comma spaced. */
  lemma HeadCommaSpaced(c: char, x: string)
    requires CommaSpaced(x)
    requires c == ',' && |x| > 0 ==> x[0] != ' '
    ensures CommaSpaced(CommaHead(c) + x)
  {
    if c == ',' {
      ConsCommaSpaced(' ', x);
      CommaPieces(x);
      ConsCommaSpaced(',', [' '] + x);
    } else {
      ConsCommaSpaced(c, x);
    }
  }

  /** The text ends in a non-space character, or in the blank the comma
      rule adds after a final comma. */
  predicate EndsClean(s: string) {
    |s| == 0 || !IsSpace(s[|s| - 1]) || (|s| >= 2 && s[|s| - 2] == ',' && s[|s| - 1] == ' ')
  }

  /** The instruction text of a line, as `parseLine` builds it. */
  function NormalizeText(s: string): string
  {
    SpaceAfterCommas(CollapseSpaces(TrimSpace(s)))
  }

  /** Normalised text has no leading whitespace, no two adjacent blanks and
      one blank after every comma; it ends cleanly; it is empty exactly when
      the trimmed input is; and only blanks and the surrounding whitespace
      were removed. */
  lemma NormalizeTextShape(s: string)
    ensures var r := NormalizeText(s);
            && NoDoubleSpace(r) && CommaSpaced(r)
            && (|r| > 0 ==> !IsSpace(r[0]))
            && EndsClean(r)
            && RemoveSpaces(r) == RemoveSpaces(TrimSpace(s))
            && (r == [] <==> TrimSpace(s) == [])
  {
    var t := TrimSpace(s);
    var c := CollapseSpaces(t);
    CollapseSpacesEnds(t);
    CollapseSpacesSingle(t);
    CollapseSpacesKeepsText(t);
    SpaceAfterCommasStart(c);
    if |c| > 0 && c[|c| - 1] != ' ' {
      SpaceAfterCommasLast(c);
    }
    SpaceAfterCommasSpaced(c);
    SpaceAfterCommasKeepsText(c);
    SpaceAfterCommasSingle(c);
  }

  /** Every comma but a final one is followed by exactly one blank. */
  predicate CommaSpacedInside(x: string) {
    forall i :: 0 <= i < |x| - 1 && x[i] == ',' ==>
      x[i + 1] == ' ' && (i + 2 == |x| || x[i + 2] != ' ')
  }

  /** `x`, with the blank a final comma gains. */
  function WithFinalBlank(x: string): string {
    if |x| > 0 && x[|x| - 1] == ',' then x + " " else x
  }

  /** `SpaceAfterCommas` leaves text alone whose commas are already each
      followed by exactly one blank, except that a final comma gains one. */
  lemma {:induction false} SpaceAfterCommasFixed(x: string)
    requires CommaSpacedInside(x)
    ensures SpaceAfterCommas(x) == WithFinalBlank(x)
    decreases |x|
  {
    if |x| == 1 && x[0] == ',' {
      assert SkipSpaces(x[1..]) == [];
    } else if |x| > 0 {
      var t := CommaRest(x);
      var h := CommaHead(x[0]);
      FixedRest(x);
      SpaceAfterCommasFixed(t);
      CommaStep(x);
      FinalBlankCons(h, t);
    }
  }

  /** The rest the rewrite continues with when the commas are spaced: a
      comma's blank is skipped, nothing more. */
  lemma FixedRest(x: string)
    requires CommaSpacedInside(x) && |x| > 0 && !(|x| == 1 && x[0] == ',')
    ensures x == CommaHead(x[0]) + CommaRest(x)
    ensures CommaSpacedInside(CommaRest(x))
  {
    var h := CommaHead(x[0]);
    HeadFacts(x[0]);
    if x[0] == ',' {
      assert x[1] == ' ';
      SkipOneBlank(x[1..]);
      assert x[1..][1..] == x[2..];
      assert x[..2] == h;
    } else {
      assert x[..1] == h;
    }
    assert x == x[..|h|] + x[|h|..];
    CommaSpacedInsideSuffix(x, |h|);
  }

  lemma CommaSpacedInsideSuffix(x: string, k: nat)
    requires k <= |x| && CommaSpacedInside(x)
    ensures CommaSpacedInside(x[k..])
  {
    var t := x[k..];
    forall i | 0 <= i < |t| - 1 && t[i] == ','
      ensures t[i + 1] == ' ' && (i + 2 == |t| || t[i + 2] != ' ')
    {
      assert t[i] == x[k + i] && t[i + 1] == x[k + i + 1];
      assert i + 2 < |t| ==> t[i + 2] == x[k + i + 2];
    }
  }

  lemma FinalBlankCons(h: string, t: string)
    requires |h| > 0 && (|t| == 0 ==> h[|h| - 1] != ',')
    ensures h + WithFinalBlank(t) == WithFinalBlank(h + t)
  {
    if |t| > 0 {
      assert (h + t)[|h + t| - 1] == t[|t| - 1];
      assert h + (t + " ") == (h + t) + " ";
    } else {
      assert h + t == h;
    }
  }

  /** Normalising normalised text changes nothing. */
  lemma NormalizeIdempotent(s: string)
    ensures NormalizeText(NormalizeText(s)) == NormalizeText(s)
  {
    var t := NormalizeText(s);
    NormalizeTextShape(s);
    if |t| == 0 {
      assert TrimSpace(t) == [];
    } else if !IsSpace(t[|t| - 1]) {
      NormalizeCleanEnd(t);
    } else {
      NormalizeCommaEnd(t);
    }
  }

  lemma NormalizeCleanEnd(t: string)
    requires |t| > 0 && IsTrimmed(t)
    requires NoDoubleSpace(t) && CommaSpaced(t)
    ensures NormalizeText(t) == t
  {
    TrimSpaceOfTrimmed(t);
    CollapseSpacesFixed(t);
    SpaceAfterCommasFixed(t);
  }

  lemma NormalizeCommaEnd(t: string)
    requires |t| >= 2 && !IsSpace(t[0]) && t[|t| - 2] == ',' && t[|t| - 1] == ' '
    requires NoDoubleSpace(t) && CommaSpaced(t)
    ensures NormalizeText(t) == t
  {
    var u := t[..|t| - 1];
    assert t == u + " ";
    assert IsTrimmed(u);
    TrimSpaceDropsBlank(u);
    assert NoDoubleSpace(u);
    CollapseSpacesFixed(u);
    assert CommaSpacedInside(u) by {
      forall i | 0 <= i < |u| - 1 && u[i] == ','
        ensures u[i + 1] == ' ' && (i + 2 == |u| || u[i + 2] != ' ')
      {
        assert t[i] == ',';
      }
    }
    SpaceAfterCommasFixed(u);
  }

  // ---------------------------------------------------------------------
  // Normalising piece by piece

  /** Blanks before other text are skipped as a whole. */
  lemma {:induction false} SkipSpacesRun(n: nat, rest: string)
    requires |rest| == 0 || rest[0] != ' '
    ensures SkipSpaces(Spaces(n) + rest) == rest
  {
    if n > 0 {
      var t := Spaces(n - 1) + rest;
      SpacesCons(n, rest);
      SkipSpacesRun(n - 1, rest);
      SkipBlank(t);
    } else {
      assert Spaces(n) + rest == rest;
    }
  }

  lemma SkipBlank(t: string)
    ensures SkipSpaces([' '] + t) == SkipSpaces(t)
  {
    assert ([' '] + t)[1..] == t;
  }

  /** A word without blanks is kept as it is by `CollapseSpaces`. */
  lemma {:induction false} CollapseWord(w: string, rest: string)
    requires forall i :: 0 <= i < |w| ==> w[i] != ' '
    ensures CollapseSpaces(w + rest) == w + CollapseSpaces(rest)
    decreases |w|
  {
    if |w| > 0 {
      assert (w + rest)[1..] == w[1..] + rest;
      CollapseWord(w[1..], rest);
    } else {
      assert w + rest == rest;
    }
  }

  /** A run of `n` blanks before other text becomes one blank. */
  lemma {:induction false} CollapseRun(n: nat, rest: string)
    requires n > 0 && (|rest| == 0 || rest[0] != ' ')
    ensures CollapseSpaces(Spaces(n) + rest) == " " + CollapseSpaces(rest)
  {
    var s := Spaces(n) + rest;
    var t := Spaces(n - 1) + rest;
    SpacesCons(n, rest);
    SkipSpacesRun(n - 1, rest);
    CollapseBlank(t);
  }

  lemma {:induction false} SpacesCons(n: nat, rest: string)
    requires n > 0
    ensures Spaces(n) + rest == [' '] + (Spaces(n - 1) + rest)
  {
    assert Spaces(n) == " " + Spaces(n - 1);
  }

  lemma CollapseBlank(t: string)
    ensures CollapseSpaces([' '] + t) == [' '] + CollapseSpaces(SkipSpaces(t))
  {
    assert ([' '] + t)[1..] == t;
  }

  /** A stretch without commas is kept as it is by `SpaceAfterCommas`. */
  lemma {:induction false} CommaFreeWord(w: string, rest: string)
    requires forall i :: 0 <= i < |w| ==> w[i] != ','
    ensures SpaceAfterCommas(w + rest) == w + SpaceAfterCommas(rest)
    decreases |w|
  {
    if |w| > 0 {
      assert (w + rest)[1..] == w[1..] + rest;
      CommaFreeWord(w[1..], rest);
    } else {
      assert w + rest == rest;
    }
  }

  /** A comma and the `n` blanks after it become a comma and one blank. */
  lemma {:induction false} CommaRun(n: nat, rest: string)
    requires |rest| == 0 || rest[0] != ' '
    ensures SpaceAfterCommas([','] + Spaces(n) + rest) == ", " + SpaceAfterCommas(rest)
  {
    var s := [','] + Spaces(n) + rest;
    assert s[1..] == Spaces(n) + rest;
    SkipSpacesRun(n, rest);
  }
}
