/** Worked examples: input lines from the repository's own test table and
    what the model computes for them, each derived from the general lemmas
    of the other modules. */
module Examples {
  import opened Text
  import opened Quotes
  import opened Keywords
  import opened Normalize
  import opened Parser
  import opened Printer
  import opened Formatter

  // ---------------------------------------------------------------------
  // The quote mask

  /** A paired span is masked, quotes included. */
  lemma MaskPaired(s: string)
    requires s == "something 'quoted'"
    ensures Mask(s, "x") == "something xxxxxxxx"
  {
    PairedQuoteRun(s, "x", 0, 10, 17);
    MaskRead(s, "x");
    SomethingQuoted(s);
    Three(MaskFrom(s, "x", 0), s[0..10], Repeat("x", 8), MaskFrom(s, "x", 18),
          "something ", "xxxxxxxx", [], "something xxxxxxxx");
  }

  lemma SomethingQuoted(s: string)
    requires s == "something 'quoted'"
    ensures s[0..10] == "something " && MaskFrom(s, "x", 18) == []
    ensures Repeat("x", 8) == "xxxxxxxx"
    ensures "something " + "xxxxxxxx" + [] == "something xxxxxxxx"
  {
  }

  /** `x` is read in three pieces. */
  lemma Three(x: string, a: string, b: string, c: string,
              a': string, b': string, c': string, w: string)
    requires x == a + b + c && a == a' && b == b' && c == c' && a' + b' + c' == w
    ensures x == w
  {
  }

  /** A quote of the other kind inside a span does not count; a quote
      without a partner is copied and the scan resumes after it. */
  lemma MaskUnpaired(s: string)
    requires s == "more \"qu'ot\" 'ma\"r\"ks"
    ensures Mask(s, "x") == "more xxxxxxx 'maxxxks"
  {
    MoreMarks(s);
    MoreMarksPieces(s);
    MoreMarksJoin();
    PairedQuoteRun(s, "x", 0, 5, 11);
    MoreMarksMiddle(s);
    MaskRead(s, "x");
    Three(MaskFrom(s, "x", 0), s[0..5], Repeat("x", 7), MaskFrom(s, "x", 12),
          "more ", "xxxxxxx", " 'maxxxks", "more xxxxxxx 'maxxxks");
  }

  /** From the unpaired quote on. */
  lemma MoreMarksMiddle(s: string)
    requires s == "more \"qu'ot\" 'ma\"r\"ks"
    requires StateAt(s, 12) == Outside
    ensures MaskFrom(s, "x", 12) == " 'maxxxks"
  {
    MoreMarksUnpaired(s);
    MoreMarksPieces(s);
    MoreMarksJoin();
    UnpairedQuoteRun(s, "x", 12, 13);
    MoreMarksTail(s);
    Two(MaskFrom(s, "x", 12), s[12..14], MaskFrom(s, "x", 14), " '", "maxxxks", " 'maxxxks");
  }

  /** From the second paired span on. */
  lemma MoreMarksTail(s: string)
    requires s == "more \"qu'ot\" 'ma\"r\"ks"
    requires StateAt(s, 14) == Outside
    ensures MaskFrom(s, "x", 14) == "maxxxks"
  {
    MoreMarks(s);
    MoreMarksPieces(s);
    MoreMarksJoin();
    PairedQuoteRun(s, "x", 14, 16, 18);
    QuoteFreeRun(s, "x", 19, 21);
    Two(MaskFrom(s, "x", 19), s[19..21], MaskFrom(s, "x", 21), "ks", [], "ks");
    Three(MaskFrom(s, "x", 14), s[14..16], Repeat("x", 3), MaskFrom(s, "x", 19),
          "ma", "xxx", "ks", "maxxxks");
  }

  lemma MoreMarks(s: string)
    requires s == "more \"qu'ot\" 'ma\"r\"ks"
    ensures |s| == 21
    ensures forall p :: 0 <= p < 5 ==> !IsQuote(s[p])
    ensures IsQuote(s[5]) && s[11] == s[5] && forall p :: 5 < p < 11 ==> s[p] != s[5]
    ensures forall p :: 14 <= p < 16 ==> !IsQuote(s[p])
    ensures IsQuote(s[16]) && s[18] == s[16] && forall p :: 16 < p < 18 ==> s[p] != s[16]
    ensures forall p :: 19 <= p < 21 ==> !IsQuote(s[p])
  {
    MoreMarksUnpaired(s);
  }

  lemma MoreMarksUnpaired(s: string)
    requires s == "more \"qu'ot\" 'ma\"r\"ks"
    ensures |s| == 21
    ensures (forall p :: 12 <= p < 13 ==> !IsQuote(s[p])) && s[13] !in s[14..]
  {
    assert s[14..] == "ma\"r\"ks";
  }

  lemma MoreMarksPieces(s: string)
    requires s == "more \"qu'ot\" 'ma\"r\"ks"
    ensures s[0..5] == "more " && s[12..14] == " '" && s[14..16] == "ma" && s[19..21] == "ks"
    ensures MaskFrom(s, "x", 21) == []
  {
  }

  lemma MoreMarksJoin()
    ensures Repeat("x", 7) == "xxxxxxx" && Repeat("x", 3) == "xxx"
    ensures "ks" + [] == "ks" && "ma" + "xxx" + "ks" == "maxxxks" && " '" + "maxxxks" == " 'maxxxks"
    ensures "more " + "xxxxxxx" + " 'maxxxks" == "more xxxxxxx 'maxxxks"
  {
  }

  /** An empty filler removes paired spans altogether. */
  lemma MaskEmptyFiller(s: string)
    requires s == "more \"qu'ot\" 'marks"
    ensures Mask(s, "") == "more  'marks"
  {
    MoreMarksPlain(s);
    MoreMarksPlainPieces(s);
    MoreMarksPlainJoin();
    PairedQuoteRun(s, "", 0, 5, 11);
    MoreMarksPlainTail(s);
    MaskRead(s, "");
    Three(MaskFrom(s, "", 0), s[0..5], Repeat("", 7), MaskFrom(s, "", 12),
          "more ", "", " 'marks", "more  'marks");
  }

  /** From the unpaired quote on. */
  lemma MoreMarksPlainTail(s: string)
    requires s == "more \"qu'ot\" 'marks"
    requires StateAt(s, 12) == Outside
    ensures MaskFrom(s, "", 12) == " 'marks"
  {
    MoreMarksPlainRest(s);
    MoreMarksPlainPieces(s);
    MoreMarksPlainJoin();
    UnpairedQuoteRun(s, "", 12, 13);
    MoreMarksPlainWord(s);
    Two(MaskFrom(s, "", 12), s[12..14], MaskFrom(s, "", 14), " '", "marks", " 'marks");
  }

  /** The last word, after the unpaired quote. */
  lemma MoreMarksPlainWord(s: string)
    requires s == "more \"qu'ot\" 'marks"
    requires StateAt(s, 14) == Outside
    ensures MaskFrom(s, "", 14) == "marks"
  {
    MoreMarksPlain(s);
    MoreMarksPlainPieces(s);
    MoreMarksPlainJoin();
    QuoteFreeRun(s, "", 14, 19);
    Two(MaskFrom(s, "", 14), s[14..19], MaskFrom(s, "", 19), "marks", [], "marks");
  }

  lemma MoreMarksPlain(s: string)
    requires s == "more \"qu'ot\" 'marks"
    ensures |s| == 19
    ensures forall p :: 0 <= p < 5 ==> !IsQuote(s[p])
    ensures IsQuote(s[5]) && s[11] == s[5] && forall p :: 5 < p < 11 ==> s[p] != s[5]
    ensures forall p :: 14 <= p < 19 ==> !IsQuote(s[p])
  {
  }

  lemma MoreMarksPlainRest(s: string)
    requires s == "more \"qu'ot\" 'marks"
    ensures |s| == 19
    ensures (forall p :: 12 <= p < 13 ==> !IsQuote(s[p])) && s[13] !in s[14..]
  {
    assert s[14..] == "marks";
  }

  lemma MoreMarksPlainPieces(s: string)
    requires s == "more \"qu'ot\" 'marks"
    ensures s[0..5] == "more " && s[12..14] == " '" && s[14..19] == "marks"
    ensures MaskFrom(s, "", 19) == []
  {
  }

  lemma MoreMarksPlainJoin()
    ensures Repeat("", 7) == ""
    ensures "marks" + [] == "marks" && " '" + "marks" == " 'marks"
    ensures "more " + "" + " 'marks" == "more  'marks"
  {
  }

  /** `x` is read in two pieces. */
  lemma Two(x: string, a: string, b: string, a': string, b': string, w: string)
    requires x == a + b && a == a' && b == b' && a' + b' == w
    ensures x == w
  {
  }

  // ---------------------------------------------------------------------
  // Normalising the instruction text

  /** Text without blanks. */
  predicate Word(w: string) {
    |w| > 0 && forall i :: 0 <= i < |w| ==> w[i] != ' '
  }

  /** A word, a run of blanks and what follows: the run becomes one blank. */
  lemma CollapseGap(a: string, n: nat, rest: string)
    requires Word(a) && n > 0 && (|rest| == 0 || rest[0] != ' ')
    ensures CollapseSpaces(a + Spaces(n) + rest) == a + " " + CollapseSpaces(rest)
  {
    CollapseRun(n, rest);
    CollapseWord(a, Spaces(n) + rest);
    Regroup(a, Spaces(n), rest);
  }

  lemma CollapseLast(c: string)
    requires Word(c)
    ensures CollapseSpaces(c) == c
  {
    CollapseWord(c, []);
    assert c + [] == c;
  }

  /** Three words separated by runs of blanks: each run becomes one blank. */
  lemma CollapseGaps(a: string, n: nat, b: string, m: nat, c: string)
    requires Word(a) && Word(b) && Word(c) && n > 0 && m > 0
    ensures CollapseSpaces(a + Spaces(n) + b + Spaces(m) + c) == a + " " + b + " " + c
  {
    CollapseLast(c);
    CollapseGap(b, m, c);
    var t := b + Spaces(m) + c;
    assert t[0] == b[0];
    CollapseGap(a, n, t);
    Regroup4(a + Spaces(n), b, Spaces(m), c);
    Regroup4(a + " ", b, " ", c);
  }

  // ---------------------------------------------------------------------
  // Parsing a line

  /** A line without label or comment: surrounding whitespace is trimmed,
      runs of blanks collapse and the comma keeps its one blank. */
  lemma ParsePlainLine(s: string)
    requires s == "   mov   rax,   rbx    "
    ensures ParseLine(s) == Line("", "mov rax, rbx", "")
  {
    PlainLineChars(s);
    assert Mask(s, [Filler]) == s;
    NoKeywordWithoutD(s);
    ParseLabelNone(s);
    PlainLineText(s);
  }

  lemma PlainLineChars(s: string)
    requires s == "   mov   rax,   rbx    "
    ensures forall i :: 0 <= i < |s| ==> s[i] != ';' && s[i] != ':' && s[i] != 'd' && !IsQuote(s[i])
  {
  }

  lemma PlainLineText(s: string)
    requires s == "   mov   rax,   rbx    "
    ensures NormalizeText(s) == "mov rax, rbx"
  {
    var b := "mov   rax,   rbx";
    PlainLineTrim(s, b);
    PlainLineWords(b);
    CollapseGaps("mov", 3, "rax,", 3, "rbx");
    PlainLineCommas("mov rax, rbx");
  }

  lemma PlainLineTrim(s: string, b: string)
    requires s == "   mov   rax,   rbx    " && b == "mov   rax,   rbx"
    ensures TrimSpace(s) == b
  {
    var a, c := Spaces(3), Spaces(4);
    BlankRun(3);
    BlankRun(4);
    PlainLineCore(b);
    PlainLineJoin(s, a, b, c);
    TrimSpaceExact(a, b, c);
  }

  lemma BlankRun(n: nat)
    ensures AllSpace(Spaces(n))
  {
    SpacesBlank(n);
  }

  lemma PlainLineCore(b: string)
    requires b == "mov   rax,   rbx"
    ensures |b| > 0 && IsTrimmed(b)
  {
  }

  lemma PlainLineJoin(s: string, a: string, b: string, c: string)
    requires s == "   mov   rax,   rbx    " && b == "mov   rax,   rbx"
    requires a == Spaces(3) && c == Spaces(4)
    ensures a + b + c == s
  {
    assert a == "   " && c == "    ";
  }

  lemma PlainLineWords(b: string)
    requires b == "mov   rax,   rbx"
    ensures Word("mov") && Word("rax,") && Word("rbx")
    ensures "mov" + Spaces(3) + "rax," + Spaces(3) + "rbx" == b
    ensures "mov" + " " + "rax," + " " + "rbx" == "mov rax, rbx"
  {
    assert Spaces(3) == "   ";
  }

  lemma PlainLineCommas(x: string)
    requires x == "mov rax, rbx"
    ensures SpaceAfterCommas(x) == x
  {
    assert CommaSpacedInside(x);
    SpaceAfterCommasFixed(x);
  }

  /** Text that is already in normal form, with whitespace around it,
      normalises to itself. */
  lemma NormalizeAround(a: string, t: string, c: string)
    requires AllSpace(a) && AllSpace(c)
    requires |t| > 0 && IsTrimmed(t) && NoDoubleSpace(t) && CommaSpaced(t)
    ensures NormalizeText(a + t + c) == t
  {
    TrimSpaceExact(a, t, c);
    TrimSpaceOfTrimmed(t);
    NormalizeCleanEnd(t);
  }

  /** Colons and a semicolon only: the comment is empty, the first colon
      ends an empty label and the second one is the text. */
  lemma ParseColons(s: string)
    requires s == "::;"
    ensures ParseLine(s) == Line("", ":", "")
  {
    ColonsChars(s);
    QuoteFreeOutside(s);
    assert FirstUnquoted(s, ';', 2);
    var r := s[..2];
    ColonsRest(s, r);
    QuoteFreeOutside(r);
    assert FirstUnquoted(r, ':', 0);
    ParseLabelColon(r, 0);
    ColonsText(r[1..]);
  }

  lemma ColonsChars(s: string)
    requires s == "::;"
    ensures |s| == 3 && QuoteFree(s) && s[2] == ';'
    ensures forall j :: 0 <= j < 2 ==> s[j] != ';'
  {
  }

  lemma ColonsRest(s: string, r: string)
    requires s == "::;" && r == s[..2]
    ensures TrimSpace(s[3..]) == []
    ensures QuoteFree(r) && r[0] == ':' && !HasBrackets(r[1..])
    ensures TrimSpace(r[..0]) == [] && r[1..] == ":"
  {
    ColonsSlices(s, r);
    TrimSpaceOfBlank(s[3..]);
    TrimSpaceOfBlank(r[..0]);
  }

  lemma ColonsSlices(s: string, r: string)
    requires s == "::;" && r == s[..2]
    ensures s[3..] == [] && r == "::" && r[..0] == [] && r[1..] == ":"
  {
  }

  lemma ColonsText(t: string)
    requires t == ":"
    ensures NormalizeText(t) == t
  {
    NormalizeCleanEnd(t);
  }

  /** A data keyword without a colon: the label ends where the blank before
      the keyword starts. */
  lemma ParseDataLabel(s: string)
    requires s == "lbl db data"
    ensures ParseLine(s) == Line("lbl", "db data", "")
  {
    DataLabelChars(s);
    assert Mask(s, [Filler]) == s;
    DataLabelMatch(s);
    ParseLabelKeyword(s, 0, 3);
    DataLabelHead(s, s[..3]);
    DataLabelRest(s, s[3..]);
  }

  lemma DataLabelHead(s: string, h: string)
    requires s == "lbl db data" && h == s[..3]
    ensures TrimSpace(h) == "lbl"
  {
    assert h == "lbl";
    TrimSpaceOfTrimmed(h);
  }

  lemma DataLabelRest(s: string, r: string)
    requires s == "lbl db data" && r == s[3..]
    ensures NormalizeText(r) == "db data"
  {
    var t := "db data";
    DataLabelPieces(s, r, t);
    BlankRun(1);
    DataLabelText(t);
    NormalizeAround(Spaces(1), t, []);
  }

  lemma DataLabelChars(s: string)
    requires s == "lbl db data"
    ensures forall i :: 0 <= i < |s| ==> s[i] != ';' && s[i] != ':' && !IsQuote(s[i])
  {
  }

  lemma DataLabelMatch(s: string)
    requires s == "lbl db data"
    ensures LeftmostMatch(s, DataKeywords[0], 3)
  {
    var kw := DataKeywords[0];
    assert kw == "db";
    assert KeywordAt(s, kw, 4) by {
      assert s[4..6] == "db";
    }
    assert !KeywordAt(s, kw, 0) by {
      assert s[0..2][0] == s[0] == 'l';
    }
  }

  lemma DataLabelPieces(s: string, r: string, t: string)
    requires s == "lbl db data" && r == s[3..] && t == "db data"
    ensures r == Spaces(1) + t + []
  {
    assert Spaces(1) == " ";
  }

  lemma DataLabelText(t: string)
    requires t == "db data"
    ensures |t| > 0 && IsTrimmed(t) && NoDoubleSpace(t) && CommaSpaced(t)
  {
  }

  /** A colon followed by a bracketed operand is a segment prefix, not the
      end of a label. */
  lemma ParseSegmentColon(s: string)
    requires s == "mov eax, fs:[eax + 0x30]"
    ensures ParseLine(s) == Line("", s, "")
  {
    SegmentChars(s);
    QuoteFreeOutside(s);
    assert FirstUnquoted(s, ':', 11);
    ParseLabelColon(s, 11);
    SegmentText(s);
  }

  lemma SegmentChars(s: string)
    requires s == "mov eax, fs:[eax + 0x30]"
    ensures forall i :: 0 <= i < |s| ==> s[i] != ';'
    ensures QuoteFree(s) && |s| == 24 && s[11] == ':'
    ensures forall j :: 0 <= j < 11 ==> s[j] != ':'
    ensures HasBrackets(s[12..])
  {
    assert s[12] == '[' && s[23] == ']';
  }

  lemma SegmentText(s: string)
    requires s == "mov eax, fs:[eax + 0x30]"
    ensures NormalizeText(s) == s
  {
    SegmentTrimmed(s);
    SegmentSingle(s);
    SegmentCommas(s);
    NormalizeCleanEnd(s);
  }

  lemma SegmentTrimmed(s: string)
    requires s == "mov eax, fs:[eax + 0x30]"
    ensures |s| > 0 && IsTrimmed(s)
  {
  }

  lemma SegmentSingle(s: string)
    requires s == "mov eax, fs:[eax + 0x30]"
    ensures NoDoubleSpace(s)
  {
  }

  lemma SegmentCommas(s: string)
    requires s == "mov eax, fs:[eax + 0x30]"
    ensures CommaSpaced(s)
  {
  }

  // ---------------------------------------------------------------------
  // Printing and the line loop

  /** A label on its own row, the text indented by eight blanks and the
      comment's semicolon at column 39 when the comment column is 40. */
  lemma PrintLabelTextComment(l: Line)
    requires l == Line("lbl", "mov rax, rbx", "note")
    ensures Print(l, 8, 40) == "lbl" + ":\n" + Spaces(8) + "mov rax, rbx" + Spaces(19) + "; " + "note" + "\n"
  {
    PrintFull(l, 8, 40);
    GapAt(l);
  }

  lemma GapAt(l: Line)
    requires l == Line("lbl", "mov rax, rbx", "note")
    ensures l.lbl != "" && l.text != "" && l.comment != ""
    ensures CommentGap(8 + |l.text|, 40) == 19
  {
  }

  /** The printed form of a line with label, text and comment. */
  lemma PrintFull(l: Line, ii: nat, ci: int)
    requires l.lbl != "" && l.text != "" && l.comment != ""
    ensures Print(l, ii, ci) == l.lbl + ":\n" + Spaces(ii) + l.text
                                + Spaces(CommentGap(ii + |l.text|, ci)) + "; " + l.comment + "\n"
  {
  }

  /** A run of three empty lines between two instructions shrinks to one. */
  lemma KeptBlankRun(a: Line, b: Line, e: Line)
    requires e == Line("", "", "") && !a.IsEmpty() && !b.IsEmpty()
    ensures Kept([a, e, e, e, b]) == [a, e, b]
  {
    var ps := [a, e, e, e, b];
    KeptPrefix(ps, 1, [a]);
    KeptPrefix(ps, 2, [a, e]);
    KeptPrefix(ps, 3, [a, e]);
    KeptPrefix(ps, 4, [a, e]);
    KeptPrefix(ps, 5, [a, e, b]);
  }

  lemma KeptPrefix(ps: seq<Line>, n: nat, k: seq<Line>)
    requires 0 < n <= |ps|
    requires Kept(ps[..n - 1]) + (if KeepAt(ps, n - 1) then [ps[n - 1]] else []) == k
    ensures Kept(ps[..n]) == k
  {
    KeptStep(ps, n - 1);
  }

  // ---------------------------------------------------------------------
  // Formatting twice

  /** Formatting is not a fixed point. `a: b: c` formats to the two rows
      `a:` and `        b: c`; formatting those rows again finds a colon
      in the second one and splits off a second label, `b`. */
  lemma FormatTwiceDiffers(s: string, h: string, row: string)
    requires s == "a: b: c" && h == "a:" && row == Spaces(8) + "b: c"
    ensures Render(Kept(ParseAll([s])), 8, 40) == h + "\n" + row + "\n"
    ensures Render(Kept(ParseAll([h, row])), 8, 40) == h + "\n" + "b:" + "\n" + Spaces(8) + "c" + "\n"
    ensures Render(Kept(ParseAll([h, row])), 8, 40) != Render(Kept(ParseAll([s])), 8, 40)
  {
    var p := Line("a", "b: c", "");
    var q := Line("a", "", "");
    var r := Line("b", "c", "");
    TwiceFirstLine(s, p);
    TwiceHead(h, q);
    TwiceRow(row, r);
    ParsedOne(s, p);
    ParsedTwo(h, row, q, r);
    RenderOne(ParseAll([s]), p);
    RenderTwo(ParseAll([h, row]), q, r);
    TwicePrints(p, q, r, h, row);
  }

  lemma ParsedOne(x: string, p: Line)
    requires ParseLine(x) == p
    ensures ParseAll([x]) == [p]
  {
  }

  lemma ParsedTwo(x: string, y: string, p: Line, q: Line)
    requires ParseLine(x) == p && ParseLine(y) == q
    ensures ParseAll([x, y]) == [p, q]
  {
    var a := ParseAll([x, y]);
    assert [x, y][0] == x && [x, y][1] == y;
    Pair(a, p, q);
  }

  lemma Pair<T>(a: seq<T>, p: T, q: T)
    requires |a| == 2 && a[0] == p && a[1] == q
    ensures a == [p, q]
  {
  }

  lemma RenderOne(ps: seq<Line>, p: Line)
    requires ps == [p] && !p.IsEmpty()
    ensures Render(Kept(ps), 8, 40) == Print(p, 8, 40)
  {
    assert ps[..0] == [];
    assert Kept(ps) == [p];
    assert Render([p], 8, 40) == Render([], 8, 40) + Print(p, 8, 40);
  }

  lemma RenderTwo(ps: seq<Line>, q: Line, r: Line)
    requires ps == [q, r] && !q.IsEmpty() && !r.IsEmpty()
    ensures Render(Kept(ps), 8, 40) == Print(q, 8, 40) + Print(r, 8, 40)
  {
    KeptPrefix(ps, 1, [q]);
    KeptPrefix(ps, 2, [q, r]);
    assert ps[..2] == ps;
    RenderAppend([q], r, 8, 40);
    assert [q] + [r] == [q, r];
    RenderOne([q], q);
    assert Kept([q]) == [q];
  }

  /** The printed forms of the three parsed lines, and where the two
      outputs part. */
  lemma TwicePrints(p: Line, q: Line, r: Line, h: string, row: string)
    requires p == Line("a", "b: c", "") && q == Line("a", "", "") && r == Line("b", "c", "")
    requires h == "a:" && row == Spaces(8) + "b: c"
    ensures Print(p, 8, 40) == h + "\n" + row + "\n"
    ensures Print(q, 8, 40) + Print(r, 8, 40) == h + "\n" + "b:" + "\n" + Spaces(8) + "c" + "\n"
    ensures Print(q, 8, 40) + Print(r, 8, 40) != Print(p, 8, 40)
  {
    TwiceFirstPrint(p, h, row);
    TwiceSecondPrint(q, r, h);
    TwiceOutputsPart(h, row, h + "\n" + row + "\n", h + "\n" + "b:" + "\n" + Spaces(8) + "c" + "\n");
  }

  lemma TwiceFirstPrint(p: Line, h: string, row: string)
    requires p == Line("a", "b: c", "") && h == "a:" && row == Spaces(8) + "b: c"
    ensures Print(p, 8, 40) == h + "\n" + row + "\n"
  {
    PrintLabelText(p, 8, 40);
    LabelColon(p.lbl, h);
    Regroup4(p.lbl + ":\n", Spaces(8), p.text, "\n");
  }

  lemma TwiceSecondPrint(q: Line, r: Line, h: string)
    requires q == Line("a", "", "") && r == Line("b", "c", "") && h == "a:"
    ensures Print(q, 8, 40) + Print(r, 8, 40) == h + "\n" + "b:" + "\n" + Spaces(8) + "c" + "\n"
  {
    var nl, b, c := "\n", "b:", "c";
    PrintLabelAlone(q, 8, 40);
    LabelColon(q.lbl, h);
    assert Print(q, 8, 40) == h + nl;
    PrintLabelText(r, 8, 40);
    LabelColon(r.lbl, b);
    assert Print(r, 8, 40) == b + nl + Spaces(8) + c + nl;
    Regroup(h + nl, b + nl + Spaces(8) + c, nl);
    Regroup(h + nl, b + nl + Spaces(8), c);
    Regroup(h + nl, b + nl, Spaces(8));
    Regroup(h + nl, b, nl);
  }

  /** The first output has a blank where the second has the label `b`. */
  lemma TwiceOutputsPart(h: string, row: string, x: string, y: string)
    requires h == "a:" && row == Spaces(8) + "b: c"
    requires x == h + "\n" + row + "\n"
    requires y == h + "\n" + "b:" + "\n" + Spaces(8) + "c" + "\n"
    ensures x != y
  {
    SpacesBlank(8);
    assert x[3] == row[0] == ' ';
    assert y[3] == 'b';
  }

  lemma LabelColon(l: string, h: string)
    requires |l| == 1 && h == l + ":"
    ensures l + ":\n" == h + "\n"
  {
  }

  /** A label with text and no comment: the label row, then the text row. */
  lemma PrintLabelText(l: Line, ii: nat, ci: int)
    requires l.lbl != "" && l.text != "" && l.comment == ""
    ensures Print(l, ii, ci) == l.lbl + ":\n" + Spaces(ii) + l.text + "\n"
  {
  }

  /** A label alone: the label and its colon. */
  lemma PrintLabelAlone(l: Line, ii: nat, ci: int)
    requires l.lbl != "" && l.text == "" && l.comment == ""
    ensures Print(l, ii, ci) == l.lbl + ":\n"
  {
  }

  /** A line without quotes or semicolons whose first colon is at `i` and
      is not followed by both brackets. */
  predicate ColonShape(s: string, i: nat) {
    && QuoteFree(s) && (forall j :: 0 <= j < |s| ==> s[j] != ';')
    && i < |s| && s[i] == ':' && (forall j :: 0 <= j < i ==> s[j] != ':')
    && !HasBrackets(s[i + 1..])
  }

  /** Such a line parses to the label before the colon and the text after
      it. */
  lemma ColonLine(s: string, i: nat, lbl: string, text: string)
    requires ColonShape(s, i)
    requires TrimSpace(s[..i]) == lbl && NormalizeText(s[i + 1..]) == text
    ensures ParseLine(s) == Line(lbl, text, "")
  {
    Absent(s, ';');
    QuoteFreeOutside(s);
    assert FirstUnquoted(s, ':', i);
    ParseLabelColon(s, i);
    var c := ParseComment(s);
    assert c == Cut("", s);
    var l := ParseLabel(c.rest);
    assert l == Cut(lbl, s[i + 1..]);
    assert ParseLine(s) == Line(l.part, NormalizeText(l.rest), c.part);
  }

  /** A character that does not occur at all does not occur outside
      quotes. */
  lemma Absent(s: string, c: char)
    requires forall i :: 0 <= i < |s| ==> s[i] != c
    ensures NoUnquoted(s, c)
  {
  }

  /** First pass: the first colon ends the label `a`, and the rest of the
      line, colon included, is the text. */
  lemma TwiceFirstLine(s: string, p: Line)
    requires s == "a: b: c" && p == Line("a", "b: c", "")
    ensures ParseLine(s) == p
  {
    TwiceFirstChars(s);
    TwiceFirstPieces(s, s[..1], s[2..]);
    ColonLine(s, 1, "a", "b: c");
  }

  lemma TwiceFirstChars(s: string)
    requires s == "a: b: c"
    ensures ColonShape(s, 1)
  {
  }

  lemma TwiceFirstPieces(s: string, a: string, b: string)
    requires s == "a: b: c" && a == s[..1] && b == s[2..]
    ensures TrimSpace(a) == "a" && NormalizeText(b) == "b: c"
  {
    assert a == "a";
    TrimSpaceOfTrimmed(a);
    assert b == Spaces(1) + "b: c" + [] by {
      assert Spaces(1) == " ";
    }
    BlankRun(1);
    TwiceText("b: c");
    NormalizeAround(Spaces(1), "b: c", []);
  }

  lemma TwiceText(t: string)
    requires t == "b: c"
    ensures |t| > 0 && IsTrimmed(t) && NoDoubleSpace(t) && CommaSpaced(t)
  {
  }

  /** Second pass, first row: the label alone. */
  lemma TwiceHead(h: string, q: Line)
    requires h == "a:" && q == Line("a", "", "")
    ensures ParseLine(h) == q
  {
    TwiceHeadChars(h);
    TwiceHeadPieces(h, h[..1], h[2..]);
    ColonLine(h, 1, "a", []);
  }

  lemma TwiceHeadChars(h: string)
    requires h == "a:"
    ensures ColonShape(h, 1)
  {
  }

  lemma TwiceHeadPieces(h: string, a: string, b: string)
    requires h == "a:" && a == h[..1] && b == h[2..]
    ensures TrimSpace(a) == "a" && NormalizeText(b) == []
  {
    assert a == "a" && b == [];
    TrimSpaceOfTrimmed(a);
    TrimSpaceOfBlank(b);
  }

  /** Second pass, second row: the colon in the text now ends a label. */
  lemma TwiceRow(row: string, r: Line)
    requires row == Spaces(8) + "b: c" && r == Line("b", "c", "")
    ensures ParseLine(row) == r
  {
    TwiceRowChars(row);
    TwiceRowPieces(row, row[..9], row[10..]);
    ColonLine(row, 9, "b", "c");
  }

  lemma TwiceRowChars(row: string)
    requires row == Spaces(8) + "b: c"
    ensures |row| == 12 && ColonShape(row, 9)
  {
    SpacesBlank(8);
    assert forall i :: 0 <= i < 8 ==> row[i] == ' ';
    assert row[8..] == "b: c";
  }

  lemma TwiceRowPieces(row: string, a: string, b: string)
    requires row == Spaces(8) + "b: c" && |row| == 12 && a == row[..9] && b == row[10..]
    ensures TrimSpace(a) == "b" && NormalizeText(b) == "c"
  {
    assert row[8..] == "b: c";
    assert a == Spaces(8) + "b" + [];
    assert b == Spaces(1) + "c" + [] by {
      assert Spaces(1) == " ";
    }
    BlankRun(8);
    BlankRun(1);
    TrimSpaceExact(Spaces(8), "b", []);
    NormalizeAround(Spaces(1), "c", []);
  }
}
