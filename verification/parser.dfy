/** Splitting one source line into label, instruction text and comment:
    `parseComment`, `parseLabel` and `parseLine`, and the `asmLine` record
    they fill. */
module Parser {
  import opened Options
  import opened Text
  import opened Quotes
  import opened Keywords
  import opened Normalize

  /** One parsed line: the label without its colon (`lbl`), the normalised
      instruction text, and the comment without its semicolon. */
  datatype Line = Line(lbl: string, text: string, comment: string)
  {
    /** `asmLine.empty`: nothing at all is left of the line. */
    predicate IsEmpty() {
      lbl == "" && text == "" && comment == ""
    }
  }

  /** The two results of a split: the part taken off (a label or a
      comment) and the rest of the line. */
  datatype Cut = Cut(part: string, rest: string)

  // ---------------------------------------------------------------------
  // Comments

  /** `parseComment`: the line is cut at its first semicolon outside every
      quoted span; the comment is what follows, trimmed, and the rest is
      what precedes. A line without such a semicolon has no comment. */
  function ParseComment(line: string): (r: Cut)
    ensures IsTrimmed(r.part)
    ensures NoUnquoted(line, ';') ==> r == Cut("", line)
    ensures forall i: nat :: FirstUnquoted(line, ';', i) ==>
              r == Cut(TrimSpace(line[i + 1..]), line[..i])
  {
    match FindUnquoted(line, ';')
    case None =>
      assert forall i: nat :: !FirstUnquoted(line, ';', i);
      Cut("", line)
    case Some(i) =>
      var r := Cut(TrimSpace(line[i + 1..]), line[..i]);
      CutAt(line, ';', i, r);
      r
  }

  lemma CutAt(line: string, c: char, i: nat, r: Cut)
    requires FirstUnquoted(line, c, i)
    requires r == Cut(TrimSpace(line[i + 1..]), line[..i])
    ensures forall j: nat :: FirstUnquoted(line, c, j) ==> r == Cut(TrimSpace(line[j + 1..]), line[..j])
  {
    FirstUnquotedUnique(line, c, i);
  }

  /** A comment split loses nothing: the line is the rest, the semicolon and
      the text the comment was trimmed from. */
  lemma ParseCommentSplits(line: string)
    ensures var r := ParseComment(line);
            || (r.part == "" && r.rest == line)
            || (exists after :: line == r.rest + ";" + after && r.part == TrimSpace(after))
  {
    var r := ParseComment(line);
    if !NoUnquoted(line, ';') {
      var i := FirstAt(line, ';');
      var after := line[i + 1..];
      assert r == Cut(TrimSpace(after), line[..i]);
      SplitAt(line, i);
      assert line == r.rest + ";" + after;
    }
  }

  /** A semicolon inside a quoted span never starts a comment. */
  lemma ParseCommentQuoted(line: string)
    ensures forall i :: 0 <= i < |line| && InQuotes(line, i) ==> |ParseComment(line).rest| != i
  {
    if !NoUnquoted(line, ';') {
      var i := FirstAt(line, ';');
      assert |ParseComment(line).rest| == i;
      assert !InQuotes(line, i);
    }
  }

  // ---------------------------------------------------------------------
  // Labels

  /** The text after a colon holds both square brackets, as a memory
      operand with a segment prefix does (`fs:[eax]`): the colon then does
      not end a label. */
  predicate HasBrackets(s: string) {
    '[' in s && ']' in s
  }

  /** Keyword number `k` is the one whose expression decides the label of
      `line` and its leftmost match starts at `p` of the masked line: no
      earlier keyword in the list matches anywhere. */
  predicate KeywordSplit(line: string, k: nat, p: nat) {
    var t := Mask(line, [Filler]);
    && k < |DataKeywords|
    && LeftmostMatch(t, DataKeywords[k], p)
    && forall j :: 0 <= j < k ==> NoMatch(t, DataKeywords[j])
  }

  /** `parseLabel`. The first colon outside quotes ends the label, unless
      the text after it holds both `[` and `]`, in which case the line has
      no label at all. Without such a colon the data keywords decide: the
      first keyword in list order that matches splits the line where its
      match starts, which keeps the keyword (and the blank before it) in
      the rest. Whatever the case, the label is trimmed and the rest is a
      suffix of the line. */
  function ParseLabel(line: string): (r: Cut)
    ensures IsTrimmed(r.part)
    ensures |r.rest| <= |line| && r.rest == line[|line| - |r.rest|..]
  {
    match FindUnquoted(line, ':')
    case Some(i) =>
      ColonCut(line, i)
    case None => KeywordCut(line)
  }

  /** The keyword rule of `parseLabel`, for a line without an unquoted
      colon: the split where the first keyword in list order that matches
      has its leftmost match, or no label. */
  function KeywordCut(line: string): (r: Cut)
    ensures IsTrimmed(r.part)
    ensures |r.rest| <= |line| && r.rest == line[|line| - |r.rest|..]
  {
    match FirstKeyword(Mask(line, [Filler]), DataKeywords, 0)
    case None =>
      SuffixAt(line, 0);
      Cut("", line)
    case Some(h) =>
      KeywordCutSpec(line, h);
      Cut(TrimSpace(line[..h.at]), line[h.at..])
  }

  /** A line with an unquoted colon: the split at the first one, or no
      label when the text after it holds both brackets. */
  lemma ParseLabelColon(line: string, i: nat)
    requires FirstUnquoted(line, ':', i)
    ensures HasBrackets(line[i + 1..]) ==> ParseLabel(line) == Cut("", line)
    ensures !HasBrackets(line[i + 1..]) ==> ParseLabel(line) == Cut(TrimSpace(line[..i]), line[i + 1..])
  {
    var f := FindUnquoted(line, ':');
    assert UnquotedAt(line, ':', i);
    assert f.Some?;
    FirstUnquotedUnique(line, ':', i);
    assert f.value == i;
    assert ParseLabel(line) == ColonCut(line, i);
  }

  /** A line without an unquoted colon, where keyword `k` is the first in
      the list to match, with its leftmost match at `p`: the label is what
      precedes `p`, trimmed, and the keyword starts the rest. */
  lemma ParseLabelKeyword(line: string, k: nat, p: nat)
    requires NoUnquoted(line, ':') && KeywordSplit(line, k, p)
    ensures p < |line|
    ensures ParseLabel(line) == Cut(TrimSpace(line[..p]), line[p..])
  {
    var t := Mask(line, [Filler]);
    assert !NoMatch(t, DataKeywords[k]);
    var h := FirstKeyword(t, DataKeywords, 0).value;
    KeywordSplitUnique(line, h);
  }

  /** A line without an unquoted colon and without any data keyword has no
      label. */
  lemma ParseLabelNone(line: string)
    requires NoUnquoted(line, ':')
    requires forall k :: 0 <= k < |DataKeywords| ==> NoMatch(Mask(line, [Filler]), DataKeywords[k])
    ensures ParseLabel(line) == Cut("", line)
  {
  }

  /** The colon rule of `parseLabel`, for a colon at `i`: the split there,
      or no label when the text after the colon holds both brackets. The
      label is trimmed and the rest is a suffix of the line. */
  function ColonCut(line: string, i: nat): (r: Cut)
    requires i < |line|
    ensures IsTrimmed(r.part)
    ensures |r.rest| <= |line| && r.rest == line[|line| - |r.rest|..]
    ensures HasBrackets(line[i + 1..]) <==> r.rest == line
    ensures HasBrackets(line[i + 1..]) ==> r.part == ""
    ensures !HasBrackets(line[i + 1..]) ==> |r.rest| == |line| - i - 1 && r.part == TrimSpace(line[..i])
  {
    SuffixAt(line, i + 1);
    SuffixAt(line, 0);
    if HasBrackets(line[i + 1..]) then Cut("", line)
    else Cut(TrimSpace(line[..i]), line[i + 1..])
  }

  lemma KeywordCutSpec(line: string, h: Hit)
    requires FirstKeyword(Mask(line, [Filler]), DataKeywords, 0) == Some(h)
    ensures h.at < |line|
    ensures var rest := line[h.at..]; rest == line[|line| - |rest|..]
  {
    var t := Mask(line, [Filler]);
    assert |t| == |line|;
    SuffixAt(line, h.at);
  }

  lemma KeywordSplitUnique(line: string, h: Hit)
    requires FirstKeyword(Mask(line, [Filler]), DataKeywords, 0) == Some(h)
    ensures KeywordSplit(line, h.index, h.at)
    ensures forall k: nat, p: nat :: KeywordSplit(line, k, p) ==> k == h.index && p == h.at
  {
  }

  /** The suffix from `p` on, read back from the end. */
  lemma SuffixAt(s: string, p: nat)
    requires p <= |s|
    ensures s[|s| - |s[p..]|..] == s[p..]
  {
  }

  // ---------------------------------------------------------------------
  // Lines

  /** `parseLine`: the comment is taken off first and the label second;
      the rest becomes the normalised instruction text. */
  function ParseLine(line: string): (r: Line)
    ensures IsTrimmed(r.lbl) && IsTrimmed(r.comment)
    ensures NoDoubleSpace(r.text) && CommaSpaced(r.text) && EndsClean(r.text)
    ensures |r.text| > 0 ==> !IsSpace(r.text[0])
  {
    var c := ParseComment(line);
    var l := ParseLabel(c.rest);
    NormalizeTextShape(l.rest);
    Line(l.part, NormalizeText(l.rest), c.part)
  }

  /** Where `parseLine` takes its label and comment from. The comment is
      taken off first and the label second, so the label is looked for only
      in what precedes the first unquoted semicolon, and a colon inside a
      comment never makes a label. */
  lemma ParseLineFields(line: string)
    ensures var r := ParseLine(line);
            && (NoUnquoted(line, ';') ==> r.comment == "" && r.lbl == ParseLabel(line).part)
            && (forall i: nat :: FirstUnquoted(line, ';', i) ==>
                  r.comment == TrimSpace(line[i + 1..]) && r.lbl == ParseLabel(line[..i]).part)
  {
    var c := ParseComment(line);
    if !NoUnquoted(line, ';') {
      var i := FirstAt(line, ';');
      assert c.part == TrimSpace(line[i + 1..]);
    }
  }

  /** A line of nothing but whitespace parses to an empty line. */
  lemma BlankLineIsEmpty(line: string)
    requires AllSpace(line)
    ensures ParseLine(line).IsEmpty()
  {
    assert NoUnquoted(line, ';');
    assert NoUnquoted(line, ':');
    assert QuoteFree(line);
    var t := Mask(line, [Filler]);
    forall k | 0 <= k < |DataKeywords|
      ensures NoMatch(t, DataKeywords[k])
    {
      BlankHasNoKeyword(t, DataKeywords[k]);
    }
    TrimSpaceOfBlank(line);
  }

  lemma BlankHasNoKeyword(t: string, kw: string)
    requires AllSpace(t) && |kw| > 0 && !IsSpace(kw[0])
    ensures NoMatch(t, kw)
  {
  }
}
