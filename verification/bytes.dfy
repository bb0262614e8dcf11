/** Go strings are UTF-8 byte strings. `noquotes` works on runes and
    returns a string whose quoted runes are each replaced by the one-byte
    filler, so its byte offsets differ from the line's as soon as a quoted
    span holds a rune of more than one byte; `parseComment` and
    `parseLabel` nevertheless cut the line at the byte offset found in the
    masked copy. This module models that cut as written and the cut at the
    separator the rune-level model finds. */
module Bytes {
  import opened Options
  import opened Text
  import opened Quotes
  import opened Parser

  newtype byte = x: int | 0 <= x < 256

  predicate IsAscii(c: char) {
    c as int < 0x80
  }

  /** The UTF-8 encoding of one code point. */
  function Utf8(c: char): (r: seq<byte>)
    ensures 1 <= |r| <= 4
    ensures IsAscii(c) ==> r == [c as int as byte]
    ensures !IsAscii(c) ==> forall k :: 0 <= k < |r| ==> r[k] >= 0x80
  {
    var n := c as int;
    if n < 0x80 then [n as byte]
    else if n < 0x800 then [(0xC0 + n / 64) as byte, (0x80 + n % 64) as byte]
    else if n < 0x10000 then
      [(0xE0 + n / 4096) as byte, (0x80 + n / 64 % 64) as byte, (0x80 + n % 64) as byte]
    else
      [(0xF0 + n / 262144) as byte, (0x80 + n / 4096 % 64) as byte,
       (0x80 + n / 64 % 64) as byte, (0x80 + n % 64) as byte]
  }

  /** The bytes of a string: its runes encoded one after the other. */
  function Encode(s: string): (r: seq<byte>)
    ensures |r| >= |s|
  {
    if |s| == 0 then [] else Utf8(s[0]) + Encode(s[1..])
  }

  lemma {:induction false} EncodeAppend(a: string, b: string)
    ensures Encode(a + b) == Encode(a) + Encode(b)
    decreases |a|
  {
    if |a| > 0 {
      assert (a + b)[1..] == a[1..] + b;
      EncodeAppend(a[1..], b);
    } else {
      assert a + b == b;
    }
  }

  /** The bytes of a rune at position `i`: a string is what precedes it, its
      encoding, and what follows. */
  lemma EncodeAround(s: string, i: nat)
    requires i < |s|
    ensures Encode(s) == Encode(s[..i]) + Utf8(s[i]) + Encode(s[i + 1..])
  {
    SplitAt(s, i);
    EncodeParts(s, s[..i], s[i], s[i + 1..]);
  }

  lemma EncodeParts(s: string, a: string, x: char, c: string)
    requires s == a + [x] + c
    ensures Encode(s) == Encode(a) + Utf8(x) + Encode(c)
  {
    var t := [x] + c;
    assert s == a + t;
    EncodeAppend(a, t);
    EncodeCons(x, c);
    Regroup(Encode(a), Utf8(x), Encode(c));
  }

  lemma EncodeCons(c: char, t: string)
    ensures Encode([c] + t) == Utf8(c) + Encode(t)
  {
    assert ([c] + t)[1..] == t;
  }

  /** An ASCII byte occurs in the encoding exactly when its character occurs
      in the string: every byte of a longer encoding is 0x80 or above. */
  lemma {:induction false} AsciiByteIn(s: string, c: char)
    requires IsAscii(c)
    ensures (c as int as byte in Encode(s)) <==> c in s
    decreases |s|
  {
    if |s| > 0 {
      AsciiByteIn(s[1..], c);
      assert s == [s[0]] + s[1..];
    }
  }

  /** Strings of equal length whose runes encode each to no more bytes than
      the other's encode to no more bytes. */
  lemma {:induction false} EncodeNoLonger(a: string, b: string)
    requires |a| == |b|
    requires forall k :: 0 <= k < |a| ==> |Utf8(a[k])| <= |Utf8(b[k])|
    ensures |Encode(a)| <= |Encode(b)|
    decreases |a|
  {
    if |a| > 0 {
      assert |Utf8(a[0])| <= |Utf8(b[0])|;
      EncodeNoLonger(a[1..], b[1..]);
    }
  }

  /** The masked line is never longer in bytes than the line: each quoted
      rune becomes the one-byte filler. */
  lemma MaskNoLonger(line: string)
    ensures |Encode(Mask(line, [Filler]))| <= |Encode(line)|
  {
    var m := Mask(line, [Filler]);
    MaskAt(line, [Filler]);
    forall k | 0 <= k < |m| ensures |Utf8(m[k])| <= |Utf8(line[k])| {
    }
    EncodeNoLonger(m, line);
  }

  /** `strings.Index` for a one-byte separator: the first offset of `b`. */
  function ByteIndex(bs: seq<byte>, b: byte): (r: Option<nat>)
    ensures r.None? <==> b !in bs
    ensures r.Some? ==> r.value < |bs| && bs[r.value] == b && b !in bs[..r.value]
  {
    if |bs| == 0 then None
    else if bs[0] == b then Some(0)
    else
      var r := ByteIndex(bs[1..], b);
      assert bs == [bs[0]] + bs[1..];
      if r.Some? then
        assert bs[..r.value + 1] == [bs[0]] + bs[1..][..r.value];
        Some(r.value + 1)
      else None
  }

  /** The bytes before and after the separator a cut removes. */
  datatype ByteCut = ByteCut(before: seq<byte>, after: seq<byte>)

  /** The cut `parseComment` (for `;`) and the colon branch of `parseLabel`
      (for `:`) make, as written: the byte offset of the separator in the
      masked line cuts the line itself. The separator is found exactly when
      it occurs outside quotes, and the offset always lies inside the line,
      but the byte it drops need not be the separator. */
  function CutAsWritten(line: string, sep: char): (r: Option<ByteCut>)
    requires IsAscii(sep) && sep != Filler
    ensures r.None? <==> NoUnquoted(line, sep)
    ensures r.Some? ==> |r.value.before| < |Encode(line)|
                        && r.value.before + [Encode(line)[|r.value.before|]] + r.value.after == Encode(line)
  {
    var m := Mask(line, [Filler]);
    var bs := Encode(line);
    AsciiByteIn(m, sep);
    MaskNoLonger(line);
    FindUnquotedIn(line, sep);
    match ByteIndex(Encode(m), sep as int as byte)
    case None => None
    case Some(i) =>
      SplitBytes(bs, i);
      Some(ByteCut(bs[..i], bs[i + 1..]))
  }

  lemma FindUnquotedIn(line: string, sep: char)
    requires sep != Filler
    ensures NoUnquoted(line, sep) <==> sep !in Mask(line, [Filler])
  {
    MaskAt(line, [Filler]);
    var m := Mask(line, [Filler]);
    assert forall i :: 0 <= i < |line| ==> (m[i] == sep <==> UnquotedAt(line, sep, i));
  }

  lemma SplitBytes(bs: seq<byte>, i: nat)
    requires i < |bs|
    ensures bs[..i] + [bs[i]] + bs[i + 1..] == bs
  {
  }

  /** The corrected cut: the rune position of the first unquoted separator,
      converted to the byte offset of that rune in the line. The byte it
      drops is the separator. */
  function CutAtRune(line: string, sep: char): (r: Option<ByteCut>)
    requires IsAscii(sep) && sep != Filler
    ensures r.None? <==> NoUnquoted(line, sep)
    ensures r.Some? ==> r.value.before + [sep as int as byte] + r.value.after == Encode(line)
  {
    match FindUnquoted(line, sep)
    case None => None
    case Some(i) =>
      var off := |Encode(line[..i])|;
      var bs := Encode(line);
      EncodeAround(line, i);
      RuneBytes(Encode(line[..i]), Utf8(sep), Encode(line[i + 1..]), bs);
      Some(ByteCut(bs[..off], bs[off + 1..]))
  }

  lemma RuneBytes(a: seq<byte>, u: seq<byte>, c: seq<byte>, bs: seq<byte>)
    requires |u| == 1 && bs == a + u + c
    ensures bs[..|a|] == a && bs[|a| + 1..] == c && bs[..|a|] + u + bs[|a| + 1..] == bs
  {
  }

  /** The corrected cut yields the encodings of the runes before and after
      the separator that the rune-level model finds. */
  lemma CutAtRuneRunes(line: string, sep: char, i: nat)
    requires IsAscii(sep) && sep != Filler
    requires FirstUnquoted(line, sep, i)
    ensures CutAtRune(line, sep) == Some(ByteCut(Encode(line[..i]), Encode(line[i + 1..])))
  {
    FirstUnquotedUnique(line, sep, i);
    EncodeAround(line, i);
    RuneBytes(Encode(line[..i]), Utf8(sep), Encode(line[i + 1..]), Encode(line));
  }

  predicate AllAscii(s: string) {
    forall k :: 0 <= k < |s| ==> IsAscii(s[k])
  }

  /** An ASCII string encodes to one byte per character. */
  lemma {:induction false} EncodeAscii(s: string)
    requires AllAscii(s)
    ensures |Encode(s)| == |s|
    ensures forall k :: 0 <= k < |s| ==> Encode(s)[k] == s[k] as int as byte
    decreases |s|
  {
    if |s| > 0 {
      EncodeAscii(s[1..]);
      assert Encode(s) == [s[0] as int as byte] + Encode(s[1..]);
    }
  }

  /** On a line of ASCII characters alone, byte offsets are rune offsets and
      the cut as written is the corrected one. */
  lemma AsWrittenOnAscii(line: string, sep: char)
    requires IsAscii(sep) && sep != Filler && AllAscii(line)
    ensures CutAsWritten(line, sep) == CutAtRune(line, sep)
  {
    var m := Mask(line, [Filler]);
    MaskAt(line, [Filler]);
    assert AllAscii(m);
    EncodeAscii(m);
    match ByteIndex(Encode(m), sep as int as byte)
    case None =>
    case Some(j) =>
      assert m[j] == sep;
      assert UnquotedAt(line, sep, j);
      forall q | 0 <= q < j ensures !UnquotedAt(line, sep, q) {
        assert Encode(m)[..j][q] == Encode(m)[q];
      }
      assert FirstUnquoted(line, sep, j);
      CutAtRuneRunes(line, sep, j);
      AsciiCut(line, j);
  }

  /** An ASCII line cut at rune `j` is the same as cut at byte `j`. */
  lemma AsciiCut(line: string, j: nat)
    requires AllAscii(line) && j < |line|
    ensures Encode(line[..j]) == Encode(line)[..j]
    ensures Encode(line[j + 1..]) == Encode(line)[j + 1..]
  {
    EncodeAround(line, j);
    assert AllAscii(line[..j]);
    EncodeAscii(line[..j]);
    assert |Utf8(line[j])| == 1;
  }

  /** The corrected cut at `;` is the cut of the rune-level
      `ParseComment`: the bytes before it encode the code it keeps. */
  lemma CommentCutMatches(line: string)
    ensures CutAtRune(line, ';').None? ==> ParseComment(line) == Cut("", line)
    ensures CutAtRune(line, ';').Some? ==>
              CutAtRune(line, ';').value.before == Encode(ParseComment(line).rest)
  {
    if !NoUnquoted(line, ';') {
      var i := FirstAt(line, ';');
      CutAtRuneRunes(line, ';', i);
    }
  }

  /** The corrected cut at `:` is the colon cut of the rune-level
      `ParseLabel`: when no brackets follow, the bytes after it encode the
      rest it keeps. */
  lemma LabelCutMatches(line: string, i: nat)
    requires FirstUnquoted(line, ':', i) && !HasBrackets(line[i + 1..])
    ensures CutAtRune(line, ':') == Some(ByteCut(Encode(line[..i]), Encode(ParseLabel(line).rest)))
  {
    CutAtRuneRunes(line, ':', i);
    ParseLabelColon(line, i);
  }

  // ---------------------------------------------------------------------
  // A line on which the two cuts differ

  /** `"é";a` (and the same line with any other ASCII separator): the cut as
      written ends after `"é`, losing the closing quote, and what follows it
      starts with the separator; the corrected cut ends after `"é"` and
      drops exactly the separator. */
  lemma AsWrittenMisCut(line: string, sep: char)
    requires IsAscii(sep) && sep != Filler && !IsQuote(sep)
    requires line == ['"', '\U{E9}', '"', sep, 'a']
    ensures CutAsWritten(line, sep) == Some(ByteCut(Encode(line[..2]), Encode(line[3..])))
    ensures CutAtRune(line, sep) == Some(ByteCut(Encode(line[..3]), Encode(line[4..])))
    ensures Encode(line[..2]) != Encode(line[..3])
  {
    MisCutMask(line, sep);
    MaskedIndex(Mask(line, [Filler]), sep);
    CutAsWrittenAt(line, sep, 3);
    MisCutBytes(line);
    MisCutSeparator(line, sep);
    CutAtRuneRunes(line, sep, 3);
  }

  /** The cut as written, once the offset in the masked copy is known. */
  lemma CutAsWrittenAt(line: string, sep: char, i: nat)
    requires IsAscii(sep) && sep != Filler
    requires ByteIndex(Encode(Mask(line, [Filler])), sep as int as byte) == Some(i)
    ensures i < |Encode(line)|
    ensures CutAsWritten(line, sep) == Some(ByteCut(Encode(line)[..i], Encode(line)[i + 1..]))
  {
    MaskNoLonger(line);
    var r := CutAsWritten(line, sep);
    assert r == Some(ByteCut(Encode(line)[..i], Encode(line)[i + 1..]));
  }

  lemma MisCutSeparator(line: string, sep: char)
    requires IsAscii(sep) && !IsQuote(sep)
    requires line == ['"', '\U{E9}', '"', sep, 'a']
    requires StateAt(line, 3) == Outside && StateAt(line, 4) == Outside
    ensures FirstUnquoted(line, sep, 3)
  {
    assert !InQuotes(line, 3);
    assert forall j :: 0 <= j < 3 ==> line[j] != sep;
  }

  lemma MisCutMask(line: string, sep: char)
    requires IsAscii(sep) && sep != Filler && !IsQuote(sep)
    requires line == ['"', '\U{E9}', '"', sep, 'a']
    ensures Mask(line, [Filler]) == [Filler, Filler, Filler, sep, 'a']
    ensures StateAt(line, 3) == Outside && StateAt(line, 4) == Outside
  {
    PairedQuoteRun(line, [Filler], 0, 0, 2);
    QuoteFreeRun(line, [Filler], 3, 4);
    QuoteFreeRun(line, [Filler], 3, 5);
    MaskRead(line, [Filler]);
    assert MaskFrom(line, [Filler], 5) == [];
    RepeatSingle(Filler, 3);
    assert Repeat([Filler], 3) == [Filler, Filler, Filler];
    assert line[0..0] == [] && line[3..5] == [sep, 'a'];
  }

  /** In the masked copy the separator is the fourth byte. */
  lemma MaskedIndex(m: string, sep: char)
    requires IsAscii(sep) && sep != Filler
    requires m == [Filler, Filler, Filler, sep, 'a']
    ensures ByteIndex(Encode(m), sep as int as byte) == Some(3)
  {
    assert AllAscii(m);
    EncodeAscii(m);
    var bs := Encode(m);
    assert bs[3] == sep as int as byte;
  }

  /** The separator at rune 3 is at byte 4: `é` takes two bytes. */
  lemma MisCutBytes(line: string)
    requires |line| == 5 && line[1] == '\U{E9}' && IsAscii(line[0]) && IsAscii(line[2])
    ensures var bs := Encode(line);
            && bs[..3] == Encode(line[..2]) && bs[4..] == Encode(line[3..])
            && Encode(line[..2]) != Encode(line[..3])
  {
    TwoRunes(line[..2]);
    EncodeAround(line, 2);
    assert |Utf8(line[2])| == 1;
    RuneBytes(Encode(line[..2]), Utf8(line[2]), Encode(line[3..]), Encode(line));
    PrefixLonger(line, 2);
  }

  /** An ASCII rune and `é` take three bytes. */
  lemma TwoRunes(t: string)
    requires |t| == 2 && IsAscii(t[0]) && t[1] == '\U{E9}'
    ensures |Encode(t)| == 3
  {
    EncodeAround(t, 1);
    assert t[..1] == [t[0]] && t[2..] == [];
    assert |Utf8('\U{E9}')| == 2;
    EncodeAscii(t[..1]);
  }

  /** One more rune makes the encoding longer. */
  lemma PrefixLonger(s: string, i: nat)
    requires i < |s|
    ensures |Encode(s[..i])| < |Encode(s[..i + 1])|
  {
    var t := s[..i + 1];
    EncodeAround(t, i);
    assert t[..i] == s[..i];
  }
}
