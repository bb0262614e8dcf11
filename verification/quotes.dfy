/** The quote mask (`noquotes`) and the character-by-character scanner
    that defines which positions of a line lie inside a quoted span. */
module Quotes {
  import opened Options
  import opened Text

  /** The quotation marks `noquotes` searches for, in the order it lists them. */
  const QuoteMarks: string := "\"'"

  predicate IsQuote(c: char) {
    c == '"' || c == '\''
  }

  predicate QuoteFree(s: string) {
    forall i :: 0 <= i < |s| ==> !IsQuote(s[i])
  }

  // ---------------------------------------------------------------------
  // Reference: a scanner that reads one character at a time.

  /** Where the scanner is: outside any quoted span, or inside a span that
      the quote `quote` opened. */
  datatype ScanState = Outside | Inside(quote: char)

  /** The scanner's move over character `c`, with `later` the rest of the
      line after it: outside, a quote opens a span only when the same
      quote occurs again later; inside, the opening quote closes the span. */
  function Next(st: ScanState, c: char, later: string): ScanState {
    match st
    case Outside => if IsQuote(c) && c in later then Inside(c) else Outside
    case Inside(q) => if c == q then Outside else st
  }

  /** The scanner's state just before position `i` of `s`. */
  function StateAt(s: string, i: nat): ScanState
    requires i <= |s|
  {
    if i == 0 then Outside else Next(StateAt(s, i - 1), s[i - 1], s[i..])
  }

  /** Position `i` is part of a quoted span: an opening quote, a character
      between the quotes, or the closing quote. */
  predicate InQuotes(s: string, i: nat)
    requires i < |s|
  {
    StateAt(s, i).Inside? || StateAt(s, i + 1).Inside?
  }

  /** The masked text of `s` from position `k` on, by the scanner:
      each quoted position becomes `rep`, every other character stays. */
  function MaskFrom(s: string, rep: string, k: nat): string
    requires k <= |s|
    decreases |s| - k
  {
    if k == |s| then []
    else (if InQuotes(s, k) then rep else [s[k]]) + MaskFrom(s, rep, k + 1)
  }

  lemma {:induction false} QuoteFreeRun(s: string, rep: string, k: nat, j: nat)
    requires k <= j <= |s|
    requires StateAt(s, k) == Outside
    requires forall p :: k <= p < j ==> !IsQuote(s[p])
    ensures StateAt(s, j) == Outside
    ensures MaskFrom(s, rep, k) == s[k..j] + MaskFrom(s, rep, j)
    decreases j - k
  {
    if k < j {
      PlainStep(s, rep, k);
      var k1 := k + 1;
      QuoteFreeRun(s, rep, k1, j);
      assert s[k..j] == [s[k]] + s[k1..j];
      Regroup([s[k]], s[k1..j], MaskFrom(s, rep, j));
    }
  }

  lemma {:induction false} InsideRun(s: string, rep: string, a: nat, b: nat, q: char)
    requires a <= b < |s|
    requires StateAt(s, a) == Inside(q)
    requires forall p :: a <= p < b ==> s[p] != q
    requires s[b] == q
    ensures StateAt(s, b + 1) == Outside
    ensures MaskFrom(s, rep, a) == Repeat(rep, b - a + 1) + MaskFrom(s, rep, b + 1)
    decreases b - a
  {
    if a == b {
      assert StateAt(s, a + 1) == Outside;
    } else {
      assert StateAt(s, a + 1) == Inside(q);
      InsideRun(s, rep, a + 1, b, q);
    }
  }

  lemma {:induction false} InsideAll(s: string, a: nat, b: nat, q: char)
    requires a <= b < |s|
    requires StateAt(s, a) == Inside(q)
    requires forall p :: a <= p < b ==> s[p] != q
    ensures forall p :: a <= p <= b ==> InQuotes(s, p)
    decreases b - a
  {
    if a < b {
      assert StateAt(s, a + 1) == Inside(q);
      InsideAll(s, a + 1, b, q);
    }
  }

  /** A character other than a quote, met outside a span, is kept. */
  lemma PlainStep(s: string, rep: string, i: nat)
    requires i < |s|
    requires StateAt(s, i) == Outside && !IsQuote(s[i])
    ensures StateAt(s, i + 1) == Outside
    ensures MaskFrom(s, rep, i) == [s[i]] + MaskFrom(s, rep, i + 1)
  {
    assert StateAt(s, i + 1) == Next(Outside, s[i], s[i + 1..]);
  }

  /** A quote met outside a span, with no partner later on, is kept. */
  lemma UnpairedStep(s: string, rep: string, i: nat)
    requires i < |s|
    requires StateAt(s, i) == Outside
    requires s[i] !in s[i + 1..]
    ensures StateAt(s, i + 1) == Outside
    ensures MaskFrom(s, rep, i) == [s[i]] + MaskFrom(s, rep, i + 1)
  {
  }

  /** A quote met outside a span, with a partner later on, opens a span. */
  lemma OpeningStep(s: string, rep: string, i: nat)
    requires i < |s|
    requires StateAt(s, i) == Outside
    requires IsQuote(s[i]) && s[i] in s[i + 1..]
    ensures StateAt(s, i + 1) == Inside(s[i])
    ensures MaskFrom(s, rep, i) == rep + MaskFrom(s, rep, i + 1)
  {
  }

  /** A quote at `a`, met outside a span and closed by the next quote of
      its kind at `b`, is masked from `a` to `b` inclusive. */
  lemma SpanRun(s: string, rep: string, a: nat, b: nat)
    requires a < b < |s|
    requires StateAt(s, a) == Outside
    requires IsQuote(s[a]) && s[b] == s[a]
    requires forall p :: a < p < b ==> s[p] != s[a]
    ensures StateAt(s, b + 1) == Outside
    ensures MaskFrom(s, rep, a) == Repeat(rep, b - a + 1) + MaskFrom(s, rep, b + 1)
  {
    assert s[a] in s[a + 1..] by {
      assert s[a + 1..][b - a - 1] == s[b];
    }
    OpeningStep(s, rep, a);
    InsideRun(s, rep, a + 1, b, s[a]);
    assert Repeat(rep, b - (a + 1) + 1) == Repeat(rep, b - a);
    assert Repeat(rep, b - a + 1) == rep + Repeat(rep, b - a);
    Regroup(rep, Repeat(rep, b - a), MaskFrom(s, rep, b + 1));
  }

  /** The first quote from `k` on is at `a` and has no partner: the
      scanner keeps it and is still outside a span after it. */
  lemma UnpairedQuoteRun(s: string, rep: string, k: nat, a: nat)
    requires k <= a < |s|
    requires StateAt(s, k) == Outside
    requires forall p :: k <= p < a ==> !IsQuote(s[p])
    requires s[a] !in s[a + 1..]
    ensures StateAt(s, a + 1) == Outside
    ensures MaskFrom(s, rep, k) == s[k..a + 1] + MaskFrom(s, rep, a + 1)
  {
    QuoteFreeRun(s, rep, k, a);
    UnpairedStep(s, rep, a);
    assert s[k..a + 1] == s[k..a] + [s[a]];
    Regroup(s[k..a], [s[a]], MaskFrom(s, rep, a + 1));
  }

  /** The first quote from `k` on is at `a` and is closed by the same
      quote at `b`: the scanner masks the whole span and is outside again
      after it. */
  lemma PairedQuoteRun(s: string, rep: string, k: nat, a: nat, b: nat)
    requires k <= a < b < |s|
    requires StateAt(s, k) == Outside
    requires forall p :: k <= p < a ==> !IsQuote(s[p])
    requires IsQuote(s[a]) && s[b] == s[a]
    requires forall p :: a < p < b ==> s[p] != s[a]
    ensures StateAt(s, b + 1) == Outside
    ensures MaskFrom(s, rep, k) == s[k..a] + Repeat(rep, b - a + 1) + MaskFrom(s, rep, b + 1)
  {
    QuoteFreeRun(s, rep, k, a);
    SpanRun(s, rep, a, b);
    Regroup(s[k..a], Repeat(rep, b - a + 1), MaskFrom(s, rep, b + 1));
  }

  // ---------------------------------------------------------------------
  // The loop of `noquotes`

  /** The loop invariant of `noquotes`: `sr` is what is left of `s` from
      `pos` on, the scanner is outside every span there, and `r` is the mask
      of what was consumed. */
  predicate Consumed(s: string, rep: string, pos: nat, sr: string, r: string) {
    && pos <= |s| && sr == s[pos..]
    && StateAt(s, pos) == Outside
    && r + MaskFrom(s, rep, pos) == MaskFrom(s, rep, 0)
  }

  /** `noquotes(s, rep)`: the loop of the source, one round per call of
      `NoquotesRound`. */
  method Noquotes(s: string, rep: string) returns (r: string)
    ensures r == Mask(s, rep)
  {
    var sr := s;
    r := [];
    ghost var pos: nat := 0;
    while |sr| > 0
      invariant Consumed(s, rep, pos, sr, r)
      decreases |sr|
    {
      sr, r, pos := NoquotesRound(s, rep, sr, r, pos);
    }
    assert MaskFrom(s, rep, pos) == [];
  }

  /** One round of the loop of `noquotes`. It finds the first quote of
      either kind in what is left; a quote with a later partner of its own
      kind starts a span that is replaced, both delimiters included, by one
      copy of `rep` per character; a quote without a partner is copied and
      the scan resumes right after it; with no quote left, the rest is
      copied. */
  method NoquotesRound(s: string, rep: string, sr: string, r: string, ghost pos: nat)
    returns (sr': string, r': string, ghost pos': nat)
    requires |sr| > 0 && Consumed(s, rep, pos, sr, r)
    ensures Consumed(s, rep, pos', sr', r') && |sr'| < |sr|
  {
    var first := IndexOfAny(sr, QuoteMarks);
    if first.Some? {
      var ind := first.value;
      var quote := sr[ind];
      var pair := IndexOf(sr[ind + 1..], quote);
      if pair.None? {
        r' := r + sr[..ind + 1];
        sr' := sr[ind + 1..];
        pos' := pos + ind + 1;
        UnpairedBranch(s, rep, pos, sr, r, ind, pos', sr', r');
      } else {
        var ind2 := ind + 1 + pair.value;
        r' := r + sr[..ind] + Repeat(rep, ind2 - ind + 1);
        sr' := sr[ind2 + 1..];
        pos' := pos + ind2 + 1;
        PairedBranch(s, rep, pos, sr, r, ind, ind2, pos', sr', r');
      }
    } else {
      r' := r + sr;
      sr' := [];
      pos' := |s|;
      QuoteFreeRest(s, rep, pos, sr, r, pos', sr', r');
    }
  }

  /** A round that finds no quote copies the rest and ends the loop. */
  lemma QuoteFreeRest(s: string, rep: string, pos: nat, sr: string, r: string,
                      pos': nat, sr': string, r': string)
    requires Consumed(s, rep, pos, sr, r)
    requires IndexOfAny(sr, QuoteMarks).None?
    requires pos' == |s| && sr' == [] && r' == r + sr
    ensures Consumed(s, rep, pos', sr', r')
  {
    forall p | pos <= p < |s| ensures !IsQuote(s[p]) {
      assert sr[p - pos] == s[p];
    }
    QuoteFreeRun(s, rep, pos, |s|);
    assert MaskFrom(s, rep, |s|) == [];
    assert s[pos..|s|] + [] == sr;
  }

  /** A round that meets a quote without a partner keeps the invariant. */
  lemma UnpairedBranch(s: string, rep: string, pos: nat, sr: string, r: string, ind: nat,
                       pos': nat, sr': string, r': string)
    requires Consumed(s, rep, pos, sr, r)
    requires IndexOfAny(sr, QuoteMarks) == Some(ind)
    requires ind < |sr| && IndexOf(sr[ind + 1..], sr[ind]).None?
    requires pos' == pos + ind + 1 && sr' == sr[ind + 1..] && r' == r + sr[..ind + 1]
    ensures Consumed(s, rep, pos', sr', r')
  {
    var a := pos + ind;
    FirstQuoteAt(s, pos, sr, ind, a);
    RoundShape(s, pos, sr, ind, ind, a, a);
    UnpairedRound(s, rep, pos, r, a, pos', sr', r');
  }

  /** A round that meets a quote closed by its partner at `ind2` keeps the
      invariant. */
  lemma PairedBranch(s: string, rep: string, pos: nat, sr: string, r: string, ind: nat, ind2: nat,
                     pos': nat, sr': string, r': string)
    requires Consumed(s, rep, pos, sr, r)
    requires IndexOfAny(sr, QuoteMarks) == Some(ind)
    requires ind < ind2 < |sr| && IndexOf(sr[ind + 1..], sr[ind]) == Some(ind2 - ind - 1)
    requires pos' == pos + ind2 + 1 && sr' == sr[ind2 + 1..]
    requires r' == r + sr[..ind] + Repeat(rep, ind2 - ind + 1)
    ensures Consumed(s, rep, pos', sr', r')
  {
    var a, b := pos + ind, pos + ind2;
    FirstQuoteAt(s, pos, sr, ind, a);
    RoundShape(s, pos, sr, ind, ind2, a, b);
    PartnerAt(s, pos, sr, ind, ind2, a, b);
    PairedPieces(s, rep, pos, sr, r, ind, ind2, a, b);
    PairedRound(s, rep, pos, r, a, b, pos', sr', r');
  }

  /** The quote the search finds, at `a` of `s`, and the quote-free text
      before it. */
  lemma FirstQuoteAt(s: string, pos: nat, sr: string, ind: nat, a: nat)
    requires pos <= |s| && sr == s[pos..] && a == pos + ind
    requires IndexOfAny(sr, QuoteMarks) == Some(ind)
    ensures a < |s| && IsQuote(s[a])
    ensures forall p :: pos <= p < a ==> !IsQuote(s[p])
  {
    assert sr[ind] == s[a];
    forall p | pos <= p < a ensures !IsQuote(s[p]) {
      assert sr[p - pos] == s[p];
    }
  }

  /** The partner the search finds, at `b` of `s`, and the text between the
      two quotes, free of the opening one. */
  lemma PartnerAt(s: string, pos: nat, sr: string, ind: nat, ind2: nat, a: nat, b: nat)
    requires pos <= |s| && sr == s[pos..] && a == pos + ind && b == pos + ind2
    requires ind < ind2 < |sr|
    requires IndexOf(sr[ind + 1..], sr[ind]) == Some(ind2 - ind - 1)
    ensures s[b] == s[a]
    ensures forall p :: a < p < b ==> s[p] != s[a]
  {
    var t := sr[ind + 1..];
    assert t == s[a + 1..];
    assert t[ind2 - ind - 1] == s[b];
    forall p | a < p < b ensures s[p] != s[a] {
      assert t[p - a - 1] == s[p];
    }
  }

  /** The pieces a round cuts from `sr`, read back in `s`: `a` and `b` are
      the positions of `sr` at `ind` and `ind2` in `s`. */
  lemma RoundShape(s: string, pos: nat, sr: string, ind: nat, ind2: nat, a: nat, b: nat)
    requires pos <= |s| && sr == s[pos..] && a == pos + ind && b == pos + ind2
    requires ind <= ind2 < |sr|
    ensures sr[ind] == s[a]
    ensures sr[..ind] == s[pos..a] && sr[..ind + 1] == s[pos..a + 1]
    ensures sr[ind + 1..] == s[a + 1..] && sr[ind2 + 1..] == s[b + 1..]
  {
  }

  /** What a paired round appends to `r`, read back in `s`. */
  lemma PairedPieces(s: string, rep: string, pos: nat, sr: string, r: string, ind: nat, ind2: nat,
                     a: nat, b: nat)
    requires pos <= |s| && sr == s[pos..] && a == pos + ind && b == pos + ind2
    requires ind <= ind2 < |sr|
    ensures r + sr[..ind] + Repeat(rep, ind2 - ind + 1) == r + s[pos..a] + Repeat(rep, b - a + 1)
  {
    assert sr[..ind] == s[pos..a];
    assert ind2 - ind + 1 == b - a + 1;
  }

  /** A round that copies the unpaired quote at `a` and what precedes it
      keeps the invariant. */
  lemma UnpairedRound(s: string, rep: string, pos: nat, r: string, a: nat,
                      pos': nat, sr': string, r': string)
    requires pos <= a < |s|
    requires StateAt(s, pos) == Outside && r + MaskFrom(s, rep, pos) == MaskFrom(s, rep, 0)
    requires forall p :: pos <= p < a ==> !IsQuote(s[p])
    requires s[a] !in s[a + 1..]
    requires pos' == a + 1 && sr' == s[a + 1..] && r' == r + s[pos..a + 1]
    ensures Consumed(s, rep, pos', sr', r')
  {
    UnpairedQuoteRun(s, rep, pos, a);
    Regroup(r, s[pos..a + 1], MaskFrom(s, rep, a + 1));
  }

  /** A round that masks the span from `a` to `b` and copies what precedes
      it keeps the invariant. */
  lemma PairedRound(s: string, rep: string, pos: nat, r: string, a: nat, b: nat,
                    pos': nat, sr': string, r': string)
    requires pos <= a < b < |s|
    requires StateAt(s, pos) == Outside && r + MaskFrom(s, rep, pos) == MaskFrom(s, rep, 0)
    requires forall p :: pos <= p < a ==> !IsQuote(s[p])
    requires IsQuote(s[a]) && s[b] == s[a]
    requires forall p :: a < p < b ==> s[p] != s[a]
    requires pos' == b + 1 && sr' == s[b + 1..] && r' == r + s[pos..a] + Repeat(rep, b - a + 1)
    ensures Consumed(s, rep, pos', sr', r')
  {
    PairedQuoteRun(s, rep, pos, a, b);
    Regroup4(r, s[pos..a], Repeat(rep, b - a + 1), MaskFrom(s, rep, b + 1));
  }

  lemma {:induction false} MaskFromSingle(s: string, c: char, k: nat)
    requires k <= |s|
    ensures |MaskFrom(s, [c], k)| == |s| - k
    ensures forall i :: k <= i < |s| ==>
              MaskFrom(s, [c], k)[i - k] == if InQuotes(s, i) then c else s[i]
    decreases |s| - k
  {
    if k < |s| {
      var k1 := k + 1;
      MaskFromSingle(s, c, k1);
      var h := if InQuotes(s, k) then [c] else [s[k]];
      var m := MaskFrom(s, [c], k1);
      assert MaskFrom(s, [c], k) == h + m;
      forall i | k1 <= i < |s|
        ensures (h + m)[i - k] == if InQuotes(s, i) then c else s[i]
      {
        assert (h + m)[i - k] == m[i - k1];
      }
    }
  }

  /** The quote mask of `s`: each span the scanner places inside quotes
      becomes copies of `rep`. With a one-character filler every index is
      kept, so an index found in the mask is an index into `s`. A string
      without quotes is its own mask. */
  function Mask(s: string, rep: string): (r: string)
    ensures |rep| == 1 ==> |r| == |s|
    ensures QuoteFree(s) ==> r == s
  {
    MaskFacts(s, rep);
    MaskFrom(s, rep, 0)
  }

  /** The mask is what the scanner writes from the start on. */
  lemma MaskRead(s: string, rep: string)
    ensures Mask(s, rep) == MaskFrom(s, rep, 0)
  {
  }

  /** With a one-character filler, every position outside the spans keeps
      its character and every position inside one holds the filler. */
  lemma MaskAt(s: string, rep: string)
    requires |rep| == 1
    ensures forall i :: 0 <= i < |s| ==>
              Mask(s, rep)[i] == if InQuotes(s, i) then rep[0] else s[i]
  {
    MaskFacts(s, rep);
  }

  lemma MaskFacts(s: string, rep: string)
    ensures |rep| == 1 ==> |MaskFrom(s, rep, 0)| == |s|
    ensures |rep| == 1 ==> forall i :: 0 <= i < |s| ==>
              MaskFrom(s, rep, 0)[i] == if InQuotes(s, i) then rep[0] else s[i]
    ensures QuoteFree(s) ==> MaskFrom(s, rep, 0) == s
  {
    if |rep| == 1 {
      assert rep == [rep[0]];
      MaskFromSingle(s, rep[0], 0);
    }
    if QuoteFree(s) {
      QuoteFreeRun(s, rep, 0, |s|);
    }
  }

  /** A span that opens outside any other span and runs to the next quote
      of its own kind is masked as a whole, both delimiters included. */
  lemma PairedSpanMasked(s: string, a: nat, b: nat)
    requires a < b < |s|
    requires IsQuote(s[a]) && s[b] == s[a]
    requires StateAt(s, a) == Outside
    requires forall p :: a < p < b ==> s[p] != s[a]
    ensures forall p :: a <= p <= b ==> InQuotes(s, p)
    ensures StateAt(s, b + 1) == Outside
  {
    assert s[a] in s[a + 1..] by {
      assert s[a + 1..][b - a - 1] == s[b];
    }
    assert StateAt(s, a + 1) == Inside(s[a]);
    InsideRun(s, [], a + 1, b, s[a]);
    InsideAll(s, a + 1, b, s[a]);
  }

  /** The filler the formatter masks with before it looks for `:` and `;`. */
  const Filler: char := 'x'

  /** `c` occurs at position `i` of `s` outside every quoted span. */
  predicate UnquotedAt(s: string, c: char, i: nat) {
    i < |s| && s[i] == c && !InQuotes(s, i)
  }

  /** `i` is the first position where `c` occurs outside quotes. */
  predicate FirstUnquoted(s: string, c: char, i: nat) {
    UnquotedAt(s, c, i) && forall j :: 0 <= j < i ==> !UnquotedAt(s, c, j)
  }

  predicate NoUnquoted(s: string, c: char) {
    forall i :: 0 <= i < |s| ==> !UnquotedAt(s, c, i)
  }

  /** `strings.Index(noquotes(s, "x"), sep)` for a one-character separator
      other than the filler: the first position where `sep` occurs outside
      every quoted span. */
  function FindUnquoted(s: string, sep: char): (r: Option<nat>)
    requires sep != Filler
    ensures r.None? <==> NoUnquoted(s, sep)
    ensures r.Some? ==> FirstUnquoted(s, sep, r.value)
  {
    var m := Mask(s, [Filler]);
    MaskAt(s, [Filler]);
    assert forall i :: 0 <= i < |s| ==> (m[i] == sep <==> UnquotedAt(s, sep, i));
    IndexOf(m, sep)
  }

  /** At most one position is the first unquoted occurrence. */
  lemma FirstUnquotedUnique(s: string, c: char, i: nat)
    requires FirstUnquoted(s, c, i)
    ensures forall j: nat :: FirstUnquoted(s, c, j) ==> j == i
  {
  }

  /** A character that occurs outside quotes has a first such occurrence. */
  lemma FirstAt(s: string, c: char) returns (i: nat)
    requires c != Filler && !NoUnquoted(s, c)
    ensures FirstUnquoted(s, c, i)
  {
    i := FindUnquoted(s, c).value;
  }

  /** A string without quotes has no quoted position. */
  lemma QuoteFreeOutside(s: string)
    requires QuoteFree(s)
    ensures forall i :: 0 <= i < |s| ==> !InQuotes(s, i)
  {
    forall i | 0 <= i < |s| ensures !InQuotes(s, i) {
      QuoteFreeRun(s, [], 0, i);
      QuoteFreeRun(s, [], 0, i + 1);
    }
  }
}
