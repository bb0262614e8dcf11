/** The data-declaration keywords that mark a label without a colon, and
    the scanner that stands in for their regular expressions
    `(?:\s|^)kw(?:\s|")`. */
module Keywords {
  import opened Options
  import opened Text

  /** The keywords, in the order they are tried. */
  const DataKeywords: seq<string> := ["db", "dw", "dd", "dq", "ddq", "do", "dt"]

  /** `kw` starts at position `j` of `t` and is followed by `\s` or `"`. */
  predicate KeywordAt(t: string, kw: string, j: nat) {
    && j + |kw| < |t|
    && t[j..j + |kw|] == kw
    && (IsRegexSpace(t[j + |kw|]) || t[j + |kw|] == '"')
  }

  /** A match of `(?:\s|^)kw(?:\s|")` starts at position `p` of `t`: either
      a `\s` at `p` followed by the keyword, or the keyword at the very
      start. */
  predicate MatchAt(t: string, kw: string, p: nat) {
    || (p == 0 && KeywordAt(t, kw, 0))
    || (p < |t| && IsRegexSpace(t[p]) && KeywordAt(t, kw, p + 1))
  }

  predicate NoMatch(t: string, kw: string) {
    forall p :: 0 <= p < |t| ==> !MatchAt(t, kw, p)
  }

  /** `p` is where the leftmost match of `kw` in `t` starts. */
  predicate LeftmostMatch(t: string, kw: string, p: nat) {
    p < |t| && MatchAt(t, kw, p) && forall q :: 0 <= q < p ==> !MatchAt(t, kw, q)
  }

  /** `FindStringIndex` of one keyword's expression, from position `from`
      on: the start of the leftmost match. */
  function FindKeyword(t: string, kw: string, from: nat): (r: Option<nat>)
    requires from <= |t|
    ensures r.None? <==> forall q :: from <= q < |t| ==> !MatchAt(t, kw, q)
    ensures r.Some? ==> from <= r.value < |t| && MatchAt(t, kw, r.value)
                        && forall q :: from <= q < r.value ==> !MatchAt(t, kw, q)
    decreases |t| - from
  {
    if from == |t| then None
    else if MatchAt(t, kw, from) then Some(from)
    else FindKeyword(t, kw, from + 1)
  }

  /** A keyword hit: the index of the keyword in the list and where its
      match starts. */
  datatype Hit = Hit(index: nat, at: nat)

  /** The loop over `dataPseudos`: the first keyword, in list order, whose
      expression matches anywhere, with the start of its leftmost match.
      A keyword later in the list never wins, even if it occurs further
      left. */
  function FirstKeyword(t: string, kws: seq<string>, k: nat): (r: Option<Hit>)
    requires k <= |kws|
    ensures r.None? <==> forall i :: k <= i < |kws| ==> NoMatch(t, kws[i])
    ensures r.Some? ==> && k <= r.value.index < |kws|
                        && LeftmostMatch(t, kws[r.value.index], r.value.at)
                        && forall i :: k <= i < r.value.index ==> NoMatch(t, kws[i])
    decreases |kws| - k
  {
    if k == |kws| then None
    else match FindKeyword(t, kws[k], 0)
      case Some(p) => Some(Hit(k, p))
      case None => FirstKeyword(t, kws, k + 1)
  }

  /** Every keyword starts with `d`, so text without a `d` matches none of
      them. */
  lemma NoKeywordWithoutD(t: string)
    requires forall i :: 0 <= i < |t| ==> t[i] != 'd'
    ensures forall k :: 0 <= k < |DataKeywords| ==> NoMatch(t, DataKeywords[k])
  {
    forall k, p | 0 <= k < |DataKeywords| && 0 <= p < |t|
      ensures !MatchAt(t, DataKeywords[k], p)
    {
      var kw := DataKeywords[k];
      assert |kw| > 0 && kw[0] == 'd';
      forall j: nat ensures !KeywordAt(t, kw, j) {
        if j + |kw| < |t| {
          assert t[j..j + |kw|][0] == t[j];
        }
      }
    }
  }
}
