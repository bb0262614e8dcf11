/** The line loop of `formatto`: every input line is parsed and printed,
    except that an empty line directly after another empty line is
    dropped, so runs of blank lines shrink to one. The file and scanner
    plumbing around it is left out; input is a sequence of lines and output
    is a string. */
module Formatter {
  import opened Parser
  import opened Printer

  /** Every line parsed. */
  function ParseAll(lines: seq<string>): (ps: seq<Line>)
    ensures |ps| == |lines|
    ensures forall i :: 0 <= i < |lines| ==> ps[i] == ParseLine(lines[i])
  {
    seq(|lines|, i requires 0 <= i < |lines| => ParseLine(lines[i]))
  }

  /** Reference rule: line `i` is printed unless it is empty and the line
      before it is empty too. */
  predicate KeepAt(ps: seq<Line>, i: nat)
    requires i < |ps|
  {
    !ps[i].IsEmpty() || i == 0 || !ps[i - 1].IsEmpty()
  }

  /** The lines the reference rule keeps, in input order. */
  function Kept(ps: seq<Line>): seq<Line>
  {
    if |ps| == 0 then []
    else Kept(ps[..|ps| - 1]) + (if KeepAt(ps, |ps| - 1) then [ps[|ps| - 1]] else [])
  }

  /** The printed form of a sequence of lines, one after the other. */
  function Render(ls: seq<Line>, ii: nat, ci: int): string
  {
    if |ls| == 0 then "" else Render(ls[..|ls| - 1], ii, ci) + Print(ls[|ls| - 1], ii, ci)
  }

  /** The loop of `formatto` over the parsed lines, with its `lastEmpty`
      flag: it prints exactly the lines the reference rule keeps. */
  method PrintLines(ps: seq<Line>, ii: nat, ci: int) returns (out: string)
    ensures out == Render(Kept(ps), ii, ci)
  {
    out := "";
    var lastEmpty := false;
    var i := 0;
    while i < |ps|
      invariant i <= |ps|
      invariant lastEmpty == (i > 0 && ps[i - 1].IsEmpty())
      invariant out == Render(Kept(ps[..i]), ii, ci)
    {
      var l := ps[i];
      if lastEmpty && l.IsEmpty() {
        DropRound(ps, i);
      } else {
        KeepRound(ps, i, ii, ci);
        out := out + Print(l, ii, ci);
        lastEmpty := l.IsEmpty();
      }
      i := i + 1;
    }
    WholePrefix(ps, i);
  }

  lemma WholePrefix(ps: seq<Line>, i: nat)
    requires i == |ps|
    ensures ps[..i] == ps
  {
  }

  /** A round that drops line `i`: what was printed stays what the
      reference rule keeps of the longer prefix. */
  lemma DropRound(ps: seq<Line>, i: nat)
    requires 0 < i < |ps| && ps[i - 1].IsEmpty() && ps[i].IsEmpty()
    ensures Kept(ps[..i + 1]) == Kept(ps[..i])
  {
    KeptStep(ps, i);
    assert !KeepAt(ps, i);
    assert Kept(ps[..i]) + [] == Kept(ps[..i]);
  }

  /** A round that prints line `i`: its printed form extends what the
      reference rule keeps of the shorter prefix. */
  lemma KeepRound(ps: seq<Line>, i: nat, ii: nat, ci: int)
    requires i < |ps| && !(i > 0 && ps[i - 1].IsEmpty() && ps[i].IsEmpty())
    ensures Render(Kept(ps[..i + 1]), ii, ci) == Render(Kept(ps[..i]), ii, ci) + Print(ps[i], ii, ci)
  {
    KeptStep(ps, i);
    RenderAppend(Kept(ps[..i]), ps[i], ii, ci);
  }

  /** `formatto` on a sequence of input lines: each line parsed, runs of
      empty lines collapsed, the rest printed. Parsing is pure, so the
      lines are parsed up front rather than one per round. */
  method FormatLines(lines: seq<string>, ii: nat, ci: int) returns (out: string)
    ensures out == Render(Kept(ParseAll(lines)), ii, ci)
  {
    out := PrintLines(ParseAll(lines), ii, ci);
  }

  lemma KeptStep(ps: seq<Line>, i: nat)
    requires i < |ps|
    ensures Kept(ps[..i + 1]) == Kept(ps[..i]) + (if KeepAt(ps, i) then [ps[i]] else [])
  {
    var q := ps[..i + 1];
    assert q[..i] == ps[..i];
  }

  lemma RenderAppend(ls: seq<Line>, l: Line, ii: nat, ci: int)
    ensures Render(ls + [l], ii, ci) == Render(ls, ii, ci) + Print(l, ii, ci)
  {
    assert (ls + [l])[..|ls|] == ls;
  }

  /** The lines kept: their non-empty lines, in order. */
  function NonEmpty(ls: seq<Line>): seq<Line>
  {
    if |ls| == 0 then []
    else NonEmpty(ls[..|ls| - 1]) + (if ls[|ls| - 1].IsEmpty() then [] else [ls[|ls| - 1]])
  }

  /** Collapsing blank lines keeps every non-empty line, in order. */
  lemma {:induction false} KeptKeepsNonEmpty(ps: seq<Line>)
    ensures NonEmpty(Kept(ps)) == NonEmpty(ps)
  {
    if |ps| > 0 {
      var front := ps[..|ps| - 1];
      KeptKeepsNonEmpty(front);
      var last := ps[|ps| - 1];
      var extra := if KeepAt(ps, |ps| - 1) then [last] else [];
      NonEmptyAppend(Kept(front), extra);
    }
  }

  lemma {:induction false} NonEmptyAppend(a: seq<Line>, b: seq<Line>)
    requires |b| <= 1
    ensures NonEmpty(a + b) == NonEmpty(a) + NonEmpty(b)
  {
    if |b| == 1 {
      assert (a + b)[..|a + b| - 1] == a;
      assert NonEmpty(b) == if b[0].IsEmpty() then [] else [b[0]] by {
        assert b[..0] == [];
      }
    } else {
      assert a + b == a;
    }
  }

  /** The last line kept is the last input line, or an empty line that
      stands for it. */
  lemma {:induction false} KeptEnd(ps: seq<Line>)
    requires |ps| > 0
    ensures |Kept(ps)| > 0
    ensures ps[|ps| - 1].IsEmpty() ==> Kept(ps)[|Kept(ps)| - 1].IsEmpty()
    ensures !ps[|ps| - 1].IsEmpty() ==> Kept(ps)[|Kept(ps)| - 1] == ps[|ps| - 1]
  {
    var front := ps[..|ps| - 1];
    if |front| > 0 {
      KeptEnd(front);
      assert front[|front| - 1] == ps[|ps| - 2];
    }
  }

  /** Collapsing blank lines never leaves two empty lines in a row. */
  lemma {:induction false} KeptNoTwoEmpty(ps: seq<Line>)
    ensures forall j :: 0 <= j < |Kept(ps)| - 1 ==>
              !(Kept(ps)[j].IsEmpty() && Kept(ps)[j + 1].IsEmpty())
  {
    if |ps| > 0 {
      var front := ps[..|ps| - 1];
      KeptNoTwoEmpty(front);
      if KeepAt(ps, |ps| - 1) && ps[|ps| - 1].IsEmpty() && |front| > 0 {
        KeptEnd(front);
        assert front[|front| - 1] == ps[|ps| - 2];
      }
    }
  }

  /** The first line of every run of empty lines is kept, a leading one
      included: the empty line at `i` is printed when the line before it is
      not empty or there is none. */
  lemma {:induction false} KeptRunStart(ps: seq<Line>, i: nat)
    requires i < |ps| && ps[i].IsEmpty() && (i == 0 || !ps[i - 1].IsEmpty())
    ensures |Kept(ps[..i])| < |Kept(ps[..i + 1])|
  {
    var q := ps[..i + 1];
    assert q[..i] == ps[..i];
    assert KeepAt(q, i);
  }
}
