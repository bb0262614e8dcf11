/** Rendering one parsed line (`asmLine.print`). The instruction indent
    and the comment column are the `-ii` and `-ci` settings, passed in as
    parameters. Columns are counted in characters (runes). */
module Printer {
  import opened Text
  import opened Normalize
  import opened Parser

  /** The number of characters after the last newline of `s`: the column
      at which the next character would be written. */
  function RowWidth(s: string): nat
    decreases |s|
  {
    if |s| == 0 || s[|s| - 1] == '\n' then 0 else RowWidth(s[..|s| - 1]) + 1
  }

  /** The blanks written before a comment when the running column is
      `column`: none at the start of a row, enough to reach column `ci - 1`
      when that is still ahead, and a single blank otherwise. */
  function CommentGap(column: nat, ci: int): nat {
    if column == 0 then 0
    else if column < ci - 1 then ci - column - 1
    else 1
  }

  /** `asmLine.print`, with the running column the source keeps. A label is
      written with its colon and, when text follows, a newline; the text is
      indented by `ii` blanks; the comment is aligned by `CommentGap`;
      every line ends with a newline. */
  function Print(l: Line, ii: nat, ci: int): (out: string)
    ensures |out| > 0 && out[|out| - 1] == '\n'
    ensures l.IsEmpty() <==> out == "\n"
  {
    var head := if l.lbl != "" then l.lbl + ":" + (if l.text != "" then "\n" else "") else "";
    var column: nat := if l.lbl != "" && l.text == "" then |l.lbl| + 1 else 0;
    var body := if l.text != "" then Spaces(ii) + l.text else "";
    var column: nat := if l.text != "" then column + ii + |l.text| else column;
    var tail := if l.comment != "" then Spaces(CommentGap(column, ci)) + "; " + l.comment else "";
    head + body + tail + "\n"
  }

  /** The code of a line as printed, without its comment and without the
      final newline. */
  function Code(l: Line, ii: nat): string {
    var bare := Print(Line(l.lbl, l.text, ""), ii, 0);
    bare[..|bare| - 1]
  }

  lemma {:induction false} RowWidthAppend(a: string, b: string)
    requires '\n' !in b
    ensures RowWidth(a + b) == RowWidth(a) + |b|
    decreases |b|
  {
    if |b| > 0 {
      var c := a + b;
      assert c[..|c| - 1] == a + b[..|b| - 1];
      RowWidthAppend(a, b[..|b| - 1]);
    } else {
      assert a + b == a;
    }
  }

  lemma RowWidthOfRow(b: string)
    requires '\n' !in b
    ensures RowWidth(b) == |b|
  {
    RowWidthAppend([], b);
    assert [] + b == b;
  }

  lemma SpacesHaveNoNewline(n: nat)
    ensures '\n' !in Spaces(n)
  {
    SpacesBlank(n);
  }

  /** The column the printer keeps is the width of the last row of the code
      it wrote, provided neither label nor text holds a newline. */
  lemma ColumnIsRowWidth(l: Line, ii: nat)
    requires '\n' !in l.lbl && '\n' !in l.text
    ensures RowWidth(Code(l, ii)) ==
              if l.text != "" then ii + |l.text|
              else if l.lbl != "" then |l.lbl| + 1
              else 0
  {
    var code := Code(l, ii);
    SpacesHaveNoNewline(ii);
    if l.text != "" {
      var head := if l.lbl != "" then l.lbl + ":" + "\n" else "";
      assert code == head + (Spaces(ii) + l.text);
      assert '\n' !in Spaces(ii) + l.text;
      RowWidthAppend(head, Spaces(ii) + l.text);
      assert RowWidth(head) == 0;
    } else if l.lbl != "" {
      assert code == l.lbl + ":";
      RowWidthOfRow(l.lbl + ":");
    } else {
      assert code == [];
    }
  }

  /** Where a comment goes. The printed line is its code, some blanks and
      `; ` with the comment. With no code on the row the semicolon starts
      the row; when the code ends before column `ci - 1` the semicolon sits
      exactly at column `ci - 1`; otherwise one blank separates it from the
      code. */
  lemma CommentPlacement(l: Line, ii: nat, ci: int)
    requires l.comment != ""
    requires '\n' !in l.lbl && '\n' !in l.text
    ensures var code := Code(l, ii);
            var out := Print(l, ii, ci);
            var w := RowWidth(code);
            var g := |out| - |code| - |l.comment| - 3;
            && g >= 0
            && out == code + Spaces(g) + "; " + l.comment + "\n"
            && (w == 0 ==> g == 0)
            && (0 < w < ci - 1 ==> w + g == ci - 1)
            && (0 < w && ci - 1 <= w ==> g == 1)
  {
    ColumnIsRowWidth(l, ii);
  }

  /** A line with both a label and text prints the label and its colon on
      a row of their own, then the text indented by `ii` blanks. */
  lemma LabelOwnRow(l: Line, ii: nat, ci: int)
    requires l.lbl != "" && l.text != ""
    ensures var out := Print(l, ii, ci);
            var head := l.lbl + ":\n" + Spaces(ii) + l.text;
            |head| < |out| && out[..|head|] == head
  {
    var head := l.lbl + ":\n" + Spaces(ii) + l.text;
    var out := Print(l, ii, ci);
    var tail := if l.comment != "" then Spaces(CommentGap(ii + |l.text|, ci)) + "; " + l.comment else "";
    assert out == head + tail + "\n";
  }

  /** A line whose text and comment end cleanly prints with exactly one
      newline at its end: the character before it is never a newline. */
  lemma PrintEndsOnce(l: Line, ii: nat, ci: int)
    requires IsTrimmed(l.comment) && EndsClean(l.text)
    ensures var out := Print(l, ii, ci);
            |out| == 1 || out[|out| - 2] != '\n'
  {
    var out := Print(l, ii, ci);
    if l.comment != "" {
      var gap := Spaces(CommentGap(if l.text != "" then ii + |l.text| else if l.lbl != "" then |l.lbl| + 1 else 0, ci));
      var pre := (if l.lbl != "" then l.lbl + ":" + (if l.text != "" then "\n" else "") else "")
                 + (if l.text != "" then Spaces(ii) + l.text else "") + gap + "; ";
      assert out == pre + l.comment + "\n";
      assert out[|out| - 2] == l.comment[|l.comment| - 1];
    } else if l.text != "" {
      var pre := (if l.lbl != "" then l.lbl + ":" + "\n" else "") + Spaces(ii);
      assert out == pre + l.text + "\n";
      assert out[|out| - 2] == l.text[|l.text| - 1];
    } else if l.lbl != "" {
      assert out == l.lbl + ":" + "\n";
    }
  }

  /** A parsed line prints with exactly one newline at its end. */
  lemma ParsedLineEndsOnce(line: string, ii: nat, ci: int)
    ensures var out := Print(ParseLine(line), ii, ci);
            |out| == 1 || out[|out| - 2] != '\n'
  {
    PrintEndsOnce(ParseLine(line), ii, ci);
  }
}
