# nasmfmt line formatting, modelled in Dafny

`nasmfmt` reformats NASM assembly source one line at a time. Each line is
split into an optional label, the instruction text and an optional comment
(`parseLine`). The split ignores `;` and `:` inside quoted strings: the line
is first masked by `noquotes`, which replaces every paired quoted span by
filler characters. A label ends at the first unquoted colon. The exception
is when the text after that colon contains both `[` and `]` anywhere. Then
the line has no label at all. This is meant for segment prefixes such as
`fs:[eax]`, but `foo: mov rax, [rbx]` loses its label too. With no colon, a
data-declaration keyword (`db`, `dw`, `dd`, `dq`, `ddq`, `do`, `dt`) marks
where the label ends. The keyword must be followed by whitespace or `"`.
That test runs on the masked line, where every paired quote is already
filler, so the `"` case only ever fires on an unpaired quote: `lbl db"s"`
gets no label. The model keeps this behaviour. The instruction text is
trimmed, runs of blanks collapse to one, and every comma is followed by
exactly one blank.

Each parsed line is printed (`asmLine.print`). A label goes on a row of its
own when text follows it. The text is indented by the instruction indent
(`-ii`). The comment's semicolon is aligned to the comment column (`-ci`).
The file loop (`formatto`) prints every line, except that an empty line
directly after another empty line is dropped.

A Go string is modelled as its sequence of runes (`seq<char>`). One module
follows each part of `main.go`:

- `Text` holds `strings.TrimSpace`, `indexRune`, `indexRuneAny` and
  `runesRepeat`.
- `Quotes` holds `noquotes`, specified by a scanner that reads one character
  at a time. It says which positions lie inside a quoted span.
- `Keywords` holds the keyword expressions.
- `Normalize` holds the two blank rewrites.
- `Parser` holds `parseComment`, `parseLabel` and `parseLine`.
- `Printer` holds `print`.
- `Formatter` holds the `lastEmpty` loop.
- `Bytes` models the UTF-8 byte offsets that `parseComment` and
  `parseLabel` actually cut at (see Findings).
- `Examples` derives rows of the repository's own test table from the
  general lemmas.

## Model

| member | source | states |
|---|---|---|
| Text.IndexOf | main.go:40-47 | the result is the position of the first occurrence of the rune, and there is none exactly when the rune does not occur |
| Text.IndexOfAny | main.go:49-57 | the result is the first position whose rune is one of `any`, and there is none exactly when no rune of the line is one of them |
| Text.RepeatLength | main.go:59-65 | `count` copies of `rep` hold `count * |rep|` runes |
| Text.RepeatSingle | main.go:59-65 | copies of a one-rune filler are exactly `count` fillers |
| Text.TrimSpace | main.go:165 | the result has no whitespace at either end; with `Text.TrimSpaceCuts` this pins it down as `strings.TrimSpace` |
| Text.Repeat | main.go:59-65 | `runesRepeat`; `Text.RepeatLength` and `Text.RepeatSingle` state its length and contents |
| Text.TrimSpaceCuts | main.go:124 | `strings.TrimSpace` returns an infix of its input, and everything it cuts off on either side is Unicode whitespace |
| Text.TrimSpaceExact | main.go:165 | trimming whitespace wrapped around a trimmed non-empty core yields exactly that core |
| Text.TrimSpaceOfBlank | main.go:165 | a string of whitespace alone trims to the empty string |
| Quotes.Noquotes | main.go:73-104 | the quote-masking loop returns exactly the reference mask: paired quoted positions become the filler and every other rune is kept |
| Quotes.Mask | main.go:67-72 | with a one-rune filler the mask has the line's length, and a line without quotes is its own mask |
| Quotes.MaskAt | main.go:67-72 | with a one-rune filler, every position of the mask holds the filler if it is quoted and the line's own rune otherwise, so an index found in the mask is an index into the line |
| Quotes.UnpairedQuoteRun | main.go:84-90 | a quote without a later partner of its kind is copied and opens no span, so the scan resumes right after it |
| Quotes.PairedQuoteRun | main.go:91-94 | a quote closed later by the same kind of quote is masked together with its partner and everything between them |
| Quotes.PairedSpanMasked | main.go:82-94 | every position from an opening quote to its partner is inside the span, and the scanner is outside every span after it |
| Quotes.FindUnquoted | main.go:148-150 | searching the masked line for a separator finds the first occurrence of it outside every quoted span, and finds nothing exactly when there is none |
| Quotes.QuoteFreeOutside | main.go:95-99 | a line without quote marks has no quoted position |
| Keywords.FindKeyword | main.go:135 | the search returns where the leftmost match of `(?:\s|^)kw(?:\s|")` starts, and nothing exactly when the expression matches nowhere |
| Keywords.FirstKeyword | main.go:106-117 | the keyword that decides is the first in the list order `db dw dd dq ddq do dt` that matches anywhere; no earlier keyword matches |
| Keywords.NoKeywordWithoutD | main.go:110-111 | text without a `d` matches none of the keyword expressions |
| Normalize.CollapseSpaces | main.go:166 | the ` +` rewrite; `Normalize.CollapseSpacesSingle`, `Normalize.CollapseSpacesKeepsText`, `Normalize.CollapseSpacesEnds` and `Normalize.CollapseSpacesFixed` state its result |
| Normalize.SpaceAfterCommas | main.go:167 | the `, *` rewrite; the `Normalize.SpaceAfterCommas…` lemmas below state its result |
| Normalize.NormalizeText | main.go:165-167 | the text field of `parseLine`; `Normalize.NormalizeTextShape` and `Normalize.NormalizeIdempotent` state its shape and that it is a fixed point |
| Normalize.CollapseSpacesSingle | main.go:36 | after collapsing runs of blanks no two blanks are adjacent |
| Normalize.CollapseSpacesKeepsText | main.go:166 | collapsing removes blanks only; every other rune stays, in order |
| Normalize.CollapseSpacesEnds | main.go:166 | collapsing keeps the first rune and a final rune that is not a blank, and empties only empty text |
| Normalize.CollapseSpacesFixed | main.go:166 | text without a double blank is left unchanged |
| Normalize.SpaceAfterCommasSpaced | main.go:37 | after the comma rewrite every comma is followed by exactly one blank |
| Normalize.SpaceAfterCommasKeepsText | main.go:167 | the comma rewrite adds and removes blanks only |
| Normalize.SpaceAfterCommasSingle | main.go:167 | the comma rewrite never creates a double blank |
| Normalize.SpaceAfterCommasStart | main.go:167 | the comma rewrite keeps the first rune and empties only empty text |
| Normalize.SpaceAfterCommasLast | main.go:167 | the comma rewrite keeps a final rune that is neither a blank nor a comma; a final comma gains one blank |
| Normalize.SpaceAfterCommasFixed | main.go:167 | text whose inner commas already carry exactly one blank is unchanged, except that a final comma gains its blank |
| Normalize.NormalizeTextShape | main.go:165-167 | instruction text has no leading whitespace, no double blank and one blank after every comma; it ends cleanly; it is empty exactly when the trimmed line is; apart from blanks, the text is the trimmed line |
| Normalize.NormalizeIdempotent | main.go:165-167 | normalising instruction text a second time changes nothing |
| Parser.ParseComment | main.go:147-157 | the comment is what follows the first unquoted semicolon, trimmed, and the rest is what precedes it; a line without one has no comment and keeps the whole line |
| Parser.ParseCommentSplits | main.go:150-156 | the comment split loses nothing: the line is the rest, the semicolon and the text the comment was trimmed from |
| Parser.ParseCommentQuoted | main.go:148-150 | a semicolon inside a quoted span never ends the code |
| Parser.ParseLabel | main.go:119-145 | the label is always trimmed and the rest is always a suffix of the line |
| Parser.ColonCut | main.go:122-131 | the colon rule: the colon is ignored, and the whole line is the rest, exactly when the text after it holds both brackets; otherwise the rest starts right after the colon and the label is what precedes it, trimmed |
| Parser.KeywordCut | main.go:134-144 | the keyword rule: the label is trimmed and the rest is a suffix of the line; `Parser.ParseLabelKeyword` and `Parser.ParseLabelNone` say where the split falls |
| Parser.ParseLabelColon | main.go:122-132 | with an unquoted colon, the label is the trimmed text before the first one and the rest follows it, unless the rest holds both `[` and `]`, in which case there is no label and the whole line is the rest |
| Parser.ParseLabelKeyword | main.go:134-141 | with no unquoted colon, the label is the trimmed text before the match of the first keyword in list order, and the rest starts at that match |
| Parser.ParseLabelNone | main.go:144 | with no unquoted colon and no keyword match there is no label and the whole line is the rest |
| Parser.KeywordSplitUnique | main.go:134-141 | the keyword split is determined: exactly one keyword and match position decide the label |
| Parser.ParseLine | main.go:159-170 | label and comment are trimmed; the text has no leading whitespace, no double blank and one blank after every comma, and ends cleanly |
| Parser.Line.IsEmpty | main.go:172-174 | `asmLine.empty`; `Printer.Print` states that exactly the empty lines print as a bare newline, and `Parser.BlankLineIsEmpty` that a blank line parses to one |
| Parser.ParseLineFields | main.go:159-170 | the comment is taken off first: the label is looked for only before the first unquoted semicolon, so a colon in a comment never makes a label |
| Parser.BlankLineIsEmpty | main.go:159-174 | a line of whitespace alone parses to an empty line |
| Printer.Print | main.go:176-213 | every printed line ends in a newline, and the printed form is the newline alone exactly when the line is empty |
| Printer.ColumnIsRowWidth | main.go:180-198 | the column the printer tracks is the width, in runes, of the last row it wrote |
| Printer.CommentPlacement | main.go:200-210 | the printed line is the code, a gap and `; ` with the comment; the gap is empty on an empty row, reaches column `ci - 1` exactly when the code ends before it, and is one blank otherwise |
| Printer.LabelOwnRow | main.go:183-198 | a label followed by text is printed with its colon on its own row, then the text indented by `ii` blanks |
| Printer.PrintEndsOnce | main.go:212 | a line with a trimmed comment and cleanly ending text prints exactly one newline at its end |
| Printer.ParsedLineEndsOnce | main.go:159-213 | every parsed line prints with exactly one newline at its end |
| Formatter.PrintLines | main.go:239-248 | the `lastEmpty` loop prints exactly the lines the reference rule keeps: a line is dropped only when it and the line before it are both empty |
| Formatter.FormatLines | main.go:238-248 | formatting a sequence of lines prints the kept lines of their parsed forms, in order |
| Formatter.KeptKeepsNonEmpty | main.go:243-246 | collapsing blank lines keeps every non-empty line, in input order |
| Formatter.KeptNoTwoEmpty | main.go:243-247 | the output never holds two empty lines in a row |
| Formatter.KeptRunStart | main.go:243-247 | the first empty line of every run is printed, a leading one included |
| Formatter.KeptEnd | main.go:243-247 | the last line printed is the last input line, or an empty line that stands for an empty last line |
| Bytes.MaskNoLonger | main.go:103 | the masked line never has more bytes than the line |
| Bytes.CutAsWritten | main.go:147-153 | for a line of valid UTF-8, the byte offset found in the masked line exists exactly when the separator occurs outside quotes, and always lies inside the line |
| Bytes.AsWrittenMisCut | main.go:150-153 | on `"é";a` the cut as written ends after `"é` and drops the closing quote, while the corrected cut ends after `"é"` and drops the semicolon |
| Bytes.CutAtRune | main.go:150-153 | the corrected cut exists exactly when the separator occurs outside quotes, and the byte it drops is the separator |
| Bytes.CutAtRuneRunes | main.go:150-153 | the corrected cut yields the encodings of the runes before and after the first unquoted separator |
| Bytes.AsWrittenOnAscii | main.go:67-72 | on an ASCII line the cut as written and the corrected cut agree |
| Bytes.CommentCutMatches | main.go:147-157 | the corrected cut at `;` agrees with the rune-level comment split: its bytes before the separator encode the code that is kept |
| Bytes.LabelCutMatches | main.go:122-131 | the corrected cut at `:` agrees with the rune-level label split when no brackets follow |
| Examples.MaskPaired | main_test.go:65 | `something 'quoted'` masks to `something xxxxxxxx` |
| Examples.MaskUnpaired | main_test.go:69 | `more "qu'ot" 'ma"r"ks` masks to `more xxxxxxx 'maxxxks` |
| Examples.MaskEmptyFiller | main_test.go:72 | with an empty filler, `more "qu'ot" 'marks` becomes `more  'marks` |
| Examples.NormalizeAround | main.go:165-167 | instruction text already in normal form, with whitespace around it, normalises to itself |
| Examples.ParsePlainLine | main_test.go:33 | `   mov   rax,   rbx    ` parses to no label, text `mov rax, rbx` and no comment |
| Examples.ParseColons | main_test.go:27 | `::;` parses to no label, text `:` and no comment |
| Examples.ParseSegmentColon | main_test.go:36 | `mov eax, fs:[eax + 0x30]` has no label and keeps its whole text |
| Examples.ParseDataLabel | main_test.go:38 | `lbl db data` parses to label `lbl` and text `db data` |
| Examples.PrintLabelTextComment | main.go:183-212 | with indent 8 and comment column 40, a line with a label, text and comment prints the label row, then the text, then the semicolon at column 39 |
| Examples.ColonLine | main.go:159-170 | a line without quotes or semicolons whose first colon is not followed by both brackets parses to the trimmed label before the colon and the normalised text after it |
| Examples.FormatTwiceDiffers | main.go:183-198 | formatting is not a fixed point: `a: b: c` prints as the rows `a:` and `        b: c`, and formatting those rows again splits off a second label `b` |
| Examples.KeptBlankRun | main.go:243-247 | three empty lines between two instructions shrink to one |

## Left out

- Command-line flags, `format`, `main` and the file handling of `formatto` (main.go:15-27, 215-237, 252-274) are left out: opening and creating files, the `~` temporary file and its rename, and printing errors. The instruction indent and the comment column are parameters `ii` and `ci` of the printer.
- Reading lines with `bufio.Scanner` (main.go:238-241) is not modelled. Input is a sequence of lines. The scanner's token-size limit and its read error, which the loop ignores, are not modelled either.
- Write errors of `io.Writer` are ignored by the source and not modelled. The output is one string.
- Formatter.FormatLines: parses all lines up front and then runs the `lastEmpty` loop. The source parses one line per round. Parsing has no effects, so the order does not matter.
- Printer.Print: `ii` is a natural number. A negative `-ii` makes `bytes.Repeat` panic in the source, and that case is not modelled.
- The regular-expression engine is not modelled. ` +`, `, *` and the keyword expressions are replaced by scanners that state what the expressions match.
- Strings are modelled as rune sequences, so invalid UTF-8 is not modelled. The source decodes each invalid byte to U+FFFD when `noquotes` converts the line to runes. `string(outr)` then writes three bytes for it. The masked line can therefore have more bytes than the line, and the offset found in it can lie past the line's end. For the two bytes `\xff;`, the mask `\xef\xbf\xbd;` has four bytes and gives offset 3. `line[ind+1:]` then panics. `Bytes.MaskNoLonger` and the bound in `Bytes.CutAsWritten` hold only for valid UTF-8.
- Parser.ParseLabel, Parser.ParseComment: cut the line at the rune position that the masked line gives, which is the corrected cut of the finding below. The byte-level cut as written is modelled for `;` and `:` in `Bytes`.
- Formatting is not idempotent, and the model does not claim it is. Formatting an already formatted file can change it again. `print` puts the text of a labelled line on its own indented row, and `parseLine` splits that row again at an unquoted colon or a data keyword. For example, `a: b: c` becomes `a:` and `        b: c`, and a second pass turns the second row into `b:` and `        c`. `x: y db 1` likewise yields a second label `y`. `Examples.FormatTwiceDiffers` exhibits the colon case.
- Bytes.CutAsWritten: the byte-level model covers the one-byte separators `;` and `:`. The keyword branch of `parseLabel` (main.go:135-139) reuses the offset of a keyword match in the same way, and that branch is modelled at rune level only.

## Findings

| source | as written | input that shows it | evidently intended | confidence | as-written member | corrected member |
|---|---|---|---|---|---|---|
| main.go:147-153 (also main.go:122-125) | `strings.Index` gives a byte offset in `noquotes(line, "x")`, which is then used to slice `line`. `noquotes` replaces each quoted rune by the one-byte `x`, so the offsets differ once a quoted span before the separator holds a multi-byte rune. | `"é";a`: the mask is `xxx;a`, so the offset is 3, but byte 3 of the line is the closing quote. The code becomes `"é` and the comment `;a`. | Cut at the separator itself: code `"é"`, comment `a`. | not executed | Bytes.CutAsWritten, Bytes.AsWrittenMisCut | Bytes.CutAtRune, Bytes.CutAtRuneRunes |
