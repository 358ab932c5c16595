# parse_pdf: segmenting exam-paper PDF blocks into multiple-choice questions

This project models the question parser of a small mobile exam-practice app
(`a1.py`). The parser reads the text blocks of each PDF page and turns them into
four-option multiple-choice question records. A second, smaller part is the
arithmetic that derives the clip rectangle rendered as a question's body.

The parser works on each page in turn and on each half of the page, left then
right:

- **Column split.** A block belongs to a half when it overlaps it horizontally.
  The blocks of a half are stably sorted by their top edge.
- **Block scan.** One open record is kept. Blocks are handled by kind:
  - blank blocks and blocks carrying the "comcbt" watermark are skipped;
  - a block that opens with digits and a period starts a question;
  - a block with option glyphs (① to ④, or one of the eight filled answer
    glyphs) adds options;
  - any other block continues the last option.
- **Filter.** The records of every half are collected, and only those with four
  options are kept.

Modules:
- `Wrappers` holds `Option`.
- `Text` models `strip`, the `^(\d+)\.` match and the watermark test.
- `Markers` models the glyph class, `findall`/`split` and the option texts.
- `Columns` models the half-page split and the stable sort.
- `Segmenter` holds the records, the block scan as a function (`Step`, `Run`),
  the whole parse as a function (`Parse`), and the lemmas about them.
- `Parser` holds the imperative `parse_pdf`: nested loops, a mutable open
  record and a growing list. Each method is proved to compute the `Segmenter`
  functions.
- `Clip` holds the clip-rectangle functions.

Pages are given as data: the blocks of each page (`x0`, `y0`, `x1`, `y1`, text)
and the page width. Coordinates are exact reals.

Behaviour as the code has it:
- **Answer index default.** A fresh record's answer index is -1, not 0. A
  complete record with no filled glyph keeps -1.
- **Option texts come from every non-blank piece, the text before the first
  glyph included.** The i-th glyph gets the i-th such piece, or the
  placeholder "내용 없음".
  - Text ahead of the first glyph therefore becomes the first option
    (`Markers.OptionTextsSpec`).
  - A glyph followed only by whitespace shifts the later texts forward.
  - When the block opens with a glyph and every later piece holds something
    other than whitespace, each glyph gets the stripped text that follows it
    (`Markers.OptionTextsAligned`).
- **Order.** The records come page by page, the left half before the right,
  and within a half in the order of their question headings from the top.
- **The option line is tested for truthiness in the clip.** An option line at
  y = 0 counts as unset there, and the fixed 250 height is used.

## Model

| member | source | states |
|---|---|---|
| Parser.ParsePdf | a1.py:19-52 | the nested page/half/block loops return exactly `Parse(pages)`; every returned record has 4 options and an answer index in -1..3 |
| Parser.ReadHalf | a1.py:28-51 | one half: scanning the column stream from no open record and flushing the open record at the end appends exactly that half's records to the list |
| Parser.ReadBlock | a1.py:32-50 | the loop body on one block yields the same list and open record as the scan step `Step` |
| Parser.AddMarkedOptions | a1.py:45-48 | the glyph loop with its `break` at four options computes `AddOptions` from the first glyph |
| Segmenter.Parse | a1.py:19-52 | the parse as a function; its properties are stated by `Segmenter.ParsedRecords` |
| Segmenter.Collected | a1.py:24-51 | q_list after every page; its properties are stated by `Segmenter.CollectedFacts` |
| Segmenter.PageRecords | a1.py:28-51 | the records of a page's halves; stated by `Segmenter.PageRecordsFacts` |
| Segmenter.SideRecords | a1.py:31-51 | the records of one half; stated by `Segmenter.SideRecordsBelong`, `Segmenter.RunByTop` and `Segmenter.RunGrows` |
| Segmenter.Run | a1.py:32-50 | the block loop as a fold of `Step`; stated by `Segmenter.RunInvariant`, `Segmenter.RunGrows`, `Segmenter.RunByTop` and `Segmenter.SkippedBlockIgnored` |
| Segmenter.Step | a1.py:33-50 | the loop body; each branch is stated by `Segmenter.SkipStep`, `Segmenter.QuestionStartEffect` and `Segmenter.StepDispatch` |
| Segmenter.MarkerBlock | a1.py:41-48 | a marker block read into the open record; stated by `Segmenter.MarkerBlockEffect` |
| Segmenter.Continued | a1.py:49-50 | a continuation block; stated by `Segmenter.ContinuedEffect` |
| Segmenter.AddOptions | a1.py:45-48 | the glyph loop; stated by `Segmenter.AddOptionsAppends` and `Segmenter.AddOptionsAnswer` |
| Segmenter.ParsedRecords | a1.py:24-52 | every parsed record has exactly 4 non-empty stripped options, an answer index in -1..3, an option line set at or below its heading, a digit-string number, and a page of the document; the records come page by page, left half before right, and within a half by heading top |
| Segmenter.Complete | a1.py:52 | the filter keeps exactly the records with at least 4 options |
| Segmenter.CompleteFilter | a1.py:52 | the filter works record by record: the filter of a concatenation is the concatenation of the filters, and one record is kept exactly when it has 4 options; so q_list's order and multiplicity are kept |
| Segmenter.SkippedBlockIgnored | a1.py:33-34 | a blank or watermarked block, wherever it sits in a half's stream, leaves the scan's result as if it were absent |
| Segmenter.SkipStep | a1.py:33-34 | a blank or watermarked block leaves the scan state unchanged |
| Segmenter.QuestionStartEffect | a1.py:35-38 | a block whose stripped text opens with digits `num` and a period closes the open record unchanged and opens a fresh one: number `num`, this page, half and top edge, no options, answer -1, no option line; glyphs in it are not read |
| Segmenter.MarkerBlockEffect | a1.py:40-48 | the option line is set to the block's top only if unset; exactly min(#glyphs, 4 - n) options are appended after the n present; they are the texts of the first glyphs (the j-th non-blank piece, or the placeholder); the answer index moves to the last filled glyph among those taken, else stays; nothing else changes |
| Segmenter.AddOptionsAppends | a1.py:45-48 | from glyph i on, the loop appends exactly min(#left, 4 - n) options after the n present, the texts of those glyphs in order, and leaves the heading fields alone |
| Segmenter.AddOptionsAnswer | a1.py:46-47 | from glyph i on, the answer index is unchanged when no taken glyph is filled, and otherwise points at the last filled glyph taken |
| Segmenter.ContinuedEffect | a1.py:49-50 | a continuation replaces only the last option, by that option, a space and the block text; since both are stripped and non-empty, the final strip changes nothing |
| Segmenter.StepDispatch | a1.py:39-50 | a usable non-question block is ignored with no open record, read as a marker block when it has glyphs, continues the last option otherwise, and is ignored when there is no option yet |
| Segmenter.StepGrows | a1.py:37 | one block leaves every closed record as it was and adds at most one record |
| Segmenter.RunGrows | a1.py:31-51 | a closed record is never changed by later blocks, and a half yields at most one record per block |
| Segmenter.StepInvariant | a1.py:33-50 | one step keeps every record well formed (at most 4 clean options, answer index -1 up to below the option count, option line set once options exist and not above the heading, digit number) and in its own page and half |
| Segmenter.RunInvariant | a1.py:31-50 | over a stream sorted by top edge, the scan keeps every closed and open record well formed and in the half being read |
| Segmenter.StepByTop | a1.py:35-50 | a block no higher than every record so far keeps the records in heading order: a question start appends a record at the block's top, and other blocks leave every heading top as it was |
| Segmenter.RunByTop | a1.py:30-51 | over a stream sorted by top edge, a half's records come in the order of their question headings, none below the last block read |
| Segmenter.SideRecordsBelong | a1.py:31-51 | records never span a half or a page: all that one half yields belongs to it |
| Segmenter.PageRecordsFacts | a1.py:28-51 | a page's records are well formed, of that page, left half before right, and by heading top within a half |
| Segmenter.CollectedFacts | a1.py:24-51 | the collected list is in reading order (page, half, heading top) and holds well-formed records of the document's pages |
| Segmenter.CompleteInOrder | a1.py:52 | the filter keeps reading order |
| Segmenter.OptionTextClean | a1.py:44-48 | every option text appended is non-empty and stripped, the placeholder included |
| Segmenter.MarkerBlockWellFormed | a1.py:41-48 | a marker block keeps an open record well formed |
| Segmenter.ContinuedWellFormed | a1.py:49-50 | a continuation keeps an open record well formed |
| Columns.ColumnMembership | a1.py:29-30 | a block is in a half's stream exactly when it is on the page and overlaps the half (`x0 < side_x1 && x1 > side_x0`); blocks with equal top edges keep their order in the filtered page list |
| Columns.StraddlingBlockInBothColumns | a1.py:29-30 | a block across the midline is read in both halves |
| Columns.ColumnStream | a1.py:30 | the stream is sorted by top edge and holds each overlapping block as often as the page does, and no other block |
| Columns.SortByTop | a1.py:30 | `sorted(key=y0)` returns a permutation sorted by top edge |
| Columns.SortStable | a1.py:30 | the sort keeps the input order among blocks with equal top edges |
| Columns.InsertStable | a1.py:30 | one insertion keeps the order among blocks with equal top edges |
| Columns.InsertSorted | a1.py:30 | inserting into a sorted stream keeps it sorted |
| Columns.InColumn | a1.py:30 | the comprehension; stated by `Columns.InColumnCount` and `Columns.InColumnFilter` |
| Columns.InColumnCount | a1.py:30 | the comprehension keeps each overlapping block as often as the page has it, and drops the rest |
| Columns.InColumnFilter | a1.py:30 | the comprehension works block by block: on a concatenation it gives the concatenation, and one block is kept exactly when it overlaps the half; so the page order is kept |
| Text.Strip | a1.py:33 | `str.strip()`; stated by `Text.StripSpec` and `Text.StripUnique` |
| Text.StripSpec | a1.py:33 | `strip()` removes leading and trailing whitespace: the result is stripped and is the input with whitespace cut from both ends |
| Text.TrimStartSpec | a1.py:33 | the leading cut removes a whitespace prefix, and what is left does not start with whitespace |
| Text.TrimEndSpec | a1.py:33 | the trailing cut removes a whitespace suffix, and what is left does not end with whitespace |
| Text.StripUnique | a1.py:33 | any stripped cut of s surrounded by whitespace alone is `s.strip()` |
| Text.StripJoin | a1.py:50 | joining two stripped non-empty texts with a space needs no further strip |
| Text.MentionsComcbt | a1.py:34 | the watermark test; stated by `Text.ContainsMatches` and `Text.LowerChar` |
| Text.LowerChar | a1.py:34 | lowering gives a lower-case ASCII letter exactly when the character is an ASCII letter, and then that letter's own lower-case form |
| Text.ContainsMatches | a1.py:34 | the substring test holds exactly when the needle occurs at some position |
| Text.QuestionNumber | a1.py:35 | group 1 of `^(\d+)\.`; stated by `Text.QuestionNumberSpec`, `Text.QuestionNumberOf` and `Text.QuestionNumberMatches` |
| Text.QuestionNumberSpec | a1.py:35 | the captured number is a non-empty digit prefix followed by a period |
| Text.QuestionNumberOf | a1.py:35 | a text opening with digits `num` and a period captures exactly `num` |
| Text.QuestionNumberMatches | a1.py:35 | a number is found exactly when `^(\d+)\.` matches |
| Text.DigitRunSpec | a1.py:35 | `\d+` takes the longest all-digit prefix: all digits up to it, and a non-digit right after |
| Markers.MarkersOf | a1.py:40 | `findall` of the glyph class; stated by `Markers.MarkersOfSpec` and `Markers.SplitRoundTrip` |
| Markers.MarkersOfSpec | a1.py:40 | `findall` of the glyph class returns glyphs only, and nothing exactly when the text has no glyph |
| Markers.SplitAtMarkers | a1.py:43 | `split` yields one more piece than `findall` finds glyphs |
| Markers.SplitPiecesGlyphFree | a1.py:43 | no piece of the split holds a glyph |
| Markers.SplitRoundTrip | a1.py:40-43 | putting the found glyphs back between the split pieces gives the text back |
| Markers.OptionTexts | a1.py:44 | the `contents` comprehension; stated by `Markers.OptionTextsFilter` and `Markers.OptionTextsSpec` |
| Markers.OptionTextsFilter | a1.py:44 | the comprehension works piece by piece: on a concatenation it gives the concatenation, and one piece gives its stripped form when that is non-empty and nothing otherwise; so blank pieces are dropped and the rest kept in order |
| Markers.OptionTextsSpec | a1.py:44 | the kept pieces are non-empty and stripped; non-blank text ahead of the first glyph becomes the first |
| Markers.OptionTextsOfNonBlank | a1.py:44 | when no piece is blank, the result is every piece stripped, in order |
| Markers.OptionTextsAligned | a1.py:43-48 | when the text opens with a glyph and no later piece is blank, the i-th glyph's text is the stripped piece right after it |
| Clip.ClipRect | a1.py:76-77 | the clip rectangle; stated by `Clip.ClipWithinHalf` and `Clip.ClipOfParsedRecord` |
| Clip.ClipTop | a1.py:74 | the top is max(0, y0 - 10): never negative, never below y0 - 10, and one of the two |
| Clip.ClipBottom | a1.py:75 | the clip ends strictly above a truthy option line, so no option is drawn; without one it ends below its own top and at least 250 below the page top |
| Clip.ClipWithinHalf | a1.py:76-77 | the clip spans the record's own half, as the column split bounds it, inset by 5 on each side |
| Clip.ClipOfParsedRecord | a1.py:74-77 | for a parsed record the clip starts no lower than a heading on the page, ends 5 above the option line (fixed height when that line is at 0), and has positive height when the heading is at least 10 below the page top |

## Left out

- Streamlit page setup, session state, file upload, reruns, navigation and the answer buttons (a1.py:1-17, 54-116): user-interface plumbing.
- PyMuPDF calls: opening the document, `get_text("blocks")`, `page.rect.width` and rendering with `get_pixmap`. Pages come in as lists of blocks plus a width.
- PIL image conversion and display: raster I/O. The file has no cropping step.
- Block number and block type, the last two fields of a block, which the parser does not read. The bottom edge `y1` is carried in `Columns.Block` but nothing reads it either.
- Floating point: coordinates are exact reals. Nothing relies on rounding.
- Text.IsDigit: `\d` accepts every Unicode decimal digit. The model accepts the ASCII and full-width digits only.
- Text.LowerChar: Python also lowers a few other characters into ASCII letters (the Kelvin sign into k, the dotted capital I into i and a combining dot). None of them gives c, o, m, b or t, so the watermark test is unaffected.
- Text.Lower: only ASCII capitals are lowered. No other character lowers into any of the letters of "comcbt", so the watermark test is exact.
- The regular-expression engine in general: only the fixed glyph class and the leading-digits-then-period test are modelled.
- Aliasing of the record dict: a record is never changed after it is appended to the list, so records are modelled as values.
