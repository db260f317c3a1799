# json-patch edit: the change report

`json-patch edit` lets a user change a JSON document through a text editor and
derives an RFC 6902 patch from the edit. When the editor exits, the tool prints
a change report: the line diff between the old and the new patch text,
grouped into hunks with three lines of context. This project models that
report, the only logic of its own the tool has:

- the `Line` gutter cell (`src/main.rs:86-95`). It prints an optional 0-based
  line index as the 1-based line number, left-aligned in a four-character
  field. An absent line prints as four blanks.
- the rendering loop of `edit` (`src/main.rs:143-173`). It prints a divider
  between groups. For every change it prints the two gutters, ` |`, the sign
  of the change, the spans of its text, and a newline when the change lacks
  one.

The line diff library's output is the model's input. It is a sequence of
groups. Each group is a sequence of diff operations, and each operation is
given by the inline changes it expands to (`ChangeReport.Change`: tag, old
and new index, `(emphasized, text)` spans, missing-newline flag).
Terminal styling is dropped. The model states the plain characters printed.

Files:

- `wrappers.dfy`: `Option`.
- `gutter.dfy` (module `Gutter`): decimal printing of line numbers, `{:<4}`
  padding, the `Line` cell, and a reader (`ParseLine`) that reads a cell back.
- `report.dfy` (module `ChangeReport`): the input datatypes, the report as a
  function (`Report`, built group by group like the loop), and the loop itself
  as the method `RenderReport`, with the row of one change as the method
  `RenderChange`. `RenderReport` appends to an output buffer and is
  proved to produce `Report(groups)`.
- `layout.dfy` (module `ReportLayout`): an independent view of the report as a
  sequence of pieces (a divider, or the row of one change). It is proved equal
  to `Report`, and the properties of the report are proved against it.

After a change flagged as missing its newline the code prints one
(`src/main.rs:168-170`), so the model adds it too. A missing patch file is an
error (`src/main.rs:62`, `src/main.rs:109`); the model starts after that point.

## Model

| member | source | states |
|---|---|---|
| `Gutter.Decimal` | src/main.rs:92 | the printed number is a non-empty string of decimal digits with no leading zero |
| `Gutter.DecimalRoundTrip` | src/main.rs:92 | reading back the printed digits gives the number printed |
| `Gutter.DecimalOfValue` | src/main.rs:92 | every digit string without a leading zero is exactly what is printed for its value, so printing is a bijection onto such strings |
| `Gutter.DecimalWidth` | src/main.rs:92 | the printed number fits in k characters if and only if it is below 10^k |
| `Gutter.Line` | src/main.rs:86-95 | a gutter cell is at least four characters wide |
| `Gutter.LineLayout` | src/main.rs:89-94 | an absent line prints as four blanks; line index i prints the digits of i+1 followed by blanks, `max(4, digits)` long, never truncated; the cell is exactly four wide if and only if the line is absent or i+1 <= 9999 |
| `Gutter.LineRoundTrip` | src/main.rs:89-94 | reading a gutter cell back (trailing blanks removed, number minus one) gives the index it was printed from, absent included |
| `ChangeReport.Divider` | src/main.rs:145-147 | the divider line is 80 dashes and a newline |
| `ChangeReport.RenderChange` | src/main.rs:150-170 | the body of the innermost loop (the gutters, a blank and a vertical bar, the sign, each span, a newline when the change lacks one) prints exactly `ChangeText(change)` |
| `ChangeReport.RenderReport` | src/main.rs:143-173 | the loop over groups, operations, changes and spans prints exactly `Report(groups)`; no groups print nothing |
| `ReportLayout.GutterColumns` | src/main.rs:155-158 | cut at the widths of the change's own two cells, the start of its row reads back as its old and its new line index |
| `ReportLayout.MarkColumns` | src/main.rs:150-170 | after the gutters a row has a blank and a vertical bar, then the sign of the change's kind (`-` delete, `+` insert, blank equal), then its span texts, then a newline exactly when the change is flagged as missing one |
| `ReportLayout.RowColumns` | src/main.rs:150-170 | the two lemmas above together: cut at the widths of the change's own two cells, a row reads back column by column as the change it was printed from |
| `ReportLayout.GuttersRunTogether` | src/main.rs:155-159 | the two gutters are printed with no separator, so past 9999 a row no longer determines its line numbers: lines 1111 and 11111 print the same row as lines 11111 and 1111 |
| `ReportLayout.SignColumn` | src/main.rs:150-160 | while both line numbers have at most four digits, the sign sits in column 10 of every row |
| `ReportLayout.SpansTextIgnoresEmphasis` | src/main.rs:161-167 | span lists with the same texts print the same characters, whatever their emphasis flags |
| `ReportLayout.EmphasisInvisible` | src/main.rs:161-167 | a change's row does not depend on which of its spans are emphasized |
| `ReportLayout.OneRowPerChange` | src/main.rs:155-170 | a change whose text holds exactly one newline, at its end, or none when it is flagged as missing one, prints as exactly one line ending in a newline |
| `ReportLayout.OpTextIsRows` | src/main.rs:149-171 | an operation prints the rows of its changes in order |
| `ReportLayout.GroupTextIsRows` | src/main.rs:148-172 | a group prints the rows of its operations' changes in order |
| `ReportLayout.ReportIsPieces` | src/main.rs:144-173 | the report equals the text of its pieces: the first group's rows, then a divider and the rows for each later group |
| `ReportLayout.PiecesContents` | src/main.rs:144-149 | k groups give exactly k-1 dividers (none for no groups), and the rows are those of every change of every group, in input order |
| `ReportLayout.ReportCons` | src/main.rs:144-147 | the report starts with the first group's text with no divider before it, and each later group follows a divider; no groups give an empty report |
| `ReportLayout.ReportLineCount` | src/main.rs:144-170 | assuming every change has the shape `LineShaped` describes (its text holds one newline, at its end, or none when flagged as missing one), the report has one line per change plus k-1 divider lines |

## Left out

- Reading the input and patch files, the temporary directory and scratch file, and writing the patch file (`src/main.rs:33-39`, `57-63`, `100-111`, `175`): file I/O.
- JSON parsing and pretty-printing, and the `json_patch` diff and apply calls (`src/main.rs:40-41`, `64-65`): they belong to external crates. The RFC 6902 semantics they implement are not part of this model.
- The line diff itself (`TextDiff::from_lines`, `grouped_ops(3)`, `iter_inline_changes`): an external crate. Its result is the model's input. `ReportLayout.LineShaped` states what `ReportLayout.OneRowPerChange` and `ReportLayout.ReportLineCount` assume of a change: its text holds one newline at its end, or none when it is flagged as missing one.
- The watch thread, the `notify` channel and `std::thread::scope` (`src/main.rs:113-127`): concurrency. The watcher is dropped at once, so the thread ends at its first `recv`.
- Spawning `vim` and waiting for it (`src/main.rs:130-136`): process control. The `editor` option (`src/main.rs:82-83`) is ignored by the code.
- ANSI styling (`style`, red, green, dim, bold, underlined, on black; `src/main.rs:151-165`): only the characters printed are modelled. The two branches on `emphasized` are kept, and they print the same text.
- CLI parsing and shell completions (`src/main.rs:8-31`, `181-200`).
- Writing to standard output: the report is appended to a string buffer that the method returns. Interleaving with other output is not modelled.
- `ReportLayout.RowColumns`: a row is read back only at the widths of the change's own cells. The code prints the two gutters with no separator, so once a line number has five digits the row no longer determines where the first cell ends (`ReportLayout.GuttersRunTogether`). While both numbers have at most four digits the cut is fixed (`ReportLayout.SignColumn`).
- `Gutter.Line`: `idx + 1` on `usize` is computed on unbounded naturals, because the overflow at `usize::MAX` cannot happen for a line index.
