# Vector-table generator, modelled in Dafny

`tools/vectorTableGenerator.py` turns a datasheet's interrupt-vector listing
into C source. It reads one column of the table found on each page of a
range of pages, skipping each table's header row. It turns every real (non-placeholder)
entry into a C identifier. Then it writes three things:

- one weak alias declaration per real entry;
- the `vectors` array: `STACK_START` first, then `0` for each placeholder
  (`-`) entry and the handler's address for each real entry;
- in skip mode, nothing for the first placeholder when it comes before every
  real entry, because that placeholder is the stack-pointer slot.

The model has six modules:

| file | module | models |
|---|---|---|
| `common.dfy` | `Common` | the `Option` type |
| `sanitizer.dfy` | `Sanitizer` | `sanitize_identifier`: Python's `str.strip` and the substitution of `\W\|^(?=\d)` by `_`, as pure functions |
| `extractor.dfy` | `Extractor` | `extract_column_from_pdf` |
| `dash_skip.dfy` | `DashSkip` | the skip decision inside `generate_c_file` |
| `emitter.dfy` | `Emitter` | the text `generate_c_file` writes |
| `generator.dfy` | `Generator` | `main`'s two guards and the hand-over to the generator |

In `Extractor`, the page range is a specification function (`ColumnEntries`)
and one page's table another (`TableEntries`). The nested loops are methods:
`ExtractColumn` is proved equal to `ColumnEntries`, and `ReadTable` to
`TableEntries`. A document is a sequence of pages. Each page holds
the table detected on it, or `None`. A table is a sequence of rows, a row a
sequence of cells, and a cell an optional string.

`DashSkip` has two parts. The specification is `FirstDash`, `FirstReal` and
`Decide`. The single pass that finds both indices is the method `ResolveSkip`.

In `Emitter`, the file is the sequence of its lines (each written followed by
a newline). The specification is `EmittedLines`. The source's alias loop
(line 39) and element loop (line 70) are `EmitAliases` and `EmitSlots`; its
scan loop (line 55) is `DashSkip.ResolveSkip`; `GenerateCFile` puts
everything in write order.

Sanitizing follows the regular expression exactly; two places a loose
reading gets wrong:

- Every character outside `\w` becomes its own `_`. Runs are not merged.
- A leading digit gets an `_` inserted in front of it, because the
  zero-width alternative `^(?=\d)` matches before it. The digit is kept, not
  replaced.

## Model

| member | source | states |
|---|---|---|
| Sanitizer.Strip | tools/vectorTableGenerator.py:10 | the stripped string is no longer than the input and neither of its ends is whitespace |
| Sanitizer.StripFixesTrimmed | tools/vectorTableGenerator.py:10 | `strip` leaves a string unchanged exactly when neither end is whitespace; stripping twice equals stripping once |
| Sanitizer.StripKeepsInfix | tools/vectorTableGenerator.py:10 | the result is the infix of the input between a prefix made only of whitespace and a suffix made only of whitespace |
| Sanitizer.TrimStartDropsSpaces | tools/vectorTableGenerator.py:10 | removing leading whitespace removes a whitespace-only prefix and keeps the rest |
| Sanitizer.TrimEndDropsSpaces | tools/vectorTableGenerator.py:10 | removing trailing whitespace removes a whitespace-only suffix and keeps the rest |
| Sanitizer.ReplaceNonWord | tools/vectorTableGenerator.py:11 | the `\W` alternative of the substitution; the result has the input's length (its content is stated by `ReplaceNonWordMaps`) |
| Sanitizer.Sanitize | tools/vectorTableGenerator.py:8-12 | definition: the stripped name with `_` inserted before a leading digit and each non-word character turned into one `_` (its properties are stated by the `Sanitize*` lemmas) |
| Sanitizer.ReplaceNonWordMaps | tools/vectorTableGenerator.py:11 | the `\W` alternative keeps the length, keeps every word character in place and puts one `_` in place of each other character |
| Sanitizer.SanitizeShape | tools/vectorTableGenerator.py:8-12 | the result is a C identifier (word characters only, no leading digit); it is the stripped name mapped character by character, with one `_` inserted exactly when the stripped name starts with a digit |
| Sanitizer.SanitizeKeepsIdentifiers | tools/vectorTableGenerator.py:8-12 | a stripped name made of word characters and not starting with a digit comes back unchanged |
| Sanitizer.StripWordChars | tools/vectorTableGenerator.py:10 | `strip` leaves a string of word characters unchanged |
| Sanitizer.SanitizeIdempotent | tools/vectorTableGenerator.py:8-12 | sanitizing twice is sanitizing once |
| Extractor.CellText | tools/vectorTableGenerator.py:25-29 | an empty cell gives the empty string; any other cell gives its stripped text, no longer than the cell; either result is already stripped |
| Extractor.ScanStop | tools/vectorTableGenerator.py:18-20 | one past the last scanned page is the smaller of the requested end page (the page count when none is given) and the page count |
| Extractor.ColumnEntries | tools/vectorTableGenerator.py:18-30 | definition: the entries of the pages from `start_page` up to `ScanStop`, page after page; nothing when the range is empty |
| Extractor.ReadTable | tools/vectorTableGenerator.py:21-29 | the row loop returns the column's cells from every row after the header row that is non-empty and long enough, in row order; it returns nothing when there is no table or the table is empty |
| Extractor.ExtractColumn | tools/vectorTableGenerator.py:14-30 | the page loop returns the entries of pages from `start_page` up to the smaller of the end page (default: the page count) and the page count, page after page |
| Extractor.PagesEntriesSplit | tools/vectorTableGenerator.py:20-29 | splitting the page range splits the result: entries of earlier pages come before those of later pages |
| Extractor.EntriesAreStripped | tools/vectorTableGenerator.py:24-29 | every extracted entry is already stripped, so the generator's own `strip` calls change nothing |
| Extractor.PagesEntriesFrame | tools/vectorTableGenerator.py:20-21 | pages outside a range do not affect the entries read from it |
| Extractor.OnlyScannedPagesMatter | tools/vectorTableGenerator.py:18-21 | two documents with the same page count that agree on the scanned pages yield the same column |
| DashSkip.IsDash | tools/vectorTableGenerator.py:40 | definition: the placeholder test `name.strip() == "-"`, also used at lines 56, 58 and 71 |
| DashSkip.DashMarkIsPlaceholder | tools/vectorTableGenerator.py:40 | the literal `-` is a placeholder entry |
| DashSkip.FirstDash | tools/vectorTableGenerator.py:55-57 | `None` exactly when no entry is a placeholder; otherwise the index of a placeholder with no placeholder before it |
| DashSkip.FirstReal | tools/vectorTableGenerator.py:55-59 | `None` exactly when every entry is a placeholder; otherwise the index of a real entry with only placeholders before it |
| DashSkip.Decide | tools/vectorTableGenerator.py:61-66 | an entry is elided exactly when skip mode is on and the first entry is a placeholder; that entry is index 0, which is the first placeholder |
| DashSkip.ResolveSkip | tools/vectorTableGenerator.py:50-66 | the one-pass scan's flag is set exactly when `Decide` elides an entry, at the index `Decide` names; with skip mode off no index is recorded |
| Emitter.EmittedLines | tools/vectorTableGenerator.py:35-80 | definition: the header comment and a blank line, the alias declarations, a blank line, the array opening, the rendered table, the closing brace and a blank line |
| Emitter.EmitAliases | tools/vectorTableGenerator.py:37-43 | the first loop writes one alias declaration per real entry in order, and counts them |
| Emitter.EmitSlots | tools/vectorTableGenerator.py:68-78 | the last loop writes one element per entry in order, leaving out only the placeholder at the recorded index when skipping |
| Emitter.GenerateCFile | tools/vectorTableGenerator.py:32-82 | the writes give exactly the header, the alias block, the array opening, the stack pointer, the elements and the closing brace; the reported count is the number of identifiers |
| Emitter.AliasLinesFollowIds | tools/vectorTableGenerator.py:39-42 | the k-th alias declaration names the k-th identifier, and there are as many declarations as identifiers |
| Emitter.IdsAppend | tools/vectorTableGenerator.py:39-43 | identifiers are collected entry by entry, without deduplication |
| Emitter.IdsCountRealEntries | tools/vectorTableGenerator.py:37-43 | the reported count is the number of positions holding a real entry |
| Emitter.HandlerIdsMatchAliases | tools/vectorTableGenerator.py:39-78 | whatever is elided, the array references the same handlers, in the same order, as the alias declarations |
| Emitter.SlotsOfAppend | tools/vectorTableGenerator.py:70-78 | the element of each entry depends on that entry alone |
| Emitter.SlotsFollowRetained | tools/vectorTableGenerator.py:68-78 | the elements are those of the entries with the elided one removed, in input order; the array shrinks by one exactly when a placeholder is elided |
| Emitter.InitializerShape | tools/vectorTableGenerator.py:47-78 | the array starts with the stack pointer and has one element per entry, less one when skipping; the rest follows the entries (without the first when skipping) |
| Emitter.SkipModeMatters | tools/vectorTableGenerator.py:54-75 | the skip option changes the output exactly when the first entry is a placeholder |
| Emitter.PairedSlots | tools/vectorTableGenerator.py:70-78 | the four entries dash, A, dash, B (any placeholder, any real A and B) give the elements 0, A, 0, B |
| Emitter.LeadingPlaceholderSkipped | tools/vectorTableGenerator.py:50-78 | for the entries `-`, `-`, A, `-`, B with skip mode on, the array is the stack pointer, 0, A, 0, B |
| Emitter.LeadingPlaceholderKept | tools/vectorTableGenerator.py:66-78 | for the same entries with skip mode off, the array is the stack pointer, 0, 0, A, 0, B |
| Emitter.DatasheetExample | tools/vectorTableGenerator.py:50-78 | for the listing `-`, `-`, `USART1`, `-`, `EXTI0` with skip mode on, the array is the stack pointer, 0, USART1, 0, EXTI0 |
| Generator.Run | tools/vectorTableGenerator.py:94-108 | a missing input aborts; otherwise an empty column aborts; otherwise the output is the generated text for the extracted column, with the skip option on when non-zero |

## Left out

- Reading the PDF (`pdfplumber.open`, `extract_table`) is not modelled. The document is given as the table detected on each page. An exception while opening or parsing is not modelled; the code does not catch one, so it is not an empty result.
- Whether the input path exists (`os.path.exists`) is an input of `Run`.
- Opening and writing the output file is not modelled; the output is its sequence of lines. Write failures are not modelled either.
- The console messages are not modelled. The "Parsed N vectors" count is returned as `vectorsParsed`.
- Argument parsing (`argparse`) is not modelled; `Run` takes the parsed values.
- Sanitizer.IsSpace, Sanitizer.IsWordChar: only the ASCII character classes are modelled. Python's `str.strip` and `\w` also treat non-ASCII whitespace and letters that way; here every non-ASCII character is a non-word, non-space character.
- Extractor.ExtractColumn: the column index and the start page are natural numbers. Python would index from the end for negative values; negative end pages are modelled.
- Detecting identifier collisions is not modelled: the source does not detect them either, and `IdsAppend` shows repeats are kept.
- `gui.py` and the firmware C sources are not part of this model.
