# Map File Parser, modelled in Dafny

The Map File Parser is a small desktop tool. It reads a linker map file and
finds the address-sorted symbol table: the table starts seven lines after the
first line containing `sorted on address` and ends at the first `+---` border
rule after that. It turns every row of the table into a dictionary entry from
variable name to address, then writes the dictionary out in one of three forms:
- a `_variables.txt` listing of `name: value` lines;
- a `_variables.py` stub, a class whose constructor assigns each entry;
- an `_variables.xlsx` spreadsheet.

The project models the application object `MapFileParserApp` and its extractor
`process_map_file`, which is the core:

- `strings.dfy`: the string operations the model needs.
  - whitespace as `str.isspace()` defines it, shared by `\s` and `str.strip()`;
  - `strip()`;
  - substring search, used for the two marker patterns;
  - `join` as the stub exporter's `chr(10).join` (line 115), and `split`,
    which the source never calls and which is used only to state how the
    exports read back line by line.
- `row_pattern.dfy`: a dedicated matcher for the anchored row pattern
  `^\|\s*([0-9a-fA-Fx]+)\s*\|\s*([^|]+)\s*\|`. It is proved equivalent to a
  declarative description of the row shape.
- `symbol_table.dfy`: Python's insertion-ordered `dict`, as a key-order
  sequence plus a map. Assignment replaces the value (last write wins), and a
  key keeps the place of its first insertion.
- `map_file_parser.dfy`: `process_map_file` as a method with the source's
  three loops. It is proved equal to the specification function `Extract`.
  Table start, table stop and the per-row contribution are characterised by
  lemmas.
- `table_properties.dfy`: what the extracted dictionary holds, stated on the
  file's lines:
  - its keys are the names of the rows in the span;
  - each key holds the address of the last row naming it;
  - keys iterate in the order of their first rows;
  - a file without a span yields nothing;
  - nothing extracted contains a newline.
- `exports.dfy`: the text listing (a method with the source's write loop) and
  the Python stub. It is proved how each reads back line by line.
- `app.dfy`: the application state, with the selected path, the path label and
  the selected format. It covers the display truncation of long paths and the
  dispatch of the Go action.
- `worked_examples.dfy`: concrete rows, address padding and a whole file whose
  table is extracted to `{"foo_var": "0x00001000"}`.

The model follows the code as written:
- The row pattern is applied with `re.match` and starts with `^\|`, so a row
  may not begin with whitespace.
- The closing rule is searched from the table start itself, not only after it.
- The class `[0-9a-fA-Fx]` does not contain `X`.

## Model

| member | source | states |
|---|---|---|
| Strings.Strip | src/map_file_parser_final.py:100 | `str.strip()`: the result is the slice of the input after its leading whitespace, everything after it is whitespace, it neither starts nor ends with whitespace, and it is empty exactly when the input is all whitespace |
| Strings.StripPadded | src/map_file_parser_final.py:100 | stripping removes exactly the surrounding whitespace: a core without whitespace at its ends is recovered from any padding |
| Strings.Contains | src/map_file_parser_final.py:87 | the marker search (also line 92) succeeds exactly when the pattern occurs at some index of the line |
| Strings.SplitTerminated | src/map_file_parser_final.py:108 | text made of newline-free lines each followed by a newline splits back into those lines plus an empty remainder |
| Strings.SplitJoin | src/map_file_parser_final.py:115 | `Join` models `chr(10).join`; splitting such a join of newline-free lines gives the lines back |
| RowPattern.Group2 | src/map_file_parser_final.py:78 | group 2 of the pattern is a non-empty suffix of the second cell, free of `|` when the cell is, and strips to the same name as the whole cell |
| RowPattern.MatchRow | src/map_file_parser_final.py:78 | a match starts with `|` at index 0, its group 1 is a non-empty run of `[0-9a-fA-Fx]` and its group 2 holds no `|` |
| RowPattern.MatchRowComplete | src/map_file_parser_final.py:97 | every line of the row shape (`|`, blanks, address, blanks, `|`, non-empty pipe-free cell, `|`, anything) matches, with group 1 the address and group 2 taken from that cell |
| RowPattern.MatchRowSound | src/map_file_parser_final.py:97-98 | every line that matches has the row shape, with the groups returned |
| MapFileParser.PadAddress | src/map_file_parser_final.py:99 | `ljust(10, '0')`: the length is the larger of 10 and the raw length, the raw address is a prefix and every added character is `'0'` (never truncated) |
| MapFileParser.RowEntry | src/map_file_parser_final.py:97-100 | a line contributes an entry exactly when it matches the row pattern, and the stored name holds no `|` |
| MapFileParser.RowEntryOfRow | src/map_file_parser_final.py:97-100 | a row of the table shape stores its second cell, stripped, under its address padded to ten characters |
| MapFileParser.RowEntryOfNonRow | src/map_file_parser_final.py:97-98 | a line without the row shape contributes nothing |
| MapFileParser.FillStep | src/map_file_parser_final.py:101 | `Fill` models the insertion loop over the scanned lines; storing one more line's contribution assigns a row into the dictionary and leaves it unchanged for any other line |
| MapFileParser.FirstContainingIs | src/map_file_parser_final.py:86-94 | the search loops find the first index at or after their start whose line contains the pattern, and find nothing exactly when no such line exists |
| MapFileParser.TableStartIs | src/map_file_parser_final.py:86-89 | `TableStart` models the first loop; the start is 7 past the first line containing `sorted on address` (later occurrences ignored), and 0 when no line contains it |
| MapFileParser.TableStopIs | src/map_file_parser_final.py:91-94 | `TableStop` models the second loop; the stop is the first index at or after the start whose line contains `+---`, and 0 when there is none |
| MapFileParser.ProcessMapFile | src/map_file_parser_final.py:75-102 | the three loops return exactly `Extract(lines)`, the specification of `process_map_file`: the dictionary filled from the rows in `lines[start:stop]`; `Extract` is characterised by the `TableProperties.Extract…` lemmas |
| MapFileParser.StoreRows | src/map_file_parser_final.py:96-101 | the row loop leaves the dictionary filled from the contributions of its lines, in order |
| MapFileParser.StoreRow | src/map_file_parser_final.py:97-101 | one iteration assigns a matching row's name and padded address into the dictionary and leaves it unchanged otherwise |
| SymbolTables.Store | src/map_file_parser_final.py:101 | `d[name] = address`: the value is replaced, a new key is appended to the iteration order, an existing key keeps its place, and the dictionary stays well formed |
| SymbolTables.Items | src/map_file_parser_final.py:127 | `d.items()` lists one pair per key; `ItemsAreEntries` gives their contents and order |
| SymbolTables.ItemsAreEntries | src/map_file_parser_final.py:127 | the listed pairs are exactly the dictionary's entries, each key listed once, and pair `i` holds the `i`-th key of the iteration order, so the spreadsheet rows follow the order `ExtractOrder` states |
| TableProperties.FillKeys | src/map_file_parser_final.py:101 | the keys are exactly the names of the stored entries |
| TableProperties.FillLastWins | src/map_file_parser_final.py:101 | a key's value is the address of the last entry naming it |
| TableProperties.FillOrder | src/map_file_parser_final.py:101 | keys iterate in the order of their first entries |
| TableProperties.ExtractIsSpan | src/map_file_parser_final.py:96 | the extracted dictionary is filled from the lines between table start and stop, and is empty when the span is inverted |
| TableProperties.ExtractKeys | src/map_file_parser_final.py:96-101 | the keys are exactly the names of the matching rows from the table start line itself up to, but not including, the closing rule (`start <= i < stop`); no other line contributes |
| TableProperties.ExtractLastWins | src/map_file_parser_final.py:96-101 | each key holds the padded address of the last matching row in the span that names it |
| TableProperties.ExtractOrder | src/map_file_parser_final.py:96-101 | keys iterate in the order of their first rows in the span |
| TableProperties.NoSpanNoEntries | src/map_file_parser_final.py:83-96 | with no closing rule from the start on, a start past the last line, or a stop not after the start, the dictionary is empty |
| TableProperties.EntryHasNoNewline | src/map_file_parser_final.py:82 | a row read by `readlines()` yields a name and an address without newlines |
| TableProperties.ExtractHasNoNewlines | src/map_file_parser_final.py:82-101 | no key or value of the extracted dictionary contains a newline |
| Exports.TextLines | src/map_file_parser_final.py:107-108 | the listing has one line per key |
| Exports.SaveToTextFile | src/map_file_parser_final.py:104-108 | the write loop produces the text listing: each entry's line followed by a newline, in iteration order |
| Exports.TextFileLines | src/map_file_parser_final.py:107-108 | `TextFile` is the listing the write loop produces; read back line by line, it is exactly one `name: value` line per entry in iteration order, with nothing after the last newline |
| Exports.StubLines | src/map_file_parser_final.py:115 | the stub has one assignment line per key |
| Exports.PythonStubLines | src/map_file_parser_final.py:112-116 | `PythonStub` is the f-string's content; read back line by line, it is an empty line, `class MapVariables:`, the constructor line, one `self.name = 'value'` line per entry in iteration order (one empty line when there are none), with nothing after the last newline |
| ParserApp.DisplayPath | src/map_file_parser_final.py:47-50 | a path of at most 50 characters is shown unchanged; a longer one as `...` and its last 47 characters, 50 in all |
| ParserApp.MapFileParserApp.constructor | src/map_file_parser_final.py:19-30 | a new window has no file, the label `No file selected` and the Python format selected |
| ParserApp.MapFileParserApp.BrowseFile | src/map_file_parser_final.py:44-52 | the chooser's answer becomes the path; a non-empty one is shown in the label, truncated for display, and a cancelled choice leaves the label alone |
| ParserApp.MapFileParserApp.SelectOption | src/map_file_parser_final.py:30-39 | a radio button sets the format and nothing else |
| ParserApp.MapFileParserApp.ParseMapFile | src/map_file_parser_final.py:55-73 | without a path or a format nothing is extracted; otherwise the extracted dictionary is rendered as the listing, the stub or the spreadsheet rows, and an unknown format renders nothing |
| Examples.PadShortAddress | src/map_file_parser_final.py:99 | `"1a2b"` is padded to `"1a2b000000"` |
| Examples.PadLongAddress | src/map_file_parser_final.py:99 | an address of exactly ten characters, `0x00001000`, is kept as it is |
| Examples.FooRow | src/map_file_parser_final.py:97-101 | the row `| 0x00001000 | foo_var |` stores `foo_var` at `0x00001000` |
| Examples.TrimRow | src/map_file_parser_final.py:97-101 | the row `| 1a2b |   my_var   |` stores `my_var` at `1a2b000000` |
| Examples.BlankNameRow | src/map_file_parser_final.py:97-101 | a row whose second cell is only blanks still matches and stores the empty name |
| Examples.HeaderFileStart | src/map_file_parser_final.py:86-89 | in the example file the rows start seven lines past the header line |
| Examples.HeaderFileStop | src/map_file_parser_final.py:91-94 | in the example file the closing rule is found at index 9 |
| Examples.HeaderFileExtract | src/map_file_parser_final.py:75-102 | a header line, seven filler lines, one row and a closing rule extract to `{"foo_var": "0x00001000"}` |

## Left out

- The window, labels, buttons, radio buttons, file chooser and message boxes are not modelled. The chooser's answer and the radio selection are method parameters.
- Opening and reading the map file is not modelled. The extractor takes the file's lines as `readlines()` returns them, and a failure to open the file is not represented.
- Writing the output files is not modelled. The exporters return the text that would be written.
- Output path naming through `os.path.splitext` is not modelled.
- Spreadsheet export through pandas and openpyxl is not modelled beyond its rows: the model returns the `items()` pairs the data frame is built from. Column headers, the workbook and column auto-width are left out.
- A general regular-expression engine is not modelled. The three fixed patterns are written out: two substring searches and a dedicated row matcher.
- Exports.PythonStubLines: only the line structure of the generated stub is stated. Whether it is valid Python (an empty dictionary gives a constructor with no body) and whether names are valid identifiers are not stated.
