# Sentiment shift for Bitget data files — a Dafny model

`shift_sentiment_bitget.py` is a one-shot maintenance script. It:

- reads the asset registry `activos.txt`, whose lines are `symbol:source:name`, and keeps the symbols whose source is exactly `bitget`;
- walks the working directory, and for every file named `<SYMBOL>_datos.txt` whose symbol (the text before the first `_`) is one of those symbols:
  - copies the file into a timestamped backup folder;
  - loads it as a tab-separated table and strips the whitespace around every column name;
  - if any of the four sentiment columns `vader`, `finbert`, `sentiment_ratio`, `sentiment_combined` is absent, warns and leaves the file alone;
  - otherwise moves those four columns up by one row (each row takes the next row's sentiment, and the last row's becomes missing), then writes the table back over the same file.

The model has five modules:

- `Text` covers the three Python string operations the script relies on: `str.strip()` with Python's whitespace set, `str.endswith`, and `split(sep)[0]`.
- `Frame` is the per-file step. Tables are column-major with opaque cells, and a cell is either a parsed value or missing (pandas' NaN). It defines the header strip, the missing-column check, pandas' `shift(-1)` and their composition `Transform`.
- `Registry` is the filter over the registry lines.
- `Selection` is the file-name test.
- `Driver` is the directory loop. It is written as a trace of file effects: `Backup`, then `Warn` or `Write`. The loop is an imperative method checked against a recursive reference definition. The loop is generic in its per-file step, so its ordering and final-state facts hold for any step. `ScriptFinalState` then instantiates the loop with the registry filter and `Transform`.

Some consequences of the code, rather than of the prose around it, are made explicit:

- The symbol list is an ordered list that can hold duplicates, not a set.
- A file that is rewritten comes back with stripped column names.
- A registry symbol containing `_` can never select a file (`Selection.UnderscoreSymbolNeverMatches`).
- A file with all four sentiment columns is rewritten even when it has no rows or one row.

## Model

| member | source | states |
|---|---|---|
| Text.IsSpace | shift_sentiment_bitget.py:46 | The characters `str.strip()` removes are Python's `str.isspace` code points; on ASCII this set is CPython's table (stated by Text.AsciiSpace). |
| Text.AsciiSpace | shift_sentiment_bitget.py:46 | Below 0x80 a character is whitespace iff it is tab, line feed, vertical tab, form feed, carriage return, one of the four information separators, or the space. |
| Text.Strip | shift_sentiment_bitget.py:46 | The stripped name is a contiguous piece of the name, with no whitespace at either end, and everything removed on either side is Python whitespace. |
| Text.StripUnique | shift_sentiment_bitget.py:46 | Whitespace, then an unpadded middle, then whitespace always strips to exactly that middle. |
| Text.StripIdempotent | shift_sentiment_bitget.py:46 | Stripping an already stripped name changes nothing. |
| Text.EndsWith | shift_sentiment_bitget.py:35 | `str.endswith`: the name's tail equals the suffix (its meaning as "something followed by the suffix" is Text.EndsWithJoin). |
| Text.EndsWithJoin | shift_sentiment_bitget.py:35 | A name ends with a suffix iff it is some prefix followed by exactly that suffix. |
| Text.FirstField | shift_sentiment_bitget.py:36 | `split('_')[0]` is a prefix of the name that holds no `_` and stops either at the first `_` or at the end of the name. |
| Text.FirstFieldOfJoin | shift_sentiment_bitget.py:36 | For any head without `_`, `head + "_" + tail` yields exactly that head, whatever the tail. |
| Frame.StripHeader | shift_sentiment_bitget.py:46 | Every column name is replaced by its stripped form; column order, column count, row count and all cells are kept. |
| Frame.MissingFrom | shift_sentiment_bitget.py:49 | The result lists exactly the wanted names that are absent from the header, and is no longer than the wanted list. |
| Frame.AbsentPositions | shift_sentiment_bitget.py:49 | The positions of the absent wanted names: increasing, each absent, and every absent position among them. |
| Frame.MissingFromInOrder | shift_sentiment_bitget.py:49 | The k-th reported name is the wanted name at the k-th absent position, so the report follows the order of the wanted list and lists each absent position once. |
| Frame.MissingColumns | shift_sentiment_bitget.py:20-50 | A name is reported iff it is one of the four sentiment columns and not in the header; the report is empty iff all four are present. |
| Frame.SentimentColumnsDistinct | shift_sentiment_bitget.py:20 | The four sentiment names are pairwise different. |
| Frame.MissingColumnsInOrder | shift_sentiment_bitget.py:20-51 | The warning lists the absent sentiment columns in the order the script declares them, with no name repeated. |
| Frame.ShiftUp | shift_sentiment_bitget.py:55 | `shift(-1)`: the length is kept, row i gets row i+1's value, and the last row becomes missing. |
| Frame.ShiftSentiment | shift_sentiment_bitget.py:55 | The shape and header are kept, every non-sentiment column is unchanged, and every sentiment column moves up one row with a missing last cell. |
| Frame.ShiftUpRoundTrip | shift_sentiment_bitget.py:55 | The backed-up first row plus the shifted column, minus its last cell, gives back the original column. |
| Frame.ShiftRowView | shift_sentiment_bitget.py:54-55 | Read row by row, each row takes its sentiment cells from the next row (missing after the last row) and all other cells from itself. |
| Frame.ShiftExample | shift_sentiment_bitget.py:55 | A three-row column v1, v2, v3 becomes v2, v3, missing. |
| Frame.StrippedHeaderHas | shift_sentiment_bitget.py:46-49 | A name is in the stripped header iff some original column name strips to it. |
| Frame.StripPlain | shift_sentiment_bitget.py:46 | A column name with no surrounding whitespace is left as it is. |
| Frame.ExactNameFound | shift_sentiment_bitget.py:20-49 | A column named exactly as the script spells a sentiment name is found by the check after the strip. |
| Frame.Transform | shift_sentiment_bitget.py:46-58 | A skip reports a non-empty list of sentiment columns the file lacks. A rewrite keeps the row count, the column count and rectangularity. The full characterisation is Frame.TransformSkips and Frame.TransformRewrites. |
| Frame.TransformSkips | shift_sentiment_bitget.py:46-52 | A file is skipped iff some sentiment column is absent after the strip, and the warning names exactly the absent columns. |
| Frame.TransformRewrites | shift_sentiment_bitget.py:46-58 | On a rewrite, the row count is kept and names are stripped in place. Columns whose stripped name is not a sentiment name keep every cell. Sentiment columns become `ShiftUp` of the original cells. |
| Registry.OnBitget | shift_sentiment_bitget.py:24 | A registry line passes the filter only when its source is exactly "bitget": a line with no source field never passes, and neither does "Bitget" or " bitget". |
| Registry.BitgetSymbols | shift_sentiment_bitget.py:23-24 | A value is among the kept symbols iff some registry line whose source is exactly "bitget" carries it. |
| Registry.BitgetRows | shift_sentiment_bitget.py:24 | The registry lines kept by the filter: increasing, all with source "bitget", and including every such line. |
| Registry.BitgetSymbolsInOrder | shift_sentiment_bitget.py:24 | The k-th kept symbol is the symbol of the k-th "bitget" line, so the list keeps registry order and duplicates. |
| Selection.DataFileSymbol | shift_sentiment_bitget.py:35-36 | A name ending in `_datos.txt` always has a `_` right after its symbol, so the symbol comes before the suffix. |
| Selection.Selected | shift_sentiment_bitget.py:35-37 | A selected name's symbol is in the list and ends at an `_` that comes before the `_datos.txt` suffix. |
| Selection.UnderscoreSymbolNeverMatches | shift_sentiment_bitget.py:36-37 | No file name's symbol equals a symbol that holds an `_`. |
| Selection.DataFileOfSymbol | shift_sentiment_bitget.py:35-37 | For a symbol without `_`, `<symbol>_datos.txt` is processed iff the symbol is in the list. |
| Selection.SelectedByRegistry | shift_sentiment_bitget.py:23-37 | A file is processed iff its name ends in `_datos.txt` and some "bitget" registry line carries its symbol. |
| Driver.Report | shift_sentiment_bitget.py:50-58 | The second action for a file names that file, is never a backup, and is a warning iff the transform skipped the file. A warning carries the missing-column list and a write carries the transformed table. |
| Driver.ProcessFile | shift_sentiment_bitget.py:37-58 | One turn does nothing iff the name is not selected. Otherwise it backs up the file's current content, then reports on the same file: a warning iff the step skips it. |
| Driver.Run | shift_sentiment_bitget.py:34-42 | Every action concerns a selected file, backups sit exactly at the even positions, and the trace has even length. |
| Driver.RunPrefix | shift_sentiment_bitget.py:34 | Processing a prefix of the listing produces a prefix of the trace. |
| Driver.RunCovers | shift_sentiment_bitget.py:37-58 | Each selected entry gets a backup of its current content, immediately followed by its warning or write. |
| Driver.BackupPrecedes | shift_sentiment_bitget.py:40-58 | Every warning or write is immediately preceded by a backup of the same file. |
| Driver.ActionOrigin | shift_sentiment_bitget.py:34-58 | Every action comes from the turn of a listed entry with that file name. |
| Driver.SkippedNeverWritten | shift_sentiment_bitget.py:49-52 | In a directory, a file the step skips is never written. |
| Driver.DirMap | shift_sentiment_bitget.py:34 | The directory as a map has exactly the listed names as keys, each mapped to its content. |
| Driver.ReplayRunUntouched | shift_sentiment_bitget.py:34-37 | A file that no listed entry names is neither created nor changed by the run. |
| Driver.ReplayRunAt | shift_sentiment_bitget.py:34-58 | A listed file ends up as its own turn left it. |
| Driver.ReplayProcessFile | shift_sentiment_bitget.py:50-58 | One turn changes the working directory only on a rewrite, and then only that file. |
| Driver.RunFinalState | shift_sentiment_bitget.py:34-58 | After the run, the set of files is unchanged; a rewritten file holds the transformed table; every other file keeps its content. |
| Driver.RunStep | shift_sentiment_bitget.py:34-58 | One more listed entry extends the trace by that entry's turn and adds that turn's write to the files. |
| Driver.VisitFile | shift_sentiment_bitget.py:35-58 | The loop body appends exactly the entry's backup and report to the trace, and updates the files only on a rewrite. |
| Driver.ProcessDirectory | shift_sentiment_bitget.py:34-59 | The imperative loop produces exactly the reference trace `Run` and the files that trace leaves behind. |
| Driver.ScriptFinalState | shift_sentiment_bitget.py:19-59 | The whole script: each file is shifted iff it was selected through the "bitget" registry lines and had all four sentiment columns; otherwise it keeps its content. |

## Left out

- Parsing and writing of files (`read_csv` with `:` and tab separators, `to_csv`) are left out; the model starts from parsed tables and ends with tables. Left out with them are dtype inference (an all-numeric symbol column becomes integers and never equals a file-name string), the integer-to-float change that `shift` causes, number formatting and quoting on output, and the error that pandas raises on an empty or malformed file.
- Filesystem effects are abstract actions: `os.listdir` order is taken as given, and `makedirs`, `copy2` metadata and what a directory named like a data file would do are not modelled.
- The timestamped backup folder name depends on the clock, so it is not modelled. A backup records only the file name and its content.
- The progress messages ("Procesando …", "Archivo actualizado …") are not modelled. The missing-column warning is modelled as `Warn` with its list.
- I/O failures that would abort the script (unreadable file, failed copy or write) are not modelled. Every turn is assumed to complete.
- Duplicate column names are not modelled as pandas handles them. `read_csv` renames duplicates with `.1` suffixes, and a header strip that creates duplicates would make pandas select several columns for one name. The model shifts every column whose stripped name is a sentiment name.
- Driver.RunFinalState, Driver.ReplayRunAt, Driver.SkippedNeverWritten: assume distinct entry names, as a directory listing has.
- Frame.TransformRewrites: states that cells outside the sentiment columns are equal as parsed cells. Byte-for-byte equality of the file is not claimed, because the whole file is re-serialised.
