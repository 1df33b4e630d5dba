# Differ: a Dafny model of differ.rb

`Differ` is a small Ruby class that compares one base file with one or
more other files, line by line. It aligns the base with each comparison
file by a longest-common-subsequence "sdiff" (from the `diff-lcs` gem). It
then folds each file's alignment into one table, one row per alignment
position, and renders the table as numbered text lines. The class keeps
three things between calls:

- the base file's lines, read once and memoised;
- the table built by the last computation;
- its list of comparison files.

The model follows the class method by method:

| module | file | what it holds |
|---|---|---|
| `Wrappers` | wrappers.dfy | `Option` and `Result` |
| `Text` | text.dfy | `Array#join` and a one-character split, the inverse of `Join`, `String#strip` with Ruby's whitespace set, decimal rendering of line numbers |
| `Entries` | entries.dfy | one sdiff operation (`action`, old line, new line) and `process_diff_line`, which classifies it into a table entry; the rendering of an entry (`join(" ")`) |
| `Accumulation` | accumulation.dfy | the table built from the scripts of all comparison files: `Fold` (the inner loop of `get_diff`) and `Accumulate` (the outer loop) |
| `Rendering` | rendering.dfy | `to_s`'s formatting: `"<n>. <entries joined by ;>"`, lines joined by `"\n"` |
| `Files` | files.dfy | `get_file_data` over a file-system value: stripped lines, or the wrapped failure |
| `Lifecycle` | lifecycle.dfy | the object's state as a value, and `initialize`, `get_diff` and `to_s` as functions on it; the caching, memoisation and failure properties |
| `Differ` | differ.dfy | the class itself: fields updated in place, loops over files and over script positions, each method proved to produce exactly the state and result that `Lifecycle` prescribes |

The file system is a map from names to the file's lines, or to a failure
cause. The sdiff algorithm is a function parameter of type `Aligner`. A
ghost field `loads` records every file name `get_file_data` reads, in order.
These are the names that the "Loading ..." debug lines print.

Some behaviour of the class is easy to misread; the model follows the code:

- A changed line is tagged `*`, not `!`. Its text is `"<old>|<new>"`.
- A row of the table holds one entry for each comparison file whose script
  reaches that position, in file order. It holds nothing for the others.
  Rows are therefore jagged, with no fixed slot per file.
- An unknown sdiff action produces the entry `'? possible diff-lcs bug ?'`.
  It does not raise an error.
- A matching line has the empty tag, so it renders with a leading space
  (`"1.  a"`).
- A comparison file that cannot be read raises after `@total_diff` was
  reset. The rows of the files read before it stay in `@total_diff`. When
  at least one row was built, a later unforced call returns them as if
  they were the full table; when the first comparison file fails, the
  table is empty and the next call recomputes.
- The memo `@data` is filled only by an unforced read. A forced reload
  reads the base again but does not update the memo.

## Model

| member | source | states |
|---|---|---|
| `Lifecycle.Initialize` | differ.rb:14-23 | fails with "At least two files should be specified" exactly when fewer than two names are given; otherwise the first name is the base, `@files` holds the rest (the `shift` acts on the stored array), the memo is empty, the table is empty and nothing was read |
| `Differ.Differ.constructor` | differ.rb:14-23 | the object's fields equal the state `Initialize` prescribes, with at least one comparison file |
| `Differ.New` | differ.rb:14-15 | a fresh object exactly when at least two names are given, else the argument error message |
| `Files.ReadLines` | differ.rb:67-74 | succeeds exactly when the file exists and is readable, and then line `k` of the result is the file's line `k` stripped, so no line begins or ends with whitespace; a failure names the file |
| `Text.Strip` | differ.rb:71 | the result is an infix of the line with only whitespace cut off either side, and neither of its ends is whitespace |
| `Text.StripIdempotent` | differ.rb:71 | stripping a stripped line changes nothing |
| `Differ.Differ.GetFileData` | differ.rb:67-74 | records the file name in the read log and returns exactly `ReadLines` |
| `Entries.ProcessDiffLine` | differ.rb:76-87 | the entry is the placeholder exactly when the action is none of `!`, `-`, `+`, `=`; otherwise its tag is one of `""`, `*`, `-`, `+` |
| `Entries.ClassifyRoundTrip` | differ.rb:76-87 | for every operation of the shapes sdiff produces, provided neither side of a change contains the bar character that separates them, the entry determines the operation: `Unclassify` recovers it; otherwise the `*` entry is ambiguous |
| `Entries.UnknownActionIsPlaceholder` | differ.rb:84-85 | the placeholder an unknown action gives recovers no operation: the action is not carried into the table |
| `Entries.RenderedChange` | differ.rb:76-87 | how each kind of operation renders: `" old"`, `"* "`, the old line, a bar and the new line, `"- line"` / `"+ line"` with the first non-nil side, and the placeholder text |
| `Accumulation.MaxLen` | differ.rb:38-39 | bounds the length of every script and equals the length of one of them, or is 0 |
| `Accumulation.Longer` | differ.rb:35-40 | the indices of exactly the scripts that reach a position, in increasing order |
| `Accumulation.AccumulateByColumns` | differ.rb:34-42 | the table has as many rows as the longest script, and row `i` is the column of `i`-th entries of the scripts that reach `i` |
| `Accumulation.ColumnExact` | differ.rb:38-40 | row `i` holds, in file order, exactly the classified `i`-th operation of each script longer than `i` |
| `Accumulation.ColumnBeyond` | differ.rb:38-40 | no script reaches a position past the longest one, so no entry is made there |
| `Accumulation.TableShape` | differ.rb:38-40 | there are as many rows as the longest script, and no row is empty (a row is created only to take an entry) |
| `Accumulation.AppendScript` | differ.rb:35-42 | folding one more script keeps every earlier row as a prefix and appends that script's `i`-th entry at the end of row `i`; each row gains exactly one entry where the script reaches it and none elsewhere |
| `Accumulation.SingleScript` | differ.rb:34-42 | with one comparison file, each row holds that file's single entry |
| `Accumulation.SelfComparison` | differ.rb:34-42 | comparing a file with itself (all-match script) gives one untagged row per line carrying that line |
| `Accumulation.SidesBounded` | differ.rb:36 | neither side of a script has more lines than the script has operations |
| `Accumulation.TableCoversInputs` | differ.rb:34-42 | for scripts whose old side is the base and whose new side is each comparison file, the table has at least as many rows as any of those files has lines |
| `Differ.Differ.FoldScript` | differ.rb:38-41 | the inner loop leaves exactly `Fold` of the old table and the script: it appends to rows that exist and creates the next row when they do not |
| `Differ.Differ.Rebuild` | differ.rb:34-44 | the outer loop leaves exactly the table, read log and failure of the step-by-step specification `RebuildFrom`, started on an empty table |
| `Lifecycle.RebuildMatchesCompare` | differ.rb:34-44 | the step-by-step loop yields the table of all scripts it collected, reads exactly the files it attempted, and stops with the first failure |
| `Lifecycle.GetDiffRebuilds` | differ.rb:32-44 | when `get_diff` recomputes and the base is readable, its state and result are those of the step-by-step loop |
| `Differ.Differ.BaseFile` | differ.rb:20 | the memoising lambda: returns the memo when set; otherwise reads the base and stores it only on success |
| `Differ.Differ.GetDiff` | differ.rb:29-45 | the new fields and the result are exactly those of `Lifecycle.GetDiff` on the old fields; an empty table always leads to at least one more file read |
| `Differ.Differ.ToS` | differ.rb:51-58 | the new fields and the result are exactly those of `Lifecycle.ToS` on the old fields |
| `Lifecycle.CachedTableReturned` | differ.rb:29-30 | a non-empty stored table is returned and rendered unchanged without a forced reload: nothing is read and nothing changes, whatever the files now hold |
| `Lifecycle.EmptyTableRecomputed` | differ.rb:30-32 | an empty table is always recomputed: at least one more file is read |
| `Lifecycle.CompareAllReadable` | differ.rb:35-36 | when every comparison file is readable, the loop aligns each of them in order |
| `Lifecycle.ForcedReloadReadsAfresh` | differ.rb:30-44 | a forced reload with readable files gives the table of the fresh scripts, reads the base and then every comparison file once each, and leaves the memo alone |
| `Lifecycle.MemoisedBaseReused` | differ.rb:20-32 | an unforced recompute compares against the memoised base and does not read the base file again |
| `Lifecycle.MemoFilledOnlyUnforced` | differ.rb:20-32 | the first unforced read of a readable base fills the memo; a forced read never does |
| `Lifecycle.BaseFailureKeepsTable` | differ.rb:32-34 | an unreadable base raises before `@total_diff` is reset, so the stored table and the memo survive |
| `Lifecycle.CompareStopsAt` | differ.rb:35-36 | the loop stops at the first unreadable file, having aligned every file before it |
| `Lifecycle.PartialTableAfterFailure` | differ.rb:30-42 | whether or not the base comes from the memo, an unreadable comparison file raises and leaves the table of the files before it; when that table is not empty, a later unforced call returns it as cached |
| `Lifecycle.ToSRendersGetDiff` | differ.rb:51-58 | `to_s` leaves the state `get_diff` leaves, and it renders `get_diff`'s table or passes on its error |
| `Rendering.RowNewlineFree` | differ.rb:54-56 | a rendered row contains no newline when its entries contain none |
| `Rendering.RenderLines` | differ.rb:54-57 | for a non-empty table whose symbols and texts hold no newline, splitting the output at newlines gives back one line per row; each line starts with its row number and `". "`, and the number reads back as that row's 1-based index |
| `Rendering.RenderEmpty` | differ.rb:54-57 | an empty table renders as the empty string |
| `Rendering.ChangedMiddleLine` | differ.rb:36-57 | the script aligning base lines `a b c` with `a x c` renders as three lines: `1.` then two spaces and `a`; `2. * ` then `b`, a bar and `x`; `3.` then two spaces and `c` |
| `Rendering.ShorterScriptLeavesNoEntry` | differ.rb:38-40 | a file whose script is shorter contributes nothing to later rows: base `a` with `a b` and with `a` gives a second row holding only `+ b` |
| `Text.SplitJoin` | differ.rb:57 | joining a non-empty list of lines free of the separator and splitting at it gives the lines back |
| `Text.ParseNatToString` | differ.rb:56 | the decimal rendering of a row number reads back as that number |
| `Text.NatToStringInjective` | differ.rb:56 | different row numbers render differently |

## Left out

- `Diff::LCS.sdiff` is not part of this model. It is a function parameter, and nothing is assumed about it, so no property depends on its optimality.
- Each operation's positions in the two files (`line1.first`, `line2.first`) are not modelled. `process_diff_line` uses only `.last`.
- `File.readlines` and `puts` are not modelled as I/O. A file is a map entry that holds its lines or a failure cause. The "Loading ..." output is the ghost read log `loads`.
- The operating system's error message is kept as an opaque `cause` of the failure. `Files.Message` builds the text `"Unable to process <file>:\n<cause>"` that `get_file_data` raises, but no property is stated about it.
- `inspect` is not modelled, because it prints only the class name and the Ruby `object_id`.
- The table that `get_diff` returns is the same array as `@total_diff`, so a caller could mutate it. The model returns a value and does not capture that aliasing.
- The `@base_file` lambda is a closure over the object. The model replaces it with the `data` field and the `BaseFile` method.
- The options hash is reduced to the one key it is read for, `force_reload`. Any truthy value counts as `true`.
- `Text.Strip` treats a string as a sequence of characters. It does not model encodings or invalid byte sequences.
