# BatchRename in Dafny

A model of the logic of `BatchRename.py`, a small Tkinter tool that renames
the images of one folder in bulk. The user picks a folder. The tool lists
its image files in sorted order, one row per file, each with a "new name"
field. The user types names or pastes them one per line from the clipboard.
"▶ START RENAME" then renames each file to the typed base name followed by the
file's old extension.

The modules follow the parts of the program:

- `Options`: the `Option` datatype, used for an unreadable folder or clipboard and for the duplicate warning.
- `SeqFacts`: general facts about splitting sequences.
- `PyStr`: the parts of Python's `str` and `os.path` that the program relies on:
  - `isspace`, `strip` and `splitlines`;
  - `lower` and `endswith`;
  - code-point string order, which is what `list.sort` uses on `str`;
  - `os.path.splitext` on a bare file name.
- `Validator`: `on_change`, the live counter and the "Invalid Char!" check on the nine forbidden Windows characters.
- `Scanner`: `load_images_thread`:
  - keep the names whose lower-cased form ends in `.png`, `.jpg`, `.jpeg`, `.gif`, `.bmp` or `.webp`;
  - sort them;
  - number them 1..N.
- `Rows`: one entry of `image_list` and what writing its field does; the row list produced by `create_row`, `paste_names` and `clear_inputs`.
- `Batch`: `rename_all` as pure functions:
  - `Inputs` and the duplicate pre-check;
  - `Step`, one pass of the loop body on one row against the folder;
  - `Run`, the loop over the list in order, threading the folder and the two counters.
- `App`: the stateful layer:
  - `Folder`, a class for the directory;
  - `BatchRenameApp`, a class whose `imageList` field the buttons update in place.

  The methods are proved against the functions of `Rows`, `Scanner` and `Batch`. `RenameEach` is the loop itself, with its invariant.

The folder is the set of names it holds. `os.path.exists` is true for these
names and for "." and "..". `os.rename` raises when the source is missing or
when the environment refuses the pair of names; the refused pairs are a
parameter (`refused`) standing for permissions, locks and names the file
system rejects. With the environment made explicit, the whole batch is a
function of the rows, the folder and `refused`.

The model follows the code in these points, where a different behaviour
could be expected:

- A duplicate among the trimmed candidates aborts the whole batch. A warning is shown, no row is touched, nothing is counted, and no summary is shown (`RenameAll` returns `None`). The colliding rows are not rejected one by one, and they are not counted as errors.
- The duplicate check looks at every non-empty trimmed candidate, including those with a forbidden character.
- A candidate with a forbidden character is skipped silently during the batch. It is not counted as an error, and its row's status is not changed by the batch (`StepContract`, `RunTotals`).
- A candidate whose full name equals the current name is skipped before the existence check.
- There is no scan generation or cancellation. In the model, `BrowseFolder` clears the list and then appends the rows of the new folder only; what the source does with records of an earlier folder that are still queued is listed under "## Left out".

## Model

| member | source | states |
|---|---|---|
| Validator.AnyInvalid | BatchRename.py:206 | true exactly when some character of the text is one of `\ / : * ? " < > \|` |
| Validator.OnChange | BatchRename.py:202-211 | the counter is the length of the raw, untrimmed text; the invalid flag is raised iff some character is forbidden, and cleared iff none is |
| PyStr.LStrip | BatchRename.py:244 | the result is a suffix of the input, starts with no whitespace, and everything removed is whitespace |
| PyStr.RStrip | BatchRename.py:244 | the result is a prefix of the input, ends with no whitespace, and everything removed is whitespace |
| PyStr.Strip | BatchRename.py:244 | the result is no longer than the input, and a non-empty result has no whitespace at either end |
| PyStr.StripSlice | BatchRename.py:244 | the stripped text is the contiguous piece of the input starting after the leading whitespace |
| PyStr.StripSurround | BatchRename.py:244 | everything before and after that piece is whitespace |
| PyStr.StripChars | BatchRename.py:244 | every character of the stripped text occurs in the input |
| PyStr.StripIdempotent | BatchRename.py:244-258 | stripping twice is stripping once, so a pasted line, already stripped, is its own trimmed candidate in the pre-check |
| PyStr.StripEmptyIff | BatchRename.py:258 | the stripped text is empty iff the text is all whitespace, so such a candidate is left out of `inputs` |
| PyStr.LineEnd | BatchRename.py:244 | the first line ends at the first line boundary, which holds no boundary before it |
| PyStr.NextLine | BatchRename.py:244 | the next line starts after the boundary, which is one boundary character, or two exactly when it is `\r\n` |
| PyStr.IsLineBreak | BatchRename.py:244 | the boundaries `str.splitlines` recognises: `\n`, `\v`, `\f`, `\r`, `\x1c`-`\x1e`, `\x85`, U+2028, U+2029 |
| PyStr.SplitLines | BatchRename.py:244 | `splitlines` gives no lines exactly for the empty text, and no line contains a line-boundary character |
| PyStr.LineEndAfter | BatchRename.py:244 | a boundary-free text in front of a boundary, or of nothing, is exactly the first line |
| PyStr.SplitLinesOne | BatchRename.py:244 | a non-empty text without boundaries is the single line it holds |
| PyStr.SplitLinesCons | BatchRename.py:244 | every separator ends a line (one boundary other than `\r`, `\r\n`, or a `\r` not followed by `\n`): line, separator, rest split as the line followed by the lines of the rest; with `SplitLinesOne` this fixes the lines of every text |
| PyStr.DropBreaksAppend | BatchRename.py:244 | removing boundary characters distributes over concatenation |
| PyStr.DropBreaksStep | BatchRename.py:244 | removing boundaries keeps the first line and drops the boundary after it |
| PyStr.SplitLinesKeepsText | BatchRename.py:244 | `splitlines` loses no text: its lines concatenated are the input with exactly the boundary characters removed |
| PyStr.IsSpace | BatchRename.py:244-264 | the characters `str.strip()` removes: `\t`, `\n`, `\v`, `\f`, `\r`, `\x1c`-`\x1f`, space, and the Unicode spaces `\x85`, `\xa0`, U+1680, U+2000-U+200A, U+2028, U+2029, U+202F, U+205F, U+3000 |
| PyStr.Lower | BatchRename.py:147 | `str.lower()` on each character, mapping `A`-`Z` to `a`-`z` |
| PyStr.EndsWith | BatchRename.py:147 | `str.endswith`: the suffix is the last characters of the text |
| PyStr.StrLe | BatchRename.py:148 | `<=` on `str`: one name is a prefix of the other, or is smaller at the first character where they differ, by code point |
| PyStr.StrLeTotal | BatchRename.py:148 | any two names are ordered one way or the other |
| PyStr.StrLeAntisymmetric | BatchRename.py:148 | names ordered both ways are equal |
| PyStr.StrLeTransitive | BatchRename.py:148 | the order is transitive |
| PyStr.LastDot | BatchRename.py:272 | the index of the last '.' in the name, or -1 when there is none |
| PyStr.SplitExt | BatchRename.py:272 | the stem and extension concatenate to the name; a non-empty extension is one '.' and no further dot, after a stem that is not all dots; an empty extension means every dot of the name follows only dots |
| PyStr.ExtensionKept | BatchRename.py:270-274 | appending a single-dot extension to a stem that is not all dots gives a name whose extension is exactly that extension |
| Scanner.IsImageName | BatchRename.py:147 | the lower-cased name ends in one of the six image suffixes |
| Scanner.ImageNames | BatchRename.py:147 | the comprehension keeps only image names, and each image name as many times as the listing has it |
| Scanner.Insert | BatchRename.py:148 | inserting into an ascending list keeps it ascending and adds exactly the one name |
| Scanner.SortNames | BatchRename.py:148 | `files.sort()` gives an ascending permutation of the names |
| Scanner.SortedUnique | BatchRename.py:148 | two ascending lists holding the same names are equal |
| Scanner.RecordsOf | BatchRename.py:149-154 | record i has id i+1, the i-th sorted name and the path of that name in the folder |
| Scanner.ScanRecords | BatchRename.py:145-156 | a folder that cannot be listed queues nothing; otherwise the ids run 1..N and each path is the folder joined with the record's name |
| Scanner.ScanRecordsContents | BatchRename.py:145-156 | the queued names are image names only, in ascending order, and include every image name of the listing with its multiplicity |
| Scanner.ScanDeterministic | BatchRename.py:147-148 | two listings of the same names, in any order, give identical records |
| Scanner.Scan | BatchRename.py:145-156 | the loop's queued records are exactly `ScanRecords` of the folder |
| Rows.NewRows | BatchRename.py:215-221 | one row per record, in order, with the record's name and path, an empty field, a counter at 0 and a blank status |
| Rows.Edited | BatchRename.py:202-211 | writing a field keeps the file, stores the text, sets the counter to its length, and shows "Invalid Char!" iff a forbidden character is present and a blank status otherwise |
| Rows.CleanLines | BatchRename.py:244 | cleaning never yields more lines than it was given |
| Rows.CleanLinesFrom | BatchRename.py:244 | every kept line is the non-blank stripped form of some input line |
| Rows.CleanLinesTrimmed | BatchRename.py:244 | every kept line is non-blank with no whitespace at either end |
| Rows.CleanLinesAppend | BatchRename.py:244 | cleaning works line by line, keeping order across a concatenation |
| Rows.CleanLine | BatchRename.py:244 | a single line is kept, stripped, exactly when it is not blank |
| Rows.StripKeepsNoBreaks | BatchRename.py:244 | stripping a line without boundaries leaves none |
| Rows.PasteLines | BatchRename.py:244 | every pasted name is non-blank and trimmed |
| Rows.CleanLineNoBreaks | BatchRename.py:244 | a kept line of boundary-free lines has no boundary |
| Rows.PasteLinesNoBreaks | BatchRename.py:244 | no pasted name spans a line boundary |
| Rows.Pasted | BatchRename.py:245-247 | row i gets line i when both exist, as an edit, so its counter and its "Invalid Char!" or blank status are those of `Edited`; surplus lines are ignored; later rows are unchanged; no row changes its file |
| Rows.Cleared | BatchRename.py:250-251 | every field is emptied, every counter is 0 and every status is blank, while the files stay |
| Rows.ClearAfterPaste | BatchRename.py:242-251 | clearing after a paste equals clearing without it |
| Batch.PathExists | BatchRename.py:279 | `os.path.exists` of a name in the folder: one of its names, or "." or ".." |
| Batch.RenameSucceeds | BatchRename.py:283-292 | `os.rename` returns normally iff the source is in the folder and the environment does not refuse the pair |
| Batch.Target | BatchRename.py:270-274 | the new name is the trimmed candidate followed by the extension of the current name |
| Batch.Skips | BatchRename.py:264-276 | the three silent skips: a blank candidate, a forbidden character, or a target equal to the current name |
| Batch.Step | BatchRename.py:264-292 | one iteration on one row against the folder, characterised by `StepContract` |
| Batch.StepContract | BatchRename.py:263-292 | per row: skipped iff the candidate is blank, has a forbidden character, or gives the current name, and then nothing changes; "File Exists!" iff not skipped and the target exists; renamed iff not skipped, the target is absent and `os.rename` succeeds (`RenameSucceeds`), and then the folder, path, name and status are updated; an exception gives "Error"; the field and counter never change; the folder keeps its size |
| Batch.TargetKeepsExtension | BatchRename.py:270-274 | when the file had an extension and the candidate is not all dots, the new name has the same extension |
| Batch.LeadingDotNameLosesSuffix | BatchRename.py:272-274 | a file whose every dot has only dots before it (".png", "..jpg") has no extension by `splitext`, so its new name is the trimmed candidate with no suffix at all |
| Batch.Run | BatchRename.py:263-292 | the loop yields one row per row |
| Batch.RunAt | BatchRename.py:263-292 | row i after the loop is the step of row i against the folder left by rows 0..i-1 |
| Batch.RunPrefixStep | BatchRename.py:263-292 | running rows 0..i equals running rows 0..i-1 and then one step on row i |
| Batch.ProgressStep | BatchRename.py:263-292 | the loop invariant of `rename_all` survives one iteration |
| Batch.ProgressDone | BatchRename.py:263-294 | at the end of the loop the list, folder and counters are those of the whole run |
| Batch.RunLeavesSkipped | BatchRename.py:264-276 | a row that the batch skips comes out unchanged |
| Batch.RunKeepsFields | BatchRename.py:263-292 | the batch never changes a field, a counter or a directory; a status either stays or becomes one of the three outcome labels |
| Batch.RunRenamedRow | BatchRename.py:283-289 | a row whose name changed was renamed to its target in its own directory, is not a skip, and reads "Success" |
| Batch.RunKeepsFileCount | BatchRename.py:283 | the folder holds as many names after the batch as before |
| Batch.RunWithoutRenameKeepsFolder | BatchRename.py:263-292 | a batch that renamed nothing leaves the folder as it was |
| Batch.RunNewNamesAreTargets | BatchRename.py:283-289 | every name new to the folder is the name of some row marked "Success" |
| Batch.Inputs | BatchRename.py:258 | the pre-check list has at most one entry per row |
| Batch.RunTotals | BatchRename.py:263-294 | renamed plus errors equals the number of rows not skipped, which is at most the size of `inputs` |
| Batch.HasRepeatSnoc | BatchRename.py:259 | appending a name makes a repeat iff there already was one or the name was present |
| Batch.ElemsCount | BatchRename.py:259 | the set of inputs is never larger than the list, and is as large iff no name repeats |
| Batch.InputsMember | BatchRename.py:258 | a name is in `inputs` iff it is the non-empty trimmed candidate of some row |
| Batch.InputsRepeat | BatchRename.py:258-259 | `inputs` has a repeat iff two rows share a non-empty trimmed candidate |
| Batch.DuplicateCheck | BatchRename.py:258-261 | `len(inputs) != len(set(inputs))` holds iff two different rows share a non-empty trimmed candidate |
| Batch.RenamedRowSkippedNextTime | BatchRename.py:270-276 | after a row is renamed, a second batch with the same field skips it, provided the file had an extension and the candidate is not all dots |
| Batch.InputsWithoutCandidates | BatchRename.py:258 | with every field blank, `inputs` is empty |
| Batch.StepBlank | BatchRename.py:265 | a blank candidate is a skip that changes nothing |
| Batch.RunWithoutCandidates | BatchRename.py:263-292 | with every field blank, the batch changes nothing and counts nothing |
| Batch.RenameAfterClear | BatchRename.py:250-294 | after "Clear All", "START RENAME" passes the pre-check, changes nothing and reports 0 renamed and 0 errors |
| Batch.PastedBases | BatchRename.py:244-247 | after pasting at least as many lines as rows, the trimmed candidates are the first lines of the paste |
| Batch.PasteDuplicateCheck | BatchRename.py:244-261 | after such a paste, the batch aborts iff the first lines of the paste contain a repeat |
| App.Folder.Exists | BatchRename.py:279 | `os.path.exists` on the folder as it is now, by `PathExists` |
| App.Folder.Rename | BatchRename.py:283 | succeeds iff the source is present and the pair is not refused; then the source name is replaced by the target, otherwise nothing changes |
| App.BatchRenameApp.constructor | BatchRename.py:41 | the application starts with an empty `image_list` |
| App.BatchRenameApp.BrowseFolder | BatchRename.py:133-156 | a cancelled dialog changes nothing; otherwise the list becomes the fresh rows of the folder's scan |
| App.BatchRenameApp.ProcessLoadQueue | BatchRename.py:158-166 | the list gains one fresh row per queued record, in queue order |
| App.BatchRenameApp.CreateRow | BatchRename.py:168-221 | appends one fresh row for the record |
| App.BatchRenameApp.Edit | BatchRename.py:202-213 | typing into row i replaces that row by its edited form and leaves the others |
| App.BatchRenameApp.PasteNames | BatchRename.py:242-248 | an unreadable clipboard changes nothing; otherwise the list becomes `Pasted` with the clipboard's cleaned lines |
| App.BatchRenameApp.ClearInputs | BatchRename.py:250-251 | the list becomes `Cleared` |
| App.BatchRenameApp.RenameAll | BatchRename.py:253-294 | with a duplicate input the result is the warning and neither list nor folder changes; otherwise the rows, folder and summary counts are those of `Run` |
| App.BatchRenameApp.RenameEach | BatchRename.py:263-294 | the loop leaves the list, folder and counters equal to `Run` over the list as it was |
| App.BatchRenameApp.RenameRow | BatchRename.py:264-292 | one iteration updates row i, the folder and the outcome exactly as `Step` does |

## Left out

- User interface: the Tkinter widgets, colours, scrolling, keyboard focus and the message boxes. The warning and the summary box are the method's result.
- The "Current Name" label is not refreshed after a rename in the source. It is not modelled; `filename` is.
- Thumbnails (`load_thumbnail`, PIL decoding): they never affect names or renames.
- Threads and the load queue: the scan and the draining of the queue run one after the other in `BrowseFolder`, and the queue is empty when a folder is picked. Interleavings and leftovers are not modelled:
  - a rename started while rows are still arriving;
  - records of a previous folder that are still in `load_queue` when a new folder is picked: `browse_folder` empties `image_list` but not the queue, so the next poll appends them to the new list;
  - a previous folder's thread still queuing records after a new folder was picked, which become rows of the new list in the same way.
- `os.listdir` is a parameter: `None` when it raises, where the source prints the error. Its contents are taken as given, including subdirectories whose names look like images.
- Paths are kept as (directory, name) pairs. `os.path.join` and `os.path.dirname` are not modelled as string operations.
- `Batch.PathExists` treats every name of the folder as existing. A dangling symbolic link is a name for which `os.path.exists` is false; `os.rename` onto it replaces the link on POSIX, so the folder loses a name. The model has no links, and `RunKeepsFileCount` relies on that.
- `Folder.Rename` and `Step` do not model the race between `os.path.exists` and `os.rename`, or case-insensitive file systems where "A.png" and "a.png" are one file.
- The clipboard is a parameter: `None` when `clipboard_get` raises.
- `PyStr.Lower` lower-cases ASCII letters only. No other character lower-cases to a dot or to a letter of the six suffixes, so the image-name test agrees with Python's.
- Dafny characters are Unicode scalar values. The lone surrogates that `os.listdir` can return for undecodable names are not modelled.
- `App.BatchRenameApp.Edit` requires an existing row: typing needs a row on screen. Each keystroke is modelled as replacing the whole text of the field.
- `Scanner.SortNames` is insertion sort rather than Python's sort. Equal strings are identical, so every correct sort gives the same result (`SortedUnique`).
