# ComfyUI-CATS-tools nodes, modelled in Dafny

This project models the node logic of `nodes.py` in ComfyUI-CATS-tools, a set of
custom nodes for the ComfyUI image-generation host. It covers four nodes:

- **Sequential wildcard node** (`SequentialWildcardNode.get_next_prompt`). It keeps two
  process-wide dictionaries keyed by the file's absolute path: the cached prompt list and
  a cursor. Each call returns the next prompt of a wildcard file and its index. The
  prompt wraps round at the end, and the fixed prompt is merged in front. A reset, or a
  file not seen before, reloads the file and restarts the cursor at -1.
- **Random wildcard node** (`RandomWildcardNode.get_random_prompt`). It draws prompts
  from a wildcard file, prefixes each draw with the fixed prompt, and joins them line
  by line.
- **Image sequence loader** (`ImageSequenceLoader.execute`). It keeps the last
  standardised folder path, the cached file names and a cursor. It lists the folder
  again only when the standardised path changes. That listing keeps the regular files
  with an image extension and orders them by modification time with a stable sort.
  Each call returns the next file, wrapping round.
- **String save node** (`StringSaveNode.save_string`). It extracts one stripped text
  from its input, preferring the prompt keys of a dictionary. It then writes the text
  either to the first free numbered file `base.txt`, `base1.txt`, … or appends it as
  one more line group to `base.txt`.

The nodes' persistent state is an explicit value (`SequentialWildcard.Cycler`,
`ImageSequence.Loader`, `StringSave.Folder`) that every call takes and returns. What the
file system, `os.path.abspath` and the random generator would answer are parameters.
Warnings the nodes return in place of a prompt are a `Failure` carrying a `Problem`.
Exceptions the image loader raises to the host are a `Failure` carrying a `Fatal`.

Modules:

- `Results`: option and result types.
- `SeqFacts`: element-type-independent sequence facts.
- `Text`: Python's `strip`, `lower`, `replace`, `endswith` and `str(int)`.
- `Lines`: a file's text to its prompt list.
- `Merge`: fixed-prompt merging.
- `WildcardFile`: path checks and reading.
- `Wrap`: the wrap-around cursor arithmetic.
- `SequentialWildcard`, `RandomWildcard`, `MtimeSort` and `ImageSequence`: the nodes
  and the loader's sort.
- `FileNaming`: `os.path.splitext` and the counter loop.
- `StringSave`.

## Model

| member | source | states |
|---|---|---|
| Text.TrimStart | nodes.py:325 | The left strip removes exactly a leading run of whitespace: the result is a suffix, everything dropped is whitespace, and it does not start with whitespace |
| Text.LeadingSpaces | nodes.py:325 | The count of characters the left strip removes: all of them are whitespace, and the character after them, if any, is not |
| Text.TrimEnd | nodes.py:325 | The right strip removes exactly a trailing run of whitespace: the result is a prefix, everything dropped is whitespace, and it does not end with whitespace |
| Text.StripIsSlice | nodes.py:325 | `strip()` returns a contiguous slice of its input, with only whitespace (Python's `isspace` set) cut off on either side |
| Text.StripEmptyIffAllSpace | nodes.py:232 | A line is dropped by the `if line.strip()` filter exactly when all its characters are whitespace |
| Text.StripOfStripped | nodes.py:346 | `strip` changes nothing on text that has no whitespace at either end, so stripping twice equals stripping once |
| Text.LowerEqualIffSameIgnoringCase | nodes.py:418 | `lower()` makes two names equal exactly when they differ at most in the case of ASCII letters |
| Text.ReplaceChar | nodes.py:400 | `replace("\\", "/")` keeps the length and changes exactly the backslashes, into slashes |
| Text.ReplaceCharIdempotent | nodes.py:400 | Standardising an already standardised path changes nothing |
| Text.NatToString | nodes.py:128 | `str(counter)` is a non-empty string of decimal digits, with two or more digits exactly from 10 up, and starts with '0' only for 0 |
| Text.NatToStringValue | nodes.py:128 | The digits `str(counter)` prints denote the counter |
| Text.NatToStringUnique | nodes.py:128 | `str(counter)` is the only digit string without a leading zero that denotes the counter |
| Text.NatToStringInjective | nodes.py:128 | Different counters print differently |
| Lines.JoinPieces | nodes.py:232 | Splitting a file's text at its line breaks loses nothing except which break character (`\n` or `\r`) ended each line |
| Lines.KeepAppend | nodes.py:325 | The strip-and-drop-empty filter works line by line: the lines of two parts give the concatenation of their results |
| Lines.KeepOne | nodes.py:325 | One line contributes its stripped form exactly when that is non-empty |
| Lines.KeepShape | nodes.py:325 | Every kept line is non-empty and stripped |
| Lines.PromptLines | nodes.py:232 | Every prompt read from a file is non-empty, stripped and free of line breaks |
| Lines.PromptLinesAppend | nodes.py:325 | The prompts of two texts written one after the other, the first ending its last line, are the first text's prompts followed by the second's |
| Lines.PromptLinesEndLine | nodes.py:232 | A trailing line break does not change a file's prompts |
| Lines.PromptLinesOfLine | nodes.py:232 | One stripped non-empty line followed by a break reads back as exactly that prompt |
| Lines.JoinRoundTrip | nodes.py:250 | Prompts joined with `"\n"` and read back as a wildcard file give exactly those prompts, in order |
| Lines.JoinConsRoundTrip | nodes.py:256 | The join round trip extends by one prompt in front |
| Merge.MergePrefix | nodes.py:344-352 | The merged prompt is the line itself when the stripped fixed prompt is empty, else the stripped fixed prompt, ", " and the line |
| Merge.MergePrefixRecoversLine | nodes.py:344-352 | The line can be cut back out of the merged prompt after a prefix determined by the fixed prompt alone |
| Merge.MergeEach | nodes.py:247-249 | Every draw is merged on its own, in draw order |
| Merge.CombineDraws | nodes.py:241-259 | The random node's combination fails exactly when there are no draws and the stripped fixed prompt is non-empty (the `random_prompts[0]` case) |
| Merge.CombineDrawsIsJoinOfMerged | nodes.py:241-259 | All four branches of the random node's combination agree with merging each draw as the sequential node does and joining with `"\n"` |
| Merge.MergeKeepsPromptShape | nodes.py:344-352 | A merged prompt is again non-empty, stripped and single-line when the fixed prompt has no line break |
| WildcardFile.CheckPath | nodes.py:313-317 | An empty or missing path gives the missing-path warning, a non-file gives the not-a-file warning, and only a non-empty path to a regular file passes |
| SequentialWildcard.FailedReadKeepsState | nodes.py:323-365 | When a reloading call's read raises, the reply is that error's own warning (not found, no permission, or the generic one) and no cached list or cursor changes |
| SequentialWildcard.ReportedIndexInRange | nodes.py:313-365 | Every warning reports index 0; a prompt reports the new cursor, which is the start cursor plus one modulo the number of cached prompts, and so a valid index of them |
| SequentialWildcard.Advance | nodes.py:331-341 | One step moves only this file's cursor to `(cursor + 1) % len(prompts)` and answers that prompt merged with the fixed prompt; an empty list gives the no-prompts warning and changes nothing |
| SequentialWildcard.LoadedAdvance | nodes.py:323-341 | A reload followed by one step changes only this file's entry: its cached list becomes the lines just read, and when the file has no prompts its cursor stays at -1 |
| SequentialWildcard.AdvanceKeepsValid | nodes.py:331-341 | One step keeps every cached cursor in [-1, len - 1] |
| SequentialWildcard.NextPrompt | nodes.py:298-365 | A call touches no other file's entry; path problems and read errors leave the state as it was; a reload caches exactly the file's prompt lines and sets the cursor to -1; a successful reply is the cached prompt at the new cursor |
| SequentialWildcard.NextIndex | nodes.py:337-338 | A successful call's index is the start cursor (-1 after a reload) plus one, modulo the number of prompts, so it lies in [0, len - 1] |
| SequentialWildcard.NextPromptKeepsValid | nodes.py:323-341 | Calls preserve the invariant that every cached file has a cursor in [-1, len - 1] |
| SequentialWildcard.ReloadingCall | nodes.py:323-328 | A call that reloads is an advance from the state with the file's prompts cached and its cursor at -1 |
| SequentialWildcard.AdvanceFromStart | nodes.py:328-341 | The first advance after a load answers prompt 0 |
| SequentialWildcard.ResetGivesFirst | nodes.py:323-341 | A reset call on a readable file with prompts always answers its first prompt with index 0 |
| SequentialWildcard.EmptyFileWarns | nodes.py:333-334 | A file without prompts gives the warning with index 0 and the cursor stays at -1, whether just loaded or cached |
| SequentialWildcard.CachedCallAdvances | nodes.py:323 | Without a reset, a call on a cached file does not read the file and only advances |
| SequentialWildcard.CachedStep | nodes.py:331-341 | A call on a cached file with prompts answers the prompt after the cursor and moves the cursor there |
| SequentialWildcard.ReplayIsAdvances | nodes.py:323-341 | Without a reset, n calls on a cached file are n plain steps: the file is never read again and its path is only checked |
| SequentialWildcard.AdvancesIsCycle | nodes.py:331-341 | n steps from a cursor answer the cached prompts one after another from the prompt after the cursor, wrapping round |
| SequentialWildcard.ReplayIsCycle | nodes.py:323-341 | Repeated calls without reset on a cached file are a pure walk of the cursor over the cached list |
| SequentialWildcard.CycleWalksInOrder | nodes.py:337-341 | The j-th step of that walk answers the prompt j + 1 places after the cursor, wrapping round |
| SequentialWildcard.ReplayWalksInOrder | nodes.py:337-341 | The j-th of n calls without reset answers the prompt j + 1 places after the starting cursor, wrapping round |
| SequentialWildcard.ResetThenCycle | nodes.py:323-341 | After a reset, N more calls on a file with N prompts answer indices 1, …, N - 1 and then 0 again |
| SequentialWildcard.FreshCycleOfThree | nodes.py:323-341 | On a fresh node, four calls on a three-prompt file answer prompts 0, 1, 2, 0 |
| SequentialWildcard.ThreeLineExample | nodes.py:298-357 | The file "a\nb\nc" answers a, b, c, a with indices 0, 1, 2, 0 |
| SequentialWildcard.FreshCallLoads | nodes.py:323 | On a fresh node the first call loads the file exactly as a reset does |
| Wrap.WalkIsMod | nodes.py:337 | j + 1 wrap-around steps from cursor c land on (c + 1 + j) mod n |
| Wrap.WalkFromFirst | nodes.py:440 | From index 0, j steps reach index j, and n steps come back to 0 |
| RandomWildcard.Draw | nodes.py:238 | Every draw is one of the file's prompts, one per requested prompt |
| RandomWildcard.Respond | nodes.py:234-259 | An empty file gives the no-prompts warning; otherwise the answer is the merged draws joined line by line, and it fails only for zero draws under a non-empty fixed prompt |
| RandomWildcard.RandomPrompt | nodes.py:214-269 | Path problems and read errors give their warnings; a readable file answers as `Respond` on its prompt lines |
| RandomWildcard.FailedReadWarns | nodes.py:231-269 | A read that raises answers that error's own warning (not found, no permission, or the generic one), whatever the draws |
| RandomWildcard.OutputReadsBackAsDraws | nodes.py:241-259 | When the fixed prompt is one line, the node's output read back as a wildcard file gives exactly the merged draws, one per line |
| MtimeSort.Insert | nodes.py:423 | Inserting into a time-sorted list keeps it sorted and is a permutation adding exactly the new file |
| MtimeSort.SortByMtime | nodes.py:423 | The sort's result is ordered by non-decreasing time and is a permutation of its input |
| MtimeSort.SortIsStable | nodes.py:423 | For every time, the files with that time come out in the order they went in |
| MtimeSort.StableOrderIsUnique | nodes.py:423 | Two time-sorted lists that list every time's files in the same order are equal |
| MtimeSort.SortCharacterized | nodes.py:423 | A list is the sort's result if and only if it is time-sorted and keeps every time's files in input order |
| ImageSequence.Standardize | nodes.py:399-402 | The standardised path has the length of the absolute path (or of the path as given when `abspath` raised) and no backslash |
| ImageSequence.ExtensionTestIgnoresCase | nodes.py:418 | Two names that differ only in the case of ASCII letters are both accepted or both refused by the extension test |
| ImageSequence.ExtensionExamples | nodes.py:409-418 | "A.PNG" is accepted, and "a.gif" is refused |
| ImageSequence.EligibleExactly | nodes.py:416-420 | A candidate is kept exactly when the listing has a regular file of that name and time whose lower-cased name ends in one of the four image extensions |
| ImageSequence.ScanCandidates | nodes.py:416-423 | The scan's candidates are time-sorted and a permutation of the eligible files |
| ImageSequence.ScanContents | nodes.py:409-424 | The cached list holds exactly the regular image files, ordered by non-decreasing time, with equal times in listing order |
| ImageSequence.Pick | nodes.py:435-443 | An empty cached list fails with no file; otherwise the cursor moves to `(cursor + 1) % len` and that file is answered |
| ImageSequence.Execute | nodes.py:395-454 | A call records the standardised path; it rescans and restarts the cursor exactly when that path differs from the recorded one, and a failed listing fails with the path already recorded |
| ImageSequence.SamePathAdvances | nodes.py:406 | On the recorded path the cached list is kept, the listing is not consulted and the cursor advances modulo the length |
| ImageSequence.NewPathRestarts | nodes.py:406-440 | On a new path the list is rescanned and the answer is the scan's first file, index 0 |
| ImageSequence.EquivalentPathsDoNotReset | nodes.py:400-406 | Two inputs with the same standardised form never reset the cursor |
| ImageSequence.EmptyListFails | nodes.py:435-436 | With no images after the path check, the call fails and returns no file name |
| ImageSequence.ReplayWalksInOrder | nodes.py:438-443 | On an unchanged path, the j-th call answers the file j + 1 places after the cursor, wrapping round |
| ImageSequence.NewFolderCycle | nodes.py:406-443 | With M images in a new folder, M + 1 calls answer positions 0, 1, …, M - 1, 0 of the scanned list |
| ImageSequence.StaleListAfterFailedScan | nodes.py:406-432 | As written: after /a is listed, a failed listing of /b records /b, and the next call on /b does not list /b again but picks /a's x.png and goes on to open /b/x.png |
| ImageSequence.ExecuteRecordingAfterScan | nodes.py:406-432 | Corrected call: a failed listing of a new folder leaves the whole state unchanged, and a success records the path it served |
| ImageSequence.CorrectionOnlyAffectsFailedScans | nodes.py:406-432 | The corrected call behaves exactly as the call as written whenever the folder is listed or no listing is needed |
| ImageSequence.CorrectedServesOnlyScannedImages | nodes.py:406-443 | With the corrected call, the cache always matches the folders, and every answered file is a scanned image of the folder it is loaded from |
| FileNaming.LastIndexOf | nodes.py:116 | `rfind` gives the last position holding the character, or -1 when there is none |
| FileNaming.LastSeparator | nodes.py:116 | The last separator position: '/' on POSIX, the later of '\\' and '/' on Windows |
| FileNaming.SplitExt | nodes.py:116 | `splitext` splits the name into root + extension: a non-empty extension is a dot followed by no further dot or separator, after a root whose last component has a non-dot; the extension is empty exactly when no dot of the last component has a non-dot before it there |
| FileNaming.SplitExtOfJoined | nodes.py:116 | A root whose last component is not all dots, followed by an extension, splits back into exactly those parts |
| FileNaming.SplitExtExamples | nodes.py:116 | "w.txt" loses ".txt"; a leading dot as in ".rc" is no extension |
| FileNaming.NumberedName | nodes.py:125-128 | Counter 0 names `base.txt`, and counter n > 0 names a longer name that starts with the base and ends in ".txt" |
| FileNaming.NumberedNamesDistinct | nodes.py:123-133 | Different counters never name the same file |
| FileNaming.CounterBounded | nodes.py:124-133 | The counter cannot pass the number of existing names, so the search loop ends |
| FileNaming.FirstFreeName | nodes.py:121-133 | The chosen name is the numbered name of the smallest counter whose name is not taken |
| StringSave.FirstPresent | nodes.py:58-63 | The first of the prompt keys present in the dictionary is found; none is found exactly when no key is present |
| StringSave.DictTextUsesPreferredKey | nodes.py:58-63 | A dictionary gives the stripped rendering of its most preferred present prompt key, whatever its other fields hold |
| StringSave.DictTextWithoutPromptKey | nodes.py:64-67 | A dictionary without prompt keys gives its whole stripped rendering |
| StringSave.ExtractText | nodes.py:47-96 | The extracted text is always stripped, and an empty list or tuple gives "" |
| StringSave.ListUsesFirstItem | nodes.py:68-92 | A list or tuple gives what its first item gives on its own, except that a nested list is rendered instead of unpacked |
| StringSave.Save | nodes.py:33-168 | Nothing is written exactly when the extracted text is empty, and then the result is ""; otherwise the input is returned, and single-file mode writes a new file at the first free numbered name, while wildcards mode appends one line group to `base.txt`; no other file changes |
| StringSave.AppendAddsPrompts | nodes.py:146-147 | Appending a text and a line break to a file that ends its last line adds exactly that text's prompts after the file's own, and the file still ends its last line |
| StringSave.AppendOneLine | nodes.py:146-147 | Appended to a wildcard file that ends its last line, a saved single-line text becomes exactly one more prompt of it |
| StringSave.NewFileReadsBack | nodes.py:135-137 | A new file holds exactly the prompts of the saved text, and every other file is untouched |
| StringSave.AppendedGroupReadsBack | nodes.py:143-147 | A wildcard file that ends its last line gains exactly the saved text's prompts after its own and still ends its last line; every other file is untouched |

## Left out

- File system I/O is not modelled. `os.path.exists`, `os.path.isfile`, reading a file,
  `os.listdir`, `os.path.getmtime`, `mkdir`, writing and appending are all represented
  by their results: `PathKind`, `ReadResult`, `Listing`, `Entry` and `Folder`.
- `os.path.abspath` is a parameter: the sequential node's cache key, and the loader's
  `Option<string>`, where `None` means it raised.
- `os.path.join` is not modelled. A successful loader call names the folder and file it
  would open, and the save folder is a map from file names.
- Image decoding (`Image.open`, `convert`, `pil_to_tensor`) and its errors are not
  modelled. They are floating-point tensor code in foreign libraries.
- `random.seed` and `random.choices` are not modelled. The draws are a parameter of
  indices, and the seed has no effect in the model.
- `num_prompts` is taken as the number of draws; the host's bounds of 1 to 100 are not
  enforced.
- Message wording, `file_info`, the save node's `ui` text, `print` and
  `os.path.getsize` are not modelled. They are presentation only. Each warning is one
  `Problem` constructor.
- The save node's catch-all (`mkdir`, `open` or `getsize` raising) is not modelled.
  Writes are taken to succeed.
- StringSave.Save: `os.path.exists` also sees directories; the model treats the save
  folder as its files only.
- Text.Lower: covers ASCII capitals only. No other character lower-cases into one of the
  ASCII characters of ".png", ".jpg", ".jpeg" or ".webp", so the extension test is
  unaffected.
- ImageSequence.Execute: modification times are integers, not Python floats. They are
  only compared.
- Text-mode writes on Windows turn each "\n" into "\r\n". The model writes "\n"; a
  file's prompts read the same either way, since both are line breaks.
- StringSave.AppendAddsPrompts: covers files that end their last line, as every file
  the node itself writes does. Appending to a file whose last line has no line break
  glues the new text onto that line.
- StringSave.AppendOneLine: the same condition as `StringSave.AppendAddsPrompts`.
- StringSave.AppendedGroupReadsBack: the same condition as `StringSave.AppendAddsPrompts`.
- RandomWildcard.OutputReadsBackAsDraws: covers a fixed prompt without line breaks. The
  fixed prompt is a multi-line field, and a line break in it splits a merged draw into
  several prompts when read back.
- `str()` of non-string save inputs is taken as given (`StringSave.Value.shown`).
- `web/image_sequence_widget.js` and `__init__.py` are not modelled. They are front-end
  wiring and node registration.
- Text.IsSpace: Python's `str.isspace` set is written out as explicit code points; the
  Unicode database it comes from is not part of this model.

## Findings

| source | as written | input that shows it | evidently intended | confidence | as-written member | corrected member |
|---|---|---|---|---|---|---|
| nodes.py:406-432 | The loader records the new standardised path (line 407) before it lists the folder. When the listing raises, the path stays recorded with the previous folder's file list. | A call on /a holding x.png, then two calls on a missing /b. The second call on /b skips the rescan and tries to load x.png from /b, a name from /a's listing. | Record the path only together with a successful scan, so a failed folder is listed again on the next call. | not executed | ImageSequence.StaleListAfterFailedScan (on ImageSequence.Execute) | ImageSequence.ExecuteRecordingAfterScan, with ImageSequence.CorrectedServesOnlyScannedImages |
