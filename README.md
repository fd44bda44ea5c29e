# face_reina in Dafny

A model of the bookkeeping at the heart of face_reina, a batch face
recognition tool. The model covers two files.

- `folder_manager_reina.py` keeps a snapshot of a folder: a dict from file
  name to modification time. On each run it diffs last run's snapshot
  against the current one and reports `new`, `deleted` and `is_changed`.
- `facekit_reina.py` keeps an encoding cache, a dict from image stem to face
  encoding. The cache is built from the known-faces folder on the first run
  and patched from the snapshot diff afterwards. The file also holds:
  - the minimum-distance matcher (`face_people_match`);
  - the per-image collation of matches (`crop_and_recognize`);
  - the choice of files to annotate (`start_recognition`);
  - the overwrite-confirmation loop of `start_position`.

The model follows the code as written, quirks included:

- the `deleted` list is a sticky suffix;
- `is_changed` sees only the last `is_new`;
- a missing or empty snapshot file raises;
- an empty folder raises on the second run;
- a face-less known image raises during the bootstrap.

Modules:

- `Wrappers` holds `Option`, and `Result` for the Python exceptions a call
  can raise.
- `PyDict` models a Python dict as a sequence of (key, value) pairs in
  insertion order. Reassigning a key keeps its position. `pop` closes the
  gap.
- `PosixPath` models `os.path.splitext`: the last dot of the base name,
  where leading dots do not count.
- `FolderManager` models `parse_modate` and `get_change_and_renew`. The
  snapshot file is a class `ModateFile` with four states: missing, empty,
  `null`, or a stored map.
- `Facekit` holds the compatible formats, box normalisation, and the
  face_recognition calls, given as functions (`FaceLibrary`).
- `EncodingCache` models `gen_sav_encodings_dict`. `KnownCache` is the
  cache file together with the snapshot file beside it.
- `Recognition` models `face_people_match`, `crop_and_recognize` and
  `start_recognition`.
- `Positioning` models `start_position`, with its answer-reading loops.

Most loops of the source are methods with loop invariants. Each such method is
proved equal to a recursive specification function, and the properties are
proved about those functions as lemmas. The remaining loops are not methods:

- The loop over the new snapshot's keys in the `null` branch
  (folder_manager_reina.py:107-108) is the expression `Keys(cur)` in
  `FindOutChange` and `Diff`.
- The loop over located faces in `generate_face_positioned_img`
  (facekit_reina.py:73-81) is the sequence comprehension `Boxes`.
- The serialisation loops (facekit_reina.py:178-180, 207-209, 251-253) are
  left out along with JSON.
- The drawing loop of `generate_face_recognition_img`
  (facekit_reina.py:344-364) and the format-printing loop
  (facekit_reina.py:140-141) are left out along with drawing and printing.

The operating system (`os.listdir`, `os.path.isdir`, `os.path.getmtime`) is
the parameter `FileSystem`. The face library is the parameter `FaceLibrary`.
The lines typed at the console are the sequence `answers`.

Facts about the code that shape the model:

- The matching tolerance is 0.4 (facekit_reina.py:282).
- A known image with no face raises IndexError in the bootstrap too
  (facekit_reina.py:175).
- A missing snapshot file is created empty, and `json.loads('')` on it
  raises (folder_manager_reina.py:45-53).
- `deleted` is every old key from the first one absent now on
  (folder_manager_reina.py:85-95). So it can overlap `new` and can list files
  that are still present.
- `is_changed` reads the `is_new` left by the last current key
  (folder_manager_reina.py:99).
- Among equal minimum distances the first key in dict order wins, because
  the comparison is a strict `<` (facekit_reina.py:279).

## Model

| member | source | states |
|---|---|---|
| PyDict.Set | facekit_reina.py:235 | `d[k] = v`: the key order is unchanged when k was present, otherwise k is appended; k maps to v; every other key keeps its presence and value; no key is repeated |
| PyDict.Remove | facekit_reina.py:248 | `d.pop(k)` for a present key: k is gone, every other key keeps its presence and value, no key is repeated |
| PyDict.Without | facekit_reina.py:248 | a key sequence with one key left out, the others in order |
| PyDict.WithoutAt | facekit_reina.py:248 | with no repeats, leaving out the element at position i closes the gap there |
| PyDict.RemoveIsWithout | facekit_reina.py:248 | `pop` leaves the keys in order with the popped key taken out |
| PosixPath.SplitExt | facekit_reina.py:115 | `os.path.splitext`: the split at the last dot of the base name when some non-dot character precedes it; its properties are SplitExtParts and the SplitExt example lemmas |
| PosixPath.SplitExtParts | facekit_reina.py:115 | `splitext`: root + ext is the name; ext is empty or one dot followed by no dot or slash; ext is non-empty exactly when the base name has a dot after a non-dot |
| PosixPath.SplitExtSimple | facekit_reina.py:115 | `splitext("alice.jpg")` splits off ".jpg" |
| PosixPath.SplitExtLastDotWins | facekit_reina.py:171 | the last dot wins: "a.b.png" gives ("a.b", ".png") |
| PosixPath.SplitExtHiddenFile | facekit_reina.py:171 | a leading dot does not start an extension: ".json" has none |
| PosixPath.SplitExtOnlyLeadingDots | facekit_reina.py:171 | a name of leading dots then letters, "..jpg", has no extension |
| PosixPath.SplitExtHiddenWithExtension | facekit_reina.py:171 | a hidden name can still carry one: ".a.gif" gives (".a", ".gif") |
| PosixPath.SplitExtNoDot | facekit_reina.py:175 | a name without a dot is its own stem with an empty extension |
| PosixPath.RFindLast | facekit_reina.py:171 | the index found holds the character and no later position does |
| PosixPath.RFindIs | facekit_reina.py:171 | the last occurrence is the only index with that property |
| FolderManager.NonDirs | folder_manager_reina.py:16-19 | the first loop of `parse_modate`, which keeps the listed names `isdir` rejects; stated by NonDirsMembers and NonDirsAppend |
| FolderManager.NonDirsMembers | folder_manager_reina.py:16-19 | the names kept are exactly the listed names `isDir` rejects; no repeated names are introduced |
| FolderManager.NonDirsAppend | folder_manager_reina.py:16-19 | filtering a concatenated listing is the concatenation of the filtered parts |
| FolderManager.Record | folder_manager_reina.py:22-27 | the dict filled from a name list has exactly those names as keys, each mapped to `getmtime(folder + name)` |
| FolderManager.RecordKeys | folder_manager_reina.py:22-27 | with no repeated names, the keys are the names in list order |
| FolderManager.ModateOf | folder_manager_reina.py:10-30 | the snapshot `parse_modate` returns; its keys and values are stated by ModateKeys and Record |
| FolderManager.ModateKeys | folder_manager_reina.py:13-27 | the snapshot's keys are the listed names that `isdir` (asked about the bare name) rejects, in listing order, each mapped to the mtime of folder + name |
| FolderManager.ParseModate | folder_manager_reina.py:10-30 | the two loops compute the specified snapshot (its keys and values are stated in ModateKeys and Record) |
| FolderManager.Load | folder_manager_reina.py:44-53 | a missing or empty snapshot file raises JSONDecodeError; `null` loads as None; a stored map loads as itself |
| FolderManager.FirstMissing | folder_manager_reina.py:85-90 | the position of the first old key absent from the current snapshot (every earlier key present), or the length if none is absent |
| FolderManager.NewNames | folder_manager_reina.py:66-81 | the list `new` built by the first diff loop; stated by NewNamesMembers, NewNamesAgainstItself and the concrete diff lemmas |
| FolderManager.NewNamesMembers | folder_manager_reina.py:66-81 | a current name is in `new` iff it is absent from the old snapshot or has another mtime there; `new` keeps current-snapshot order |
| FolderManager.UnchangedFolderReportsNothing | folder_manager_reina.py:57-100 | a non-empty snapshot diffed against itself gives `is_changed` false and empty `new` and `deleted` |
| FolderManager.DeletedIsStickySuffix | folder_manager_reina.py:85-95 | `deleted` is the suffix of the old keys from the first one missing now; it is empty iff no old key is missing |
| FolderManager.IsChangedSeesLastKeyOnly | folder_manager_reina.py:98-100 | `is_changed` holds iff the last current key is new or some old key is missing |
| FolderManager.Diff | folder_manager_reina.py:62-108 | the outcome of the diff after loading: all keys new after `null`, otherwise `new`, the sticky `deleted` and `is_changed`, or UnboundLocalError; stated by DiffOutcomes, DeletedIsStickySuffix, IsChangedSeesLastKeyOnly and UnchangedFolderReportsNothing |
| FolderManager.DiffOutcomes | folder_manager_reina.py:63-108 | the diff raises (UnboundLocalError) iff there is an old snapshot and the current one is empty; an old `null` makes every current key new, nothing deleted, changed true |
| FolderManager.EarlierAdditionNotReported | folder_manager_reina.py:66-100 | an added file followed by an unchanged last key yields `is_changed` false with `new` non-empty |
| FolderManager.DeletedMayOverlapAdded | folder_manager_reina.py:85-95 | a re-timed file after a deleted one is listed both as new and as deleted |
| FolderManager.DeletedMayListUnchanged | folder_manager_reina.py:85-95 | an unchanged file after a deleted one is listed as deleted |
| FolderManager.FindNew | folder_manager_reina.py:66-81 | the first loop builds `new` as specified and leaves `is_new` at the last key's value, unbound for an empty snapshot |
| FolderManager.FindDeleted | folder_manager_reina.py:85-95 | the second loop sets `is_deleted` iff some old key is missing and collects the suffix from the first missing one |
| FolderManager.FindOutChange | folder_manager_reina.py:60-111 | the two loops and the `null` branch compute the specified diff, raising UnboundLocalError when `is_new` is never bound |
| FolderManager.ChangeReport | folder_manager_reina.py:43-111 | what `get_change_and_renew` returns for a snapshot file and the current snapshot: the load error, or the diff; stated through GetChangeAndRenew and UnreportedChangeIsLost |
| FolderManager.RenewedFile | folder_manager_reina.py:44-57 | the snapshot file after the call: left empty when it was missing or empty (the load raises first), otherwise the current snapshot; stated through GetChangeAndRenew and UnreportedChangeIsLost |
| FolderManager.ModateFile.SaveDict | folder_manager_reina.py:33-41 | the file afterwards holds the given snapshot |
| FolderManager.ModateFile.GetChangeAndRenew | folder_manager_reina.py:43-111 | a missing file is left empty and the call raises; otherwise the fresh snapshot is stored before diffing, whatever the outcome, and the report is the specified diff |
| FolderManager.UnreportedChangeIsLost | folder_manager_reina.py:55-100 | when a report says nothing changed, the renewed file makes the next run over the same folder report nothing too |
| Facekit.IsCompatible | facekit_reina.py:32 | membership of the extension in `compatible_formats` (".jpg", ".jpeg", ".gif", ".png"); stated by CompatibilityExamples and UpperCaseIsIncompatible |
| Facekit.CompatibilityExamples | facekit_reina.py:32 | "alice.jpg" and "a.b.png" are compatible; ".jpg", "..jpg" and "README" have no extension and are not |
| Facekit.UpperCaseIsIncompatible | facekit_reina.py:32 | the format test is case-sensitive: "alice.JPG" is rejected |
| Facekit.Normalize | facekit_reina.py:73-81 | xmin <= xmax, ymin <= ymax, {xmin, xmax} = {x1, x2}, {ymin, ymax} = {y1, y2} |
| EncodingCache.AddFile | facekit_reina.py:229-235 | adding one name keeps the cache free of repeated keys |
| EncodingCache.AddAll | facekit_reina.py:227-235 | adding a list of names keeps the cache free of repeated keys |
| EncodingCache.AddAllRaises | facekit_reina.py:227-235 | adding raises iff some added name is compatible and its image has no face, and then with IndexError |
| EncodingCache.AddAllRaiseSticky | facekit_reina.py:227-235 | once an added name raises, later names change nothing: the loop ends with that exception |
| EncodingCache.AddAllKeys | facekit_reina.py:227-235 | after adding, a key is present iff it was present before or is the stem of a compatible added name |
| EncodingCache.AddAllUntouched | facekit_reina.py:227-235 | a key no compatible added name writes keeps its old value |
| EncodingCache.AddAllLastWriter | facekit_reina.py:235 | a key holds the first encoding of the last compatible name with that stem |
| EncodingCache.AddedKeys | facekit_reina.py:227-235 | the key order after additions: each compatible name's stem is appended unless already a key |
| EncodingCache.AddAllKeyOrder | facekit_reina.py:227-235 | the insertion loop orders the keys as AddedKeys says, since `d[k] = v` keeps a present key's position |
| EncodingCache.AddAllKeepsOrder | facekit_reina.py:227-235 | adding never moves an old key: the old keys come first, in their order |
| EncodingCache.CompatibleStems | facekit_reina.py:170-175 | the stems of the compatible names, in order |
| EncodingCache.BootstrapKeyOrder | facekit_reina.py:165-175 | when no two compatible non-directory files share a stem, the first-run cache holds their stems in listing order |
| EncodingCache.DropFile | facekit_reina.py:243-248 | deleting one name keeps the cache free of repeated keys |
| EncodingCache.DropAll | facekit_reina.py:242-248 | deleting a list of names keeps the cache free of repeated keys |
| EncodingCache.DropAllContents | facekit_reina.py:242-248 | after deleting, exactly the old keys that no compatible deleted name has as stem remain, with their values |
| EncodingCache.DropAllRaises | facekit_reina.py:242-248 | deleting raises iff some compatible name's stem is absent to begin with or was popped for an earlier name, and then with KeyError |
| EncodingCache.KeptKeys | facekit_reina.py:242-248 | the keys no compatible deleted name has as stem, in their order |
| EncodingCache.KeptKeysSnoc | facekit_reina.py:242-248 | one more deleted name takes exactly its stem out of the kept keys |
| EncodingCache.DropAllKeyOrder | facekit_reina.py:242-248 | the pop loop leaves exactly the kept keys, in their old order |
| EncodingCache.DropAllRaiseSticky | facekit_reina.py:242-248 | once a pop raises, later names change nothing: the loop ends with that KeyError |
| EncodingCache.Bootstrap | facekit_reina.py:165-175 | the first-run cache: AddAll over the non-directory names of the listing; stated by BootstrapContents |
| EncodingCache.BootstrapContents | facekit_reina.py:165-175 | the bootstrap raises iff a compatible non-directory file has no face; otherwise its keys are exactly the stems of those files |
| EncodingCache.Patch | facekit_reina.py:221-248 | additions first, then deletions, stopping at the first exception; stated by PatchDeletedStemAbsent, PatchUntouched and PatchAddedStem |
| EncodingCache.PatchDeletedStemAbsent | facekit_reina.py:221-248 | a stem of a compatible deleted name is absent after the patch, even if an added name wrote it |
| EncodingCache.PatchKeyOrder | facekit_reina.py:221-248 | the patched cache's keys are the old keys, then the new stems, with the deleted stems taken out, in that order |
| EncodingCache.PatchUntouched | facekit_reina.py:221-248 | a stem no changed name writes is present after the patch iff it was before, with its old value |
| EncodingCache.PatchAddedStem | facekit_reina.py:227-235 | a stem only added names write holds the first encoding of the last such name |
| EncodingCache.UnchangedFolderKeepsCache | facekit_reina.py:199-216 | for a folder unchanged since its snapshot was stored, the loaded cache is returned and the cache file is not rewritten |
| EncodingCache.EmptyFolderRaisesOnSecondCall | facekit_reina.py:193-199 | a bootstrap over a folder with no files succeeds with an empty cache, and the next call raises UnboundLocalError |
| EncodingCache.RaisingPatchLeavesCacheStale | facekit_reina.py:199-258 | a patch that raises leaves the snapshot renewed and the cache as it was, so the next call returns the stale cache |
| EncodingCache.GenSav | facekit_reina.py:155-261 | the returned cache or exception and both files afterwards, for each state of the cache and snapshot files; stated by UnchangedFolderKeepsCache, EmptyFolderRaisesOnSecondCall and RaisingPatchLeavesCacheStale |
| EncodingCache.KnownCache.GenSavEncodingsDict | facekit_reina.py:155-261 | returns, raises and leaves both files as specified: the bootstrap writes both files only on success; the patch path renews the snapshot first and rewrites the cache only on a reported change that did not raise |
| EncodingCache.AddEncoding | facekit_reina.py:229-235 | one insertion step computes the specified single-name addition |
| EncodingCache.DropEncoding | facekit_reina.py:243-248 | one pop step computes the specified single-name deletion |
| EncodingCache.BuildEncodings | facekit_reina.py:165-175 | the bootstrap loop computes the specified bootstrap |
| EncodingCache.AddEncodings | facekit_reina.py:225-235 | the insertion loop computes the specified additions |
| EncodingCache.DropEncodings | facekit_reina.py:238-248 | the pop loop computes the specified deletions |
| Recognition.Match | facekit_reina.py:267-271 | no result exactly when the probe image yields no encoding |
| Recognition.Scan | facekit_reina.py:273-283 | the state `min_face_distance`, `matched_people`, `is_matched` after the loop over the cache; stated by ScanIsMinimum, ScanMatchedIff and ScanWinner |
| Recognition.ScanIsMinimum | facekit_reina.py:277-283 | the running minimum is at most 99999 and at most every distance |
| Recognition.ScanMatchedIff | facekit_reina.py:277-283 | `is_matched` ends true iff the final minimum is at most 0.4 |
| Recognition.ScanWinner | facekit_reina.py:277-281 | below 99999, the minimum belongs to the reported name, and every earlier key is strictly farther |
| Recognition.NothingCloseIsUnknown | facekit_reina.py:273-289 | with an empty mapping or no distance within 0.4, the result is ("unknown", 99999) |
| Recognition.FirstClosestIsMatched | facekit_reina.py:277-289 | otherwise the result is the first key attaining the least distance, with that distance |
| Recognition.FacePeopleMatch | facekit_reina.py:266-289 | the loop computes the specified match, None iff the probe has no encoding |
| Recognition.FaceMatch | facekit_reina.py:314-320 | one located face: the crop at its normalised box is matched against the cache; stated by CollateKeys and CollateLastWriter |
| Recognition.Collate | facekit_reina.py:308-325 | the collated dict has no repeated names |
| Recognition.CropAndRecognizeOf | facekit_reina.py:300-305 | None exactly when no face is located |
| Recognition.CollateKeys | facekit_reina.py:309-325 | the collated names are exactly the names of the faces whose match is not None |
| Recognition.CollateLastWriter | facekit_reina.py:325 | a name holds the box and distance of the last face that matched it |
| Recognition.CropAndRecognize | facekit_reina.py:298-326 | the loop computes the specified collation, None iff there is no face |
| Recognition.Targets | facekit_reina.py:384-390 | the annotated files are exactly the listed names that `isdir` (on the bare name) rejects and that have a compatible extension |
| Recognition.TargetsInOrder | facekit_reina.py:384-392 | targets keep the order of the listing |
| Recognition.Tail | facekit_reina.py:335 | `os.path.split(p)[1]`, the text after the last '/'; stated by TailHasNoSlash and TailOfJoin |
| Recognition.TailHasNoSlash | facekit_reina.py:335 | the output file name contains no '/' |
| Recognition.TailOfJoin | facekit_reina.py:335 | for a raw folder ending in '/', each output is named after its input |
| Recognition.OutputFor | facekit_reina.py:332-365 | the image `generate_face_recognition_img` writes: named recognized + the input tail, carrying the collation of the input; stated through Outputs and TailOfJoin |
| Recognition.Outputs | facekit_reina.py:384-392 | one annotated image per target, in order |
| Recognition.AnnotateAll | facekit_reina.py:384-392 | the loop writes the specified images |
| Recognition.StartRecognition | facekit_reina.py:372-394 | an exception of the cache update ends the run; otherwise every target is annotated with the updated cache, and both files are left as the cache update leaves them |
| Positioning.Lower | facekit_reina.py:124 | `str.lower` on the answers, lowering 'A'-'Z'; stated by LowerIsY and LowerIsAll |
| Positioning.LowerIsY | facekit_reina.py:124 | an answer counts as `y` exactly when it is "y" or "Y" |
| Positioning.LowerIsAll | facekit_reina.py:129 | an answer counts as `all` exactly when it spells "all" in any mix of cases |
| Positioning.AskOverwrite | facekit_reina.py:122-134 | the overwrite question: the first `y`, `n` or `all` and the answers after it, or EOFError; stated by OverwriteSkipsOthers and OverwriteExhausted |
| Positioning.OverwriteSkipsOthers | facekit_reina.py:122-134 | other answers are passed over; the first `y`/`n`/`all` decides, and reading resumes after it |
| Positioning.OverwriteExhausted | facekit_reina.py:122-123 | with no deciding answer left, `input()` raises EOFError |
| Positioning.AskShowFormats | facekit_reina.py:137-146 | the formats question: the answers after the first `y` or `n`, or EOFError; stated by FormatsSkipsOthers, FormatsExhausted and FormatsQuestionIgnoresAll |
| Positioning.FormatsSkipsOthers | facekit_reina.py:137-146 | other answers, `all` among them, are passed over; the first `y` or `n` ends the question and reading resumes after it |
| Positioning.FormatsExhausted | facekit_reina.py:137-138 | with no `y` or `n` left, `input()` raises EOFError |
| Positioning.FormatsQuestionIgnoresAll | facekit_reina.py:137-146 | the formats question re-asks on `all` |
| Positioning.Step | facekit_reina.py:111-146 | one name of the raw listing; stated by AbsentCopyIsDrawn, ExistingCopyAsks, StepKeepsAll, UnsupportedAlwaysAsks and UnsupportedExhausted |
| Positioning.Steps | facekit_reina.py:111-146 | Step for each name in turn, stopping at the first exception; stated by AfterAllNoQuestions |
| Positioning.StartPositionOf | facekit_reina.py:92-148 | the whole flow from an unset `all_overwrite` flag; computed by StartPosition |
| Positioning.AbsentCopyIsDrawn | facekit_reina.py:116-117 | a compatible image whose copy is absent is drawn without reading any answer |
| Positioning.ExistingCopyAsks | facekit_reina.py:118-134 | before `all`, an existing copy asks: `y` redraws this image only, `n` skips it, `all` redraws it and sets the flag |
| Positioning.StepKeepsAll | facekit_reina.py:119-131 | the `all_overwrite` flag is never cleared |
| Positioning.AfterAllNoQuestions | facekit_reina.py:119-120 | after `all`, directories and compatible images read no answer and every image is drawn |
| Positioning.UnsupportedAlwaysAsks | facekit_reina.py:135-146 | after `all`, an unsupported file still asks the formats question: the answers up to the first `y` or `n` are read and nothing else changes |
| Positioning.UnsupportedExhausted | facekit_reina.py:135-146 | after `all`, an unsupported file with no `y` or `n` left to read raises EOFError |
| Positioning.Generate | facekit_reina.py:68-86 | `generate_face_positioned_img`: the copy of the file now exists and is recorded with the normalised boxes of its faces, the drawing left out; stated by Boxes and AbsentCopyIsDrawn |
| Positioning.Boxes | facekit_reina.py:73-81 | each located face is drawn as its normalised box |
| Positioning.ReadOverwrite | facekit_reina.py:122-134 | the loop reads the answers as specified |
| Positioning.ReadShowFormats | facekit_reina.py:137-146 | the loop reads the answers as specified |
| Positioning.StartPosition | facekit_reina.py:92-148 | the loop over the raw listing computes the specified flow, `isdir` being asked about raw + name |

## Left out

- `face_webcam.py` is not part of this model. It only captures and encodes network video.
- Drawing and image I/O (`cv2.rectangle`, `putText`, `imread`, `imwrite`, colour conversion) are left out. An output image is represented by its name and the boxes and matches drawn on it.
- The internals of face_recognition are left out. Face location, encoding and distance are given functions, fixed for one run.
- JSON text and numpy conversion are left out. A stored file is an abstract value, except for the empty and `null` snapshot files.
- A snapshot file holding JSON other than an object or `null` is not modelled.
- Printed diagnostics are left out, as are the formats printed after the "Show all supported formats?" prompt. That prompt is kept only for the answers it reads.
- The crop `image[ymin:ymax, xmin:xmax]` is left out. It is the argument `(file, box)` of the crop-encoding function.
- File system calls answer the same way throughout a run. Modification times are not changed by the program's own writes, and the listing does not change between calls.
- `mkdir` of the output and JSON folders is left out.
- Positioning.Lower: only 'A'-'Z' are lowered. No other character lowers to 'y', 'n', 'a' or 'l', so the answers the loops compare are decided correctly.
- Positioning.StartPosition: the positioned folder's contents are a set passed in and returned, not a mutable object. That set is re-listed before each file and changes only through the program's own writes.
- EncodingCache.KnownCache.GenSavEncodingsDict: `new_dict = old_dict` aliases one dict. The model patches a value copy and rewrites the file only on success, which gives the outcome the source observes.
- Recognition.Tail: only two facts about `os.path.split(p)[1]` are proved: it holds no '/' (TailHasNoSlash), and it is the file name when the folder ends in '/' (TailOfJoin).
- The 99999 sentinel is an int in the source and a real here. The value compares the same.
- Modification times and face distances are Python floats in the source and `real` here. The tolerance 0.4 stands for the float literal `0.4`, and rounding is not modelled.
- I/O errors are not modelled. `FileSystem` and `FaceLibrary` are total functions, so `os.listdir` of a missing folder, `getmtime` of a vanished file and an unreadable image in `load_image_file` or `imread` never raise here.
- Concurrency and external changes to the files during a run are left out.
