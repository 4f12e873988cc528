# Kindle Manga Comic Automator — a verified model of `MangaConverter`

The Kindle Manga Comic Automator (KMCA) converts manga and comic files into CBZ
archives. Supported inputs are PDF, MOBI, AZW3, EPUB, CBZ and CBR. One run works
like this:

- It scans its working directory for regular files whose lower-cased suffix is
  supported, and sorts them.
- It creates the staging root `Fonte/`, unless nothing was found.
- It handles each file in turn:
  - create `Fonte/<stem>/`;
  - move the source file into that folder;
  - pick an extractor from the extension;
  - write the pages into the folder as `001.<ext>`, `002.<ext>`, …;
  - pack them, in sorted order and under their base names, into
    `<working dir>/<stem>.cbz`.
- A file that fails is reported, and the run goes on with the next file.

This project models that core in Dafny:

- `Strings`, `Sorting`, `Paths`: the parts of Python the code relies on.
  - `str.lower`, `str.endswith`.
  - The code-point order of `sorted`.
  - `pathlib`'s `/`, `.name`, `.suffix` and `.stem`.
- `Numbering`: the `{n:03d}` page names.
- `Formats`: the supported set, the scan's test and the extension dispatch.
- `Extractors`: the five extractors, as imperative loops proved against naming
  plans.
- `Assembly`: `create_cbz`.
- `Converter`: the `MangaConverter` class.
  - Its state is the effects on the disk, plus a log of the per-file outcomes.
  - `run`, `identify_files` and `process_file` are methods.
  - Their specifications are pure functions: `Process` for one file; `RunDisk`
    and `RunLog` for a run.

The outside world is given as parameters:

- the directory listing, and the current directory when no working directory is
  named;
- what each container library reports about a file (`Content`);
- whether moving the file and writing its archive succeed (`FileInput`).

A file is read when its turn comes, not when it is listed. `Disk` records the
archives the run has written. When a file's path holds one of those archives,
that archive is what gets read (`Converter.OnDisk`). Moving a source into
staging takes away whatever archive sat at its path (`Converter.Apply`).

The central result is about image order. As long as an extractor produces at most
999 images, the padded names are distinct and already in `sorted` order, so entry
k of the archive is the k-th extracted image (`Assembly.ArchiveFollowsExtraction`,
`Converter.ConvertedInExtractionOrder`). The bound is exact:

- `f"{1000:03d}"` is `"1000"`.
- `"1000.png"` sorts between `"100.png"` and `"101.png"`.
- From 1000 images on, some archive entry is not the image extracted at its
  position (`Numbering.OrdinalOrderNeedsAtMost999`,
  `Assembly.ArchiveReordersFrom1000`).

Two more facts about the code shape the model:

- Page names have at least three digits, not exactly three. The format pads
  to width three and keeps every digit of a wider number. So names grow to four
  digits at page 1000, and the page order breaks, as shown above.
- A run prints one line per file (`✓ Concluído` / `✗ Erro`) and a closing
  banner. It prints no count of successes and failures. The model keeps the
  per-file outcomes in `log` and has no summary.

## Model

| member | source | states |
|---|---|---|
| Strings.Lower | manga_converter.py:78 | `lower` keeps the length of the string |
| Strings.LowerIsLowerCase | manga_converter.py:78 | after `lower` no upper-case letter is left, and lowering twice equals lowering once |
| Strings.LowerKeepsLowerCase | manga_converter.py:243 | a name with no upper-case letter is unchanged by `lower` |
| Strings.EndsWith | manga_converter.py:243 | `s.endswith(tail)`: the last `len(tail)` characters of `s` are `tail`; its use is stated by `Extractors.RasterNames` and `Extractors.RasterPng` |
| Strings.Below | manga_converter.py:80 | `a <= b` on strings, character by character, a prefix first; its laws are the `Below…` lemmas below |
| Strings.BelowReflexive | manga_converter.py:80 | Python's string order is reflexive |
| Strings.BelowTotal | manga_converter.py:80 | any two strings are comparable |
| Strings.BelowAntisymmetric | manga_converter.py:80 | strings ordered both ways are equal |
| Strings.BelowTransitive | manga_converter.py:80 | the order is transitive |
| Strings.BelowAt | manga_converter.py:244 | the first differing character decides the order, strictly |
| Strings.BelowCommonPrefix | manga_converter.py:302 | a shared prefix (such as a shared folder) does not change the order |
| Sorting.Insert | manga_converter.py:80 | inserting adds one element |
| Sorting.Sort | manga_converter.py:80 | `sorted` keeps the length |
| Sorting.InsertPermutes | manga_converter.py:80 | inserting adds exactly one occurrence of the element |
| Sorting.InsertSorted | manga_converter.py:80 | inserting into an ascending list keeps it ascending |
| Sorting.SortSpec | manga_converter.py:80 | `sorted` returns a permutation of its input, in ascending order |
| Sorting.SortOfSorted | manga_converter.py:302 | sorting an ascending list leaves it unchanged |
| Sorting.SortedPermutationUnique | manga_converter.py:80 | two ascending arrangements of the same elements are the same list |
| Sorting.SortIsTheSortedPermutation | manga_converter.py:80 | any ascending rearrangement of a list is what `sorted` returns for it |
| Sorting.DistinctCountsOnce | manga_converter.py:80 | a list without repeats holds each element at most once |
| Sorting.RepeatCountsTwice | manga_converter.py:80 | an element at two positions is counted at least twice |
| Sorting.SortKeepsDistinct | manga_converter.py:80 | `sorted` of a list without repeats is strictly ascending |
| Paths.Join | manga_converter.py:90-94 | `dir / name` as `dir + "/" + name`; what it keeps is stated by `Paths.BaseNameOfJoin` and `Paths.NameKeptByJoin` |
| Paths.BaseName | manga_converter.py:94 | `.name` has no separator and is no longer than the path |
| Paths.BaseNameIsLastComponent | manga_converter.py:303 | `.name` ends the path, and a '/' stands before it unless it is the whole path |
| Paths.LastDot | manga_converter.py:78 | `rfind('.')` is -1 or the index of a '.' |
| Paths.LastDotIsLast | manga_converter.py:78 | no '.' follows the index `rfind('.')` reports |
| Paths.Suffix | manga_converter.py:78 | `.suffix` is empty, or a '.' followed by at least one character |
| Paths.SuffixShape | manga_converter.py:215 | `.suffix` holds a single '.' and no separator, and it ends `.name` |
| Paths.Stem | manga_converter.py:89 | `.stem` has no separator and is no longer than `.name` |
| Paths.StemThenSuffix | manga_converter.py:89 | `.stem + .suffix == .name`, and a name with a suffix has a non-empty stem |
| Paths.BaseNameOfJoin | manga_converter.py:94 | `(dir / name).name == name` for a name without a separator |
| Paths.BaseNameOfName | manga_converter.py:94 | a name without a separator is its own `.name` |
| Paths.SplitName | manga_converter.py:215 | a name made of a non-empty stem and one suffix has exactly that `.suffix` and that `.stem` |
| Paths.SplitJoinedName | manga_converter.py:119 | `dir / (stem + ext)` has `.name` `stem + ext`, `.suffix` `ext` and `.stem` `stem` when `ext` is one suffix |
| Paths.NameKeptByJoin | manga_converter.py:94-100 | moving a file into another folder keeps its name, suffix and stem, so `dest_file.suffix` is the suffix the scan accepted |
| Numbering.DigitChar | manga_converter.py:148 | a digit's character is in '0'..'9' |
| Numbering.Decimal | manga_converter.py:148 | `str(n)` is non-empty, all digits, and one digit exactly when n < 10 |
| Numbering.Pad3 | manga_converter.py:148 | `{n:03d}` (also at lines 158, 187, 218 and 251) is at least three characters long and no shorter than `str(n)` |
| Numbering.ThreeDigits | manga_converter.py:148 | below 1000, `{n:03d}` is the hundreds, tens and units digits |
| Numbering.PaddedBelow | manga_converter.py:218 | for ordinals i < j < 1000 the padded names are distinct and ordered as i, j, whatever follows the digits |
| Numbering.Numbered | manga_converter.py:251 | an extractor's naming plan has one path per image |
| Numbering.SameFolderBelow | manga_converter.py:302 | paths in one folder are ordered and distinguished by their names |
| Numbering.NumberedInOrdinalOrder | manga_converter.py:302 | up to 999 images the names are strictly ascending, so `sorted` returns them unchanged |
| Numbering.FourDigits | manga_converter.py:148 | `{1000:03d}` is "1000"; `{100:03d}` and `{101:03d}` are "100" and "101" |
| Numbering.HundredBeforeThousand | manga_converter.py:158 | "100.png" sorts strictly before "1000.png" |
| Numbering.ThousandBeforeHundredOne | manga_converter.py:158 | "1000.png" sorts strictly before "101.png" |
| Numbering.OrdinalOrderNeedsAtMost999 | manga_converter.py:302 | the names are ascending, and `sorted` leaves them unchanged, if and only if there are at most 999 |
| Formats.IsConvertible | manga_converter.py:78 | the scan's test: the lower-cased `.suffix` is in `SUPPORTED_FORMATS`; stated by `Formats.ConvertibleDispatches` and the examples below |
| Formats.IsRasterName | manga_converter.py:243 | the archive extractors' test: the lower-cased name ends in one of the five raster extensions; stated by `Extractors.RasterNames` |
| Formats.Dispatch | manga_converter.py:100-113 | the chain picks an extractor exactly for the supported extensions, one meant for that extension; any other extension raises the unsupported-format error carrying it |
| Formats.DispatchPicksTheOwner | manga_converter.py:102-111 | every supported extension belongs to exactly one extractor, and the chain picks that one (MOBI and AZW3 share one) |
| Formats.ConvertibleDispatches | manga_converter.py:78 | whatever the scan accepts, the dispatch accepts |
| Formats.UpperCaseAccepted | manga_converter.py:78 | "X.PDF" is accepted |
| Formats.TextRejected | manga_converter.py:78 | "notes.txt" is not accepted |
| Formats.DotFileIgnored | manga_converter.py:78 | a hidden file named ".pdf" has no suffix and is skipped |
| Extractors.PdfTails | manga_converter.py:136-161 | one name tail per page |
| Extractors.ExtractFromPdf | manga_converter.py:136-164 | one image per page, in page order: image k is `{k+1:03d}.` plus the first embedded image's extension, or `.png` for a rendered page |
| Extractors.MobiTails | manga_converter.py:182-190 | one `.png` tail per page |
| Extractors.ExtractFromMobi | manga_converter.py:181-194 | one PNG per page, in page order; the counter ends equal to the number of images |
| Extractors.ItemsOfType | manga_converter.py:210 | the kept items are exactly the manifest's items of the type the filter compares against, and no more than the manifest holds; the code compares against type 9, ebooklib's ITEM_DOCUMENT (its comment says ITEM_IMAGE, which is 1) |
| Extractors.EpubTails | manga_converter.py:214-215 | one tail per kept item |
| Extractors.ExtractFromEpub | manga_converter.py:210-226 | page k is `{k+1:03d}` plus the suffix of the k-th item of type 9, or `.jpg` when it has none, in manifest order |
| Extractors.ItemsOfTypeAppend | manga_converter.py:210 | filtering the manifest commutes with splitting it |
| Extractors.KeptItemsInManifestOrder | manga_converter.py:210-212 | an item of another type contributes nothing wherever it stands; a kept item lands between the kept items before and after it |
| Extractors.TypeNineKeepsDocuments | manga_converter.py:210 | as written: from a manifest holding a PNG image and an XHTML chapter, the filter keeps the chapter and the page written is `001.xhtml` |
| Extractors.ImageTypeKeepsImages | manga_converter.py:210 | filtering on ITEM_IMAGE instead keeps the PNG image and writes `001.png` |
| Extractors.RasterNames | manga_converter.py:242-243 | the kept entries are exactly those whose lower-cased name ends in a raster extension |
| Extractors.RasterPng | manga_converter.py:243 | a lower-case name ending in ".png" passes the raster test |
| Extractors.RasterNamesCount | manga_converter.py:242-243 | a raster name is kept as many times as the namelist holds it, any other name never |
| Extractors.RasterNamesAppend | manga_converter.py:242-243 | filtering two stretches of the namelist is filtering each in turn |
| Extractors.RasterNamesOnePerEntry | manga_converter.py:242-243 | each entry adds itself when it passes the raster test and nothing otherwise, between the names kept before it and after it |
| Extractors.RasterEntries | manga_converter.py:242-244 | the raster entries, sorted by name; stated by `Extractors.RasterEntriesSpec` |
| Extractors.ArchiveTails | manga_converter.py:249 | one suffix per kept entry |
| Extractors.RenumberRasterEntries | manga_converter.py:244-257 | one image per raster entry, in name order; image k is `{k+1:03d}` plus that entry's own suffix |
| Extractors.ExtractFromCbz | manga_converter.py:240-259 | the ZIP extractor follows that policy |
| Extractors.ExtractFromCbr | manga_converter.py:273-292 | the RAR extractor follows the same policy |
| Extractors.RasterEntriesSpec | manga_converter.py:242-244 | the pages of a comic archive are sorted and are a permutation of the kept raster entries: each raster name occurs as often as in the namelist, any other name never |
| Extractors.ArchiveSortExample | manga_converter.py:244 | entries b.png, a.png, c10.png become pages a, b, c10 |
| Extractors.ArchiveSortIsNotNumeric | manga_converter.py:244 | entries 1.png, 2.png, 10.png become pages 1, 10, 2: the order is by characters |
| Extractors.Tails | manga_converter.py:102-111 | the name tails of the extractor the chain chose, or the extraction error when its library cannot read the content; stated by `Extractors.Extract` |
| Extractors.Extract | manga_converter.py:102-111 | an extractor returns its naming plan exactly when the library reads the content, and fails with the extraction error otherwise |
| Extractors.Invoke | manga_converter.py:102-111 | calling the chosen extractor yields that result |
| Extractors.TailsStayInFolder | manga_converter.py:148 | no image name carries a separator, given the PDF extension tags carry none |
| Assembly.EntryPlan | manga_converter.py:301-303 | the entries `create_cbz` writes: the image paths in sorted order, each under its base name; stated by `Assembly.EntryPlanSpec` |
| Assembly.EntryPlanSpec | manga_converter.py:302-303 | the archive holds each image path once, in ascending order, each under its base name |
| Assembly.CreateCbz | manga_converter.py:294-303 | the entries written are the entry plan |
| Assembly.ArchiveFollowsExtraction | manga_converter.py:302-303 | with at most 999 images, archive entry k is the k-th extracted image, stored as `{k+1:03d}` plus its tail |
| Assembly.ArchiveReordersFrom1000 | manga_converter.py:302 | from 1000 images on, some archive entry is not the image extracted at its position |
| Converter.Found | manga_converter.py:76-79 | the scan loop's list is never longer than the listing; its contents are stated by `Converter.FoundMembers`, `Converter.FoundOnePerEntry` and `Converter.FoundDistinct` |
| Converter.FoundAppend | manga_converter.py:76-79 | scanning two stretches of the listing is scanning each in turn |
| Converter.FoundOnePerEntry | manga_converter.py:76-79 | each entry adds its own path when it is a regular file that passes the test and nothing otherwise, between the paths found before it and after it |
| Converter.JoinInjective | manga_converter.py:77 | entries with different names are different paths |
| Converter.FoundDistinct | manga_converter.py:76-79 | in a directory whose entries have distinct names, no path is found twice |
| Converter.FoundMembers | manga_converter.py:76-79 | a path is found exactly when it names a regular file of the listing that the test keeps |
| Converter.Candidates | manga_converter.py:76-79 | the scan loop with the supported-suffix test; stated by `Converter.ScanSpec` |
| Converter.ScanSpec | manga_converter.py:76-80 | the scan's result is sorted and holds exactly the regular files whose lower-cased suffix is supported; when the entries' names are distinct, as in a directory, it is strictly ascending, so each such file appears once |
| Converter.StagingFolder | manga_converter.py:90 | `source_path / stem`; stated by `Converter.PlacedByStem` |
| Converter.ArchivePath | manga_converter.py:119 | `working_dir / f"{stem}.cbz"`; stated by `Converter.ArchivePathsDiffer` and `Converter.ArchiveNameKeepsStem` |
| Converter.Process | manga_converter.py:82-121 | one call of `process_file` on the file as read; stated by `Converter.PlacedByStem`, `Converter.WritesOnlyAfterExtraction`, `Converter.ScannedFilesAreDispatched` and `Converter.ConvertedInExtractionOrder` |
| Converter.Packed | manga_converter.py:301-303 | what `zipfile` lists when it opens an archive the converter wrote: the names of a complete one, in writing order; a truncated one cannot be read |
| Converter.OnDisk | manga_converter.py:95-111 | the file is read at its path when its turn comes: an archive the run wrote there is what is read |
| Converter.StepOf | manga_converter.py:57-60 | each file of a run goes through `process_file` on the disk as it is at that moment |
| Converter.Apply | manga_converter.py:91-120 | a step creates its folder, records the move, removes the moved source's path from the archives and adds the written archive; stated by `Converter.ApplyKeeps` and `Converter.ApplyMoves` |
| Converter.ApplyKeeps | manga_converter.py:95-120 | an archive survives a step unless the step writes the same path or moves the file at that path |
| Converter.ApplyMoves | manga_converter.py:95 | after a step a file's recorded destination is the step's move, or else what it was |
| Converter.RunDisk | manga_converter.py:57-64 | the disk after the files are handled one after another; stated by the `Run…` lemmas |
| Converter.RunLog | manga_converter.py:57-64 | the report of handling the files one after another; stated by `Converter.EveryFileAttemptedOnce` |
| Converter.StepAt | manga_converter.py:57-60 | the step of the i-th file, on the disk the files before it left |
| Converter.StepAtIsProcess | manga_converter.py:57-60 | the i-th step of a run is `process_file` on the i-th file as the disk then shows it |
| Converter.RunGrows | manga_converter.py:57-64 | handling one more file adds its effects and its report line |
| Converter.EveryFileAttemptedOnce | manga_converter.py:57-64 | every file is attempted exactly once, in order, and a failure does not stop the files after it; each outcome is that file's step on the disk the earlier files left |
| Converter.RunKeepsArchives | manga_converter.py:119-120 | an archive written during a run is on disk at the end unless a later file writes the same path or is moved away from it |
| Converter.ArchivesOnlyFromWrites | manga_converter.py:119-120 | a path that held no archive before a run and that no step writes holds none after it |
| Converter.ScannedFilesAreDispatched | manga_converter.py:112-113 | a file the scan accepted never fails with the unsupported-format error |
| Converter.PlacedByStem | manga_converter.py:89-94 | the staging folder is `Fonte/<stem>`, a moved source keeps its name there, and the archive is `<stem>.cbz` in the working directory |
| Converter.WritesOnlyAfterExtraction | manga_converter.py:94-120 | only a failed move leaves the source in place; an archive is written only after a successful extraction; it is complete exactly when the file is reported converted, and then holds the reported entries |
| Converter.ConvertedInExtractionOrder | manga_converter.py:100-120 | a converted file with at most 999 images has as archive entry k the k-th extracted image, under its base name |
| Converter.JoinExtensionInjective | manga_converter.py:119 | different names with the same extension give different paths |
| Converter.ArchivePathsDiffer | manga_converter.py:119 | files with different stems get different archives |
| Converter.StepPlacement | manga_converter.py:89-119 | whatever the disk holds, a file's step uses its own staging folder, moves the file there under its own name and writes only its own archive path |
| Converter.StepMovesIntoStaging | manga_converter.py:94-95 | a step that moves its file moves it into `Fonte/<stem>` under its own name |
| Converter.RunFolders | manga_converter.py:90-91 | when each step creates the folder named after its file, a run creates exactly the folders of its files |
| Converter.RunStagesEveryFile | manga_converter.py:88-91 | after a run every file has its staging folder and no other folder was created |
| Converter.RunMoves | manga_converter.py:94-95 | when each move goes to the destination named for its file, every moved file is recorded at that destination after the run |
| Converter.RunMovesIntoStaging | manga_converter.py:94-95 | after a run every moved file is recorded in its staging folder under its own name |
| Converter.ArchiveNameKeepsStem | manga_converter.py:119 | a converted file has a non-empty stem, and its archive has the same stem |
| Converter.RunKeepsConvertedArchive | manga_converter.py:57-64 | after a run, a converted file's complete archive is on disk unless a later file has the same stem |
| Converter.OwnContentsUnlessOverwritten | manga_converter.py:95-120 | a source is read from its own contents unless an archive sits at its path: one there before the run, or one an earlier file with the same stem wrote |
| Converter.EarlierArchiveReplacesSource | manga_converter.py:119-120 | as written: when a file's archive path is a later source, the later step reads the earlier file's archive |
| Converter.CbrArchiveIsCbz | manga_converter.py:119 | the archive path of "/w/a.cbr" is "/w/a.cbz" |
| Converter.CbrAndCbzScanned | manga_converter.py:78 | the scan accepts both "/w/a.cbr" and "/w/a.cbz" |
| Converter.ScannedAs | manga_converter.py:78 | a name in "/w" ending in ".cbr" or ".cbz" is accepted by the scan |
| Converter.CbrBeforeCbz | manga_converter.py:80 | "/w/a.cbr" sorts strictly before "/w/a.cbz", so it is handled first |
| Converter.OwnContents | manga_converter.py:57-64 | the intended run: each file read as the listing found it |
| Converter.OwnContentsIsolated | manga_converter.py:57-64 | in the intended run every file is attempted once, in order, and its outcome is `process_file` on its own contents, whatever came before |
| Converter.MangaConverter.constructor | manga_converter.py:26-33 | the staging root is `<working dir>/Fonte` |
| Converter.MangaConverter.IdentifyFiles | manga_converter.py:70-80 | the result is the sorted list of the regular files whose suffix passes the test |
| Converter.MangaConverter.ProcessFile | manga_converter.py:82-121 | the file is read as it is on the disk now; the outcome and the new disk are those of `Process`; the log is unchanged |
| Converter.MangaConverter.ConvertAll | manga_converter.py:57-64 | the disk and the log become those of handling the files in order, each read as the earlier files left the disk, whatever fails |
| Converter.MangaConverter.Run | manga_converter.py:35-64 | with no file found nothing changes and `Fonte` is not created; otherwise `Fonte` is created and every found file is handled in sorted order |

## Left out

- `gui_launcher.py` is not part of this model.
- `main`, the `KeyboardInterrupt` handling and the banners are not modelled. The
  progress messages are reduced to the per-file outcomes kept in `log`.
- Image and archive bytes are not modelled. This covers page rendering at twice
  the resolution, the bytes an extractor copies, and the stored-ZIP layout. An
  archive is modelled as its list of entries.
- Extracted image files are not part of `Disk`. The model tracks the folders
  created, the moved sources and the archives written. Images left in staging by
  a failed conversion are not tracked.
- I/O failures are modelled as flags.
  - `FileInput.movable` covers `shutil.move`.
  - `FileInput.writable` covers an I/O error while the archive is being
    written (manga_converter.py:301-303). That error leaves a `Truncated`
    file, which cannot be read back.
  - `Content.Unreadable`, or content of the wrong kind, covers a library that
    cannot read the file.
  - `mkdir(exist_ok=True)` always succeeds in the model.
- Writing an extracted image into the staging folder can fail
  (manga_converter.py lines 151-152, 160, 189, 221-222 and 254-255). The model has
  no flag for it. Such a failure is represented only as `Content.Unreadable`,
  which gives the extraction error.
- Converter.Process: two other ways the archive write can fail are not
  modelled. If opening `<stem>.cbz` for writing fails, the file already at that
  path stays as it was. If copying one image into the archive fails, leaving
  the `with` block still closes the archive, so a readable archive with the
  entries written before the failure remains. The model has only the `Truncated`
  outcome for a failed write.
- Exception messages are not modelled. Errors are kept as four kinds, which `run`
  treats alike.
- The directory listing (`iterdir`, `is_file`) and the current directory are
  parameters.
- Paths are '/'-separated strings in normal form. `sorted` on `Path` objects
  compares component lists, not strings. Every list the code sorts holds paths of
  one directory with separator-free names. For such lists the two orders agree
  (`Strings.BelowCommonPrefix`).
- Only POSIX paths and case-sensitive file systems are modelled. Windows path
  order and equality ignore case, which would change the scan order. On a
  case-insensitive file system `a.CBZ` and `a.cbz` are one file, which widens
  the same-stem clash listed under "## Findings".
- Strings.Lower: lower-cases ASCII letters only. No other character lower-cases
  to a letter of any extension the code tests. So the scan, the dispatch and the
  raster test decide as they would with full Unicode case mapping.
- The suffix rule modelled is: the last '.' of the name counts when it is neither
  the name's first nor its last character.
- Extractors.TailsStayInFolder: requires that PyMuPDF's extension tags ("png", "jpeg",
  …) hold no '/'. The library is not part of the model.
- A source moved into staging is recorded by its destination only. When the
  file moved was an archive the run wrote, its contents are not tracked at the
  destination.
- Files other than the run's own archives are read as the listing found them.
  Changes someone else makes to the disk during a run are not modelled.

## Findings

The class and its specification functions follow the code as written. Each
corrected member below states the evidently intended behaviour beside them.

| source | as written | input that shows it | evidently intended | confidence | as-written member | corrected member |
|---|---|---|---|---|---|---|
| manga_converter.py:210 | the EPUB filter keeps items with `get_type() == 9`, ebooklib's ITEM_DOCUMENT | a manifest with the image `p.png` (type 1) and the chapter `c.xhtml` (type 9): the page written is `001.xhtml`, a copy of the chapter | keep ITEM_IMAGE (type 1), as the comment on that line says, giving `001.png` | not executed | Extractors.TypeNineKeepsDocuments | Extractors.ImageTypeKeepsImages |
| manga_converter.py:119-120 | the archive goes to `<working dir>/<stem>.cbz`, which can be the path of a source not yet handled | a listing with `a.cbr` and `a.cbz`: `a.cbr` sorts first and converts, its archive replaces `a.cbz`, and the `a.cbz` step reads that archive instead of the user's file | every listed file is converted from its own contents | not executed | Converter.EarlierArchiveReplacesSource | Converter.OwnContentsIsolated |
