/** `MangaConverter`: the scan of the working directory, the per-file
    pipeline (staging, dispatch, extraction, assembly) and the batch loop
    that isolates per-file failures. The filesystem is modelled by its
    effects: the folders created, the source files moved, the archives
    written. */
module Converter {
  import opened Strings
  import opened Sorting
  import opened Paths
  import opened Numbering
  import opened Errors
  import opened Formats
  import opened Extractors
  import opened Assembly

  /** `MangaConverter.SOURCE_FOLDER`. */
  const SourceFolder: string := "Fonte"

  /** A child of the working directory, as `iterdir` and `is_file` see it. */
  datatype DirEntry = DirEntry(name: string, isFile: bool)

  /** Everything the outside world decides about one source file: what its
      container library reports, whether moving it into staging succeeds,
      and whether writing its archive succeeds. */
  datatype FileInput = FileInput(content: Content, movable: bool, writable: bool)

  datatype Outcome = Converted(archive: Path, entries: seq<Entry>) | Failed(error: Error)

  /** One line of the run's report: the file and how its conversion ended. */
  datatype Attempt = Attempt(file: Path, outcome: Outcome)

  /** What an archive write leaves: every entry, or, after an I/O error
      during the write, a file that cannot be read back. */
  datatype ArchiveFile = Complete(entries: seq<Entry>) | Truncated

  /** The converter's effects on the filesystem: the folders it created,
      the source files it moved (original path to new path), and the
      archives it wrote. */
  datatype Disk = Disk(folders: set<Path>, moved: map<Path, Path>, archives: map<Path, ArchiveFile>)

  /** The paths of the listing's regular files that `accept` keeps, in
      directory iteration order. */
  function Found(workingDir: Path, listing: seq<DirEntry>, accept: Path -> bool): (r: seq<Path>)
    ensures |r| <= |listing|
  {
    if listing == [] then []
    else
      var rest := Found(workingDir, listing[..|listing| - 1], accept);
      var entry := listing[|listing| - 1];
      var item := Join(workingDir, entry.name);
      if entry.isFile && accept(item) then rest + [item] else rest
  }

  /** A path is found exactly when it names a regular file of the listing
      that `accept` keeps. */
  lemma {:induction false} FoundMembers(workingDir: Path, listing: seq<DirEntry>, accept: Path -> bool, p: Path)
    ensures p in Found(workingDir, listing, accept) <==>
      exists e :: e in listing && e.isFile && p == Join(workingDir, e.name) && accept(p)
  {
    if listing != [] {
      var init := listing[..|listing| - 1];
      var last := listing[|listing| - 1];
      FoundMembers(workingDir, init, accept, p);
      if p in Found(workingDir, init, accept) {
        var e :| e in init && e.isFile && p == Join(workingDir, e.name) && accept(p);
        var j :| 0 <= j < |init| && init[j] == e;
        assert listing[j] == e;
      }
      if exists e :: e in listing && e.isFile && p == Join(workingDir, e.name) && accept(p) {
        var e :| e in listing && e.isFile && p == Join(workingDir, e.name) && accept(p);
        var j :| 0 <= j < |listing| && listing[j] == e;
        if j < |init| {
          assert init[j] == e;
        }
      }
    }
  }

  /** Finding over two stretches of the listing is finding over each in
      turn. */
  lemma {:induction false} FoundAppend(workingDir: Path, a: seq<DirEntry>, b: seq<DirEntry>, accept: Path -> bool)
    ensures Found(workingDir, a + b, accept) == Found(workingDir, a, accept) + Found(workingDir, b, accept)
    decreases |b|
  {
    if b == [] {
      assert a + b == a;
    } else {
      var ab := a + b;
      var init := b[..|b| - 1];
      assert ab[..|ab| - 1] == a + init;
      assert ab[|ab| - 1] == b[|b| - 1];
      FoundAppend(workingDir, a, init, accept);
    }
  }

  /** One path per kept entry, in listing order: an entry adds its own path
      when it is a regular file that `accept` keeps, and nothing otherwise,
      between the paths found before it and those found after it. */
  lemma FoundOnePerEntry(workingDir: Path, before: seq<DirEntry>, entry: DirEntry, after: seq<DirEntry>, accept: Path -> bool)
    ensures var item := Join(workingDir, entry.name);
      Found(workingDir, before + [entry] + after, accept)
        == Found(workingDir, before, accept) + (if entry.isFile && accept(item) then [item] else []) + Found(workingDir, after, accept)
  {
    assert [entry][..0] == [];
    FoundAppend(workingDir, before + [entry], after, accept);
    FoundAppend(workingDir, before, [entry], accept);
  }

  /** No two entries of a directory share a name. */
  predicate DistinctNames(listing: seq<DirEntry>)
  {
    forall i, j :: 0 <= i < j < |listing| ==> listing[i].name != listing[j].name
  }

  /** Entries with different names are different paths. */
  lemma JoinInjective(dir: Path, a: string, b: string)
    requires a != b
    ensures Join(dir, a) != Join(dir, b)
  {
    JoinExtensionInjective(dir, a, b, "");
    assert a + "" == a && b + "" == b;
  }

  /** In a directory whose entries have distinct names, no path is found
      twice. */
  lemma {:induction false} FoundDistinct(workingDir: Path, listing: seq<DirEntry>, accept: Path -> bool)
    requires DistinctNames(listing)
    ensures Distinct(Found(workingDir, listing, accept))
  {
    if listing != [] {
      var init := listing[..|listing| - 1];
      var last := listing[|listing| - 1];
      var item := Join(workingDir, last.name);
      var rest := Found(workingDir, init, accept);
      FoundDistinct(workingDir, init, accept);
      if last.isFile && accept(item) {
        assert item !in rest by {
          FoundMembers(workingDir, init, accept, item);
          forall e | e in init
            ensures Join(workingDir, e.name) != item
          {
            var j :| 0 <= j < |init| && init[j] == e;
            assert listing[j] == e;
            JoinInjective(workingDir, e.name, last.name);
          }
        }
        forall i, j | 0 <= i < j < |rest + [item]|
          ensures (rest + [item])[i] != (rest + [item])[j]
        {
          if j == |rest| {
            assert (rest + [item])[i] == rest[i];
          } else {
            assert (rest + [item])[i] == rest[i] && (rest + [item])[j] == rest[j];
          }
        }
      }
    }
  }

  /** The sources the scan finds, in directory iteration order. */
  function Candidates(workingDir: Path, listing: seq<DirEntry>): seq<Path>
  {
    Found(workingDir, listing, IsConvertible)
  }

  /** The scan's result is sorted and holds exactly the regular files of
      the listing whose lower-cased suffix is supported; in a directory
      (whose entries have distinct names) each of them appears once. */
  lemma ScanSpec(workingDir: Path, listing: seq<DirEntry>)
    ensures Sorted(Sort(Candidates(workingDir, listing)))
    ensures DistinctNames(listing) ==> StrictlySorted(Sort(Candidates(workingDir, listing)))
    ensures forall p :: p in Sort(Candidates(workingDir, listing)) <==>
      exists e :: e in listing && e.isFile && p == Join(workingDir, e.name) && IsConvertible(p)
  {
    var found := Candidates(workingDir, listing);
    SortSpec(found);
    forall p
      ensures p in Sort(found) <==> exists e :: e in listing && e.isFile && p == Join(workingDir, e.name) && IsConvertible(p)
    {
      FoundMembers(workingDir, listing, IsConvertible, p);
      assert p in Sort(found) <==> p in multiset(Sort(found));
      assert p in found <==> p in multiset(found);
    }
    if DistinctNames(listing) {
      FoundDistinct(workingDir, listing, IsConvertible);
      SortKeepsDistinct(found);
    }
  }

  /** `source_path / file_path.stem`. */
  function StagingFolder(sourcePath: Path, file: Path): Path
  {
    Join(sourcePath, Stem(file))
  }

  /** `working_dir / f"{stem}.cbz"`. */
  function ArchivePath(workingDir: Path, file: Path): Path
  {
    Join(workingDir, Stem(file) + ".cbz")
  }

  /** Where handling a file leaves its source. */
  datatype Staging = NotMoved | MovedTo(dest: Path)

  /** What handling a file leaves at its archive path. */
  datatype Written = NotWritten | WroteTo(archive: Path, contents: ArchiveFile)

  /** What handling one file yields: its outcome, the staging folder it
      creates, where its source goes and what it writes. It depends on the
      disk only through what the file's path holds (`OnDisk`). */
  datatype Step = Step(outcome: Outcome, folder: Path, staging: Staging, written: Written)

  /** `process_file`, with its exceptions turned into failed outcomes. The
      staging folder is created first; a failed move stops there; once
      moved, the source stays in staging whatever happens next. */
  function Process(workingDir: Path, sourcePath: Path, file: Path, input: FileInput): Step
  {
    var folder := StagingFolder(sourcePath, file);
    if !input.movable then Step(Failed(MoveFailed), folder, NotMoved, NotWritten)
    else
      var dest := Join(folder, BaseName(file));
      match Dispatch(Lower(Suffix(dest)))
      case Err(e) => Step(Failed(e), folder, MovedTo(dest), NotWritten)
      case Ok(x) =>
        match Extract(x, input.content, folder)
        case Err(e) => Step(Failed(e), folder, MovedTo(dest), NotWritten)
        case Ok(images) =>
          var cbz := ArchivePath(workingDir, file);
          var entries := EntryPlan(images);
          if input.writable then
            Step(Converted(cbz, entries), folder, MovedTo(dest), WroteTo(cbz, Complete(entries)))
          else
            Step(Failed(WriteFailed), folder, MovedTo(dest), WroteTo(cbz, Truncated))
  }

  /** The names a complete archive lists, in the order they were written. */
  function ArcNames(entries: seq<Entry>): (r: seq<string>)
    ensures |r| == |entries|
  {
    seq(|entries|, k requires 0 <= k < |entries| => entries[k].arcname)
  }

  /** What `zipfile` reads back from an archive the converter wrote: the
      names of a complete one, in the order they were written; a truncated
      one cannot be opened. */
  function Packed(archive: ArchiveFile): Content
  {
    match archive
    case Complete(entries) => ZipArchive(ArcNames(entries))
    case Truncated => Unreadable
  }

  /** The file at `file` when its turn comes. If the disk records an archive
      at that path, that archive is what is there and what gets read; any
      other file is as the listing found it. */
  function OnDisk(disk: Disk, file: Path, input: FileInput): FileInput
  {
    if file in disk.archives then input.(content := Packed(disk.archives[file])) else input
  }

  /** `process_file` for every file of one run, reading each file as it is
      on the disk when its turn comes. */
  function StepOf(workingDir: Path, sourcePath: Path, inputOf: Path -> FileInput): (Disk, Path) -> Step
  {
    (d, f) => Process(workingDir, sourcePath, f, OnDisk(d, f, inputOf(f)))
  }

  /** The disk after `file` has been handled with the given step. Moving
      the source takes away whatever archive sat at its path. The archive
      written next lands at its own path. */
  function Apply(disk: Disk, file: Path, step: Step): Disk
  {
    var left := match step.staging
      case NotMoved => disk.archives
      case MovedTo(_) => disk.archives - {file};
    Disk(disk.folders + {step.folder},
         match step.staging
         case NotMoved => disk.moved
         case MovedTo(dest) => disk.moved[file := dest],
         match step.written
         case NotWritten => left
         case WroteTo(archive, contents) => left[archive := contents])
  }

  /** The disk after the files have been handled one after another. */
  function RunDisk(files: seq<Path>, stepOf: (Disk, Path) -> Step, disk: Disk): Disk
  {
    if files == [] then disk
    else
      var d := RunDisk(files[..|files| - 1], stepOf, disk);
      Apply(d, files[|files| - 1], stepOf(d, files[|files| - 1]))
  }

  /** The report of handling the files one after another. */
  function RunLog(files: seq<Path>, stepOf: (Disk, Path) -> Step, disk: Disk): seq<Attempt>
  {
    if files == [] then []
    else
      var init := files[..|files| - 1];
      var last := files[|files| - 1];
      RunLog(init, stepOf, disk) + [Attempt(last, stepOf(RunDisk(init, stepOf, disk), last).outcome)]
  }

  /** The step that handles `files[i]`, on the disk the files before it
      left behind. */
  function StepAt(files: seq<Path>, i: nat, stepOf: (Disk, Path) -> Step, disk: Disk): Step
    requires i < |files|
  {
    stepOf(RunDisk(files[..i], stepOf, disk), files[i])
  }

  /** The step of a file in a run of `process_file` is `Process` on the
      file as the disk the earlier files left shows it. */
  lemma StepAtIsProcess(workingDir: Path, sourcePath: Path, files: seq<Path>, i: nat, inputOf: Path -> FileInput, disk: Disk)
    requires i < |files|
    ensures StepAt(files, i, StepOf(workingDir, sourcePath, inputOf), disk)
      == Process(workingDir, sourcePath, files[i], OnDisk(RunDisk(files[..i], StepOf(workingDir, sourcePath, inputOf), disk), files[i], inputOf(files[i])))
  {
  }

  /** The run's last step is applied to the disk the others left. */
  lemma RunDiskLast(files: seq<Path>, stepOf: (Disk, Path) -> Step, disk: Disk)
    requires files != []
    ensures RunDisk(files, stepOf, disk)
      == Apply(RunDisk(files[..|files| - 1], stepOf, disk), files[|files| - 1], StepAt(files, |files| - 1, stepOf, disk))
  {
  }

  /** A step leaves an archive alone unless it writes the same path or
      moves the file at that path away. */
  lemma ApplyKeeps(disk: Disk, file: Path, step: Step, p: Path)
    requires p in disk.archives
    requires !step.written.WroteTo? || step.written.archive != p
    requires !step.staging.MovedTo? || file != p
    ensures p in Apply(disk, file, step).archives && Apply(disk, file, step).archives[p] == disk.archives[p]
  {
  }

  /** After a step, a file's recorded destination is the one the step moved
      it to, or else the one it had before. */
  lemma ApplyMoves(disk: Disk, file: Path, step: Step, p: Path, dest: Path)
    requires if step.staging.MovedTo? && file == p then step.staging.dest == dest
             else p in disk.moved && disk.moved[p] == dest
    ensures p in Apply(disk, file, step).moved && Apply(disk, file, step).moved[p] == dest
  {
  }

  /** The steps of a prefix of the run are those of the whole run. */
  lemma StepAtPrefix(files: seq<Path>, n: nat, i: nat, stepOf: (Disk, Path) -> Step, disk: Disk)
    requires i < n <= |files|
    ensures StepAt(files[..n], i, stepOf, disk) == StepAt(files, i, stepOf, disk)
  {
    assert files[..n][..i] == files[..i];
  }

  /** Handling one more file adds its step to the disk and its attempt to
      the report. */
  lemma RunGrows(files: seq<Path>, i: nat, stepOf: (Disk, Path) -> Step, disk: Disk)
    requires i < |files|
    ensures RunDisk(files[..i + 1], stepOf, disk) == Apply(RunDisk(files[..i], stepOf, disk), files[i], StepAt(files, i, stepOf, disk))
    ensures RunLog(files[..i + 1], stepOf, disk) == RunLog(files[..i], stepOf, disk) + [Attempt(files[i], StepAt(files, i, stepOf, disk).outcome)]
  {
    assert files[..i + 1][..i] == files[..i];
  }

  /** Every file is attempted exactly once, in order, and a failure does
      not stop the files after it. Each outcome is the step of that file
      on the disk the earlier files left. */
  lemma {:induction false} EveryFileAttemptedOnce(files: seq<Path>, stepOf: (Disk, Path) -> Step, disk: Disk)
    ensures |RunLog(files, stepOf, disk)| == |files|
    ensures forall i :: 0 <= i < |files| ==> RunLog(files, stepOf, disk)[i] == Attempt(files[i], StepAt(files, i, stepOf, disk).outcome)
  {
    if files != [] {
      var n := |files| - 1;
      var init := files[..n];
      EveryFileAttemptedOnce(init, stepOf, disk);
      var log := RunLog(files, stepOf, disk);
      forall i | 0 <= i < n
        ensures log[i] == Attempt(files[i], StepAt(files, i, stepOf, disk).outcome)
      {
        assert log[i] == RunLog(init, stepOf, disk)[i];
        StepAtPrefix(files, n, i, stepOf, disk);
      }
      assert log[n] == Attempt(files[n], StepAt(files, n, stepOf, disk).outcome);
    }
  }

  /** An archive written during a run is on disk at the end, holding what
      was written, unless a later file writes the same path or is moved away
      from it. */
  lemma {:induction false} RunKeepsArchives(files: seq<Path>, stepOf: (Disk, Path) -> Step, disk: Disk, k: nat)
    requires k < |files| && StepAt(files, k, stepOf, disk).written.WroteTo?
    requires forall j :: k < j < |files| ==>
      (!StepAt(files, j, stepOf, disk).written.WroteTo?
        || StepAt(files, j, stepOf, disk).written.archive != StepAt(files, k, stepOf, disk).written.archive)
      && (!StepAt(files, j, stepOf, disk).staging.MovedTo? || files[j] != StepAt(files, k, stepOf, disk).written.archive)
    ensures var w := StepAt(files, k, stepOf, disk).written;
      w.archive in RunDisk(files, stepOf, disk).archives && RunDisk(files, stepOf, disk).archives[w.archive] == w.contents
  {
    var n := |files| - 1;
    var init := files[..n];
    var w := StepAt(files, k, stepOf, disk).written;
    RunDiskLast(files, stepOf, disk);
    if k < n {
      StepAtPrefix(files, n, k, stepOf, disk);
      forall j | k < j < n
        ensures StepAt(init, j, stepOf, disk) == StepAt(files, j, stepOf, disk)
      {
        StepAtPrefix(files, n, j, stepOf, disk);
      }
      RunKeepsArchives(init, stepOf, disk, k);
      ApplyKeeps(RunDisk(init, stepOf, disk), files[n], StepAt(files, n, stepOf, disk), w.archive);
    }
  }

  /** A path that holds no archive before the run, and that no step of the
      run writes, holds none after it. */
  lemma {:induction false} ArchivesOnlyFromWrites(files: seq<Path>, stepOf: (Disk, Path) -> Step, disk: Disk, p: Path)
    requires p !in disk.archives
    requires forall j :: 0 <= j < |files| ==>
      !StepAt(files, j, stepOf, disk).written.WroteTo? || StepAt(files, j, stepOf, disk).written.archive != p
    ensures p !in RunDisk(files, stepOf, disk).archives
  {
    if files != [] {
      var n := |files| - 1;
      forall j | 0 <= j < n
        ensures StepAt(files[..n], j, stepOf, disk) == StepAt(files, j, stepOf, disk)
      {
        StepAtPrefix(files, n, j, stepOf, disk);
      }
      ArchivesOnlyFromWrites(files[..n], stepOf, disk, p);
      assert StepAt(files, n, stepOf, disk) == stepOf(RunDisk(files[..n], stepOf, disk), files[n]);
    }
  }

  /** The dispatch's error branch cannot be reached from the run: whatever
      the scan accepts is dispatched to an extractor. */
  lemma ScannedFilesAreDispatched(workingDir: Path, sourcePath: Path, file: Path, input: FileInput)
    requires IsConvertible(file)
    ensures !Process(workingDir, sourcePath, file, input).outcome.Failed?
         || !Process(workingDir, sourcePath, file, input).outcome.error.UnsupportedFormat?
  {
    NameKeptByJoin(StagingFolder(sourcePath, file), file);
  }

  /** Where a file's artefacts go: a moved source sits in `Fonte/<stem>/`
      under its own name, also when extraction or writing fails later, and
      the archive goes to `<working_dir>/<stem>.cbz`. */
  lemma PlacedByStem(workingDir: Path, sourcePath: Path, file: Path, input: FileInput)
    ensures var step := Process(workingDir, sourcePath, file, input);
      && step.folder == Join(sourcePath, Stem(file))
      && (step.staging.MovedTo? ==> step.staging.dest == Join(Join(sourcePath, Stem(file)), BaseName(file)))
      && (step.written.WroteTo? ==> step.written.archive == Join(workingDir, Stem(file) + ".cbz"))
  {
    var folder := StagingFolder(sourcePath, file);
    if input.movable {
      var dispatched := Dispatch(Lower(Suffix(Join(folder, BaseName(file)))));
      if dispatched.Ok? && Extract(dispatched.value, input.content, folder).Ok? {
        assert Process(workingDir, sourcePath, file, input).written.WroteTo?
          ==> Process(workingDir, sourcePath, file, input).written.archive == ArchivePath(workingDir, file);
      }
    }
  }

  /** Only a failed move leaves the source in place; an archive is written
      only after a successful extraction, completely exactly when the file
      is reported converted, and then it holds the entries reported. */
  lemma {:induction false} WritesOnlyAfterExtraction(workingDir: Path, sourcePath: Path, file: Path, input: FileInput)
    ensures var step := Process(workingDir, sourcePath, file, input);
      && (step.outcome == Failed(MoveFailed) <==> step.staging == NotMoved)
      && (step.written.WroteTo? <==> step.outcome.Converted? || step.outcome == Failed(WriteFailed))
      && (step.outcome.Converted? <==> step.written.WroteTo? && step.written.contents.Complete?)
      && (step.outcome.Converted? ==> step.written == WroteTo(step.outcome.archive, Complete(step.outcome.entries)))
  {
    var folder := StagingFolder(sourcePath, file);
    if input.movable {
      var dispatched := Dispatch(Lower(Suffix(Join(folder, BaseName(file)))));
      if dispatched.Err? {
        assert dispatched.error.UnsupportedFormat?;
      } else {
        var extracted := Extract(dispatched.value, input.content, folder);
        if extracted.Err? {
          assert extracted.error == ExtractionFailed;
        }
      }
    }
  }

  /** A converted file's archive lists the images in the order the
      extractor produced them, as long as there are at most 999. */
  lemma {:induction false} ConvertedInExtractionOrder(workingDir: Path, sourcePath: Path, file: Path, input: FileInput)
    requires Process(workingDir, sourcePath, file, input).outcome.Converted?
    requires |Process(workingDir, sourcePath, file, input).outcome.entries| <= 999
    ensures var folder := StagingFolder(sourcePath, file);
      var x := Dispatch(Lower(Suffix(Join(folder, BaseName(file))))).value;
      var images := Extract(x, input.content, folder).value;
      var entries := Process(workingDir, sourcePath, file, input).outcome.entries;
      |entries| == |images|
      && forall k :: 0 <= k < |entries| ==> entries[k].source == images[k] && entries[k].arcname == BaseName(images[k])
  {
    var folder := StagingFolder(sourcePath, file);
    var dispatched := Dispatch(Lower(Suffix(Join(folder, BaseName(file)))));
    assert input.movable && dispatched.Ok?;
    var extracted := Extract(dispatched.value, input.content, folder);
    assert extracted.Ok?;
    var tails := Tails(dispatched.value, input.content).value;
    assert extracted.value == Numbered(folder, tails);
    assert Process(workingDir, sourcePath, file, input).outcome.entries == EntryPlan(extracted.value);
    ArchiveFollowsExtraction(folder, tails);
  }

  /** Different names in one folder, with the same extension appended,
      are different paths. */
  lemma {:induction false} JoinExtensionInjective(dir: Path, a: string, b: string, extension: string)
    requires a != b
    ensures Join(dir, a + extension) != Join(dir, b + extension)
  {
    var pre := dir + "/";
    assert Join(dir, a + extension) == pre + a + extension;
    assert Join(dir, b + extension) == pre + b + extension;
    if |a| == |b| {
      assert (pre + a + extension)[|pre|..|pre| + |a|] == a;
      assert (pre + b + extension)[|pre|..|pre| + |b|] == b;
    }
  }

  /** Sources with different stems get different archive paths. */
  lemma ArchivePathsDiffer(workingDir: Path, f: Path, g: Path)
    requires Stem(f) != Stem(g)
    ensures ArchivePath(workingDir, f) != ArchivePath(workingDir, g)
  {
    JoinExtensionInjective(workingDir, Stem(f), Stem(g), ".cbz");
  }

  /** Where `Process` puts a file, whatever the disk shows at its path. */
  lemma StepPlacement(workingDir: Path, sourcePath: Path, inputOf: Path -> FileInput, d: Disk, f: Path)
    ensures var step := StepOf(workingDir, sourcePath, inputOf)(d, f);
      && step.folder == StagingFolder(sourcePath, f)
      && (step.staging.MovedTo? ==> step.staging.dest == Join(StagingFolder(sourcePath, f), BaseName(f)))
      && (step.written.WroteTo? ==> step.written.archive == ArchivePath(workingDir, f))
  {
    PlacedByStem(workingDir, sourcePath, f, OnDisk(d, f, inputOf(f)));
  }

  /** A step that moves its file moves it into its staging folder under
      its own name. */
  lemma StepMovesIntoStaging(workingDir: Path, sourcePath: Path, inputOf: Path -> FileInput, d: Disk, f: Path)
    requires StepOf(workingDir, sourcePath, inputOf)(d, f).staging.MovedTo?
    ensures StepOf(workingDir, sourcePath, inputOf)(d, f).staging.dest == Join(StagingFolder(sourcePath, f), BaseName(f))
  {
    StepPlacement(workingDir, sourcePath, inputOf, d, f);
  }

  /** When every step creates the folder `folderOf` names for its file,
      a run creates exactly the folders of its files. */
  lemma {:induction false} RunFolders(files: seq<Path>, stepOf: (Disk, Path) -> Step, disk: Disk, folderOf: Path -> Path)
    requires forall d, f :: stepOf(d, f).folder == folderOf(f)
    ensures RunDisk(files, stepOf, disk).folders == disk.folders + set f | f in files :: folderOf(f)
  {
    if files != [] {
      var n := |files| - 1;
      RunFolders(files[..n], stepOf, disk, folderOf);
      RunDiskLast(files, stepOf, disk);
      assert files == files[..n] + [files[n]];
      assert (set f | f in files :: folderOf(f)) == (set f | f in files[..n] :: folderOf(f)) + {folderOf(files[n])};
    }
  }

  /** When each step that moves its file moves it to the destination
      `destOf` gives that file, each file a run moved is found at its
      destination at the end. */
  lemma {:induction false} RunMoves(files: seq<Path>, stepOf: (Disk, Path) -> Step, disk: Disk, destOf: map<Path, Path>)
    requires forall i :: 0 <= i < |files| ==> files[i] in destOf
    requires forall i :: 0 <= i < |files| && StepAt(files, i, stepOf, disk).staging.MovedTo? ==>
      StepAt(files, i, stepOf, disk).staging.dest == destOf[files[i]]
    ensures forall i :: 0 <= i < |files| && StepAt(files, i, stepOf, disk).staging.MovedTo? ==>
      files[i] in RunDisk(files, stepOf, disk).moved && RunDisk(files, stepOf, disk).moved[files[i]] == destOf[files[i]]
  {
    if files != [] {
      var n := |files| - 1;
      var init := files[..n];
      forall i | 0 <= i < n && StepAt(init, i, stepOf, disk).staging.MovedTo?
        ensures StepAt(init, i, stepOf, disk).staging.dest == destOf[init[i]]
      {
        StepAtPrefix(files, n, i, stepOf, disk);
      }
      RunMoves(init, stepOf, disk, destOf);
      RunDiskLast(files, stepOf, disk);
      var d := RunDisk(init, stepOf, disk);
      var last := StepAt(files, n, stepOf, disk);
      forall i | 0 <= i < |files| && StepAt(files, i, stepOf, disk).staging.MovedTo?
        ensures files[i] in RunDisk(files, stepOf, disk).moved && RunDisk(files, stepOf, disk).moved[files[i]] == destOf[files[i]]
      {
        if i < n && !(last.staging.MovedTo? && files[i] == files[n]) {
          StepAtPrefix(files, n, i, stepOf, disk);
          assert init[i] == files[i];
        }
        ApplyMoves(d, files[n], last, files[i], destOf[files[i]]);
      }
    }
  }

  /** After a run, every handled file has its staging folder `Fonte/<stem>`
      and no other folder was created. */
  lemma RunStagesEveryFile(workingDir: Path, sourcePath: Path, files: seq<Path>, inputOf: Path -> FileInput, disk: Disk)
    ensures RunDisk(files, StepOf(workingDir, sourcePath, inputOf), disk).folders
      == disk.folders + set f | f in files :: StagingFolder(sourcePath, f)
  {
    var stepOf := StepOf(workingDir, sourcePath, inputOf);
    var folderOf := f => StagingFolder(sourcePath, f);
    forall d, f
      ensures stepOf(d, f).folder == folderOf(f)
    {
      StepPlacement(workingDir, sourcePath, inputOf, d, f);
    }
    RunFolders(files, stepOf, disk, folderOf);
    assert (set f | f in files :: folderOf(f)) == set f | f in files :: StagingFolder(sourcePath, f);
  }

  /** Every file a run moved sits in its staging folder under its own
      name. */
  lemma RunMovesIntoStaging(workingDir: Path, sourcePath: Path, files: seq<Path>, inputOf: Path -> FileInput, disk: Disk)
    ensures forall i :: 0 <= i < |files| && StepAt(files, i, StepOf(workingDir, sourcePath, inputOf), disk).staging.MovedTo? ==>
      files[i] in RunDisk(files, StepOf(workingDir, sourcePath, inputOf), disk).moved
      && RunDisk(files, StepOf(workingDir, sourcePath, inputOf), disk).moved[files[i]]
         == Join(StagingFolder(sourcePath, files[i]), BaseName(files[i]))
  {
    var stepOf := StepOf(workingDir, sourcePath, inputOf);
    var destOf := map f | f in files :: Join(StagingFolder(sourcePath, f), BaseName(f));
    forall i | 0 <= i < |files| && StepAt(files, i, stepOf, disk).staging.MovedTo?
      ensures StepAt(files, i, stepOf, disk).staging.dest == destOf[files[i]]
    {
      StepMovesIntoStaging(workingDir, sourcePath, inputOf, RunDisk(files[..i], stepOf, disk), files[i]);
    }
    RunMoves(files, stepOf, disk, destOf);
  }

  /** A file that was converted has a non-empty stem, and the archive
      named after it has that stem again. */
  lemma ArchiveNameKeepsStem(workingDir: Path, sourcePath: Path, file: Path, input: FileInput)
    requires Process(workingDir, sourcePath, file, input).outcome.Converted?
    ensures Stem(file) != [] && Stem(ArchivePath(workingDir, file)) == Stem(file)
  {
    var folder := StagingFolder(sourcePath, file);
    NameKeptByJoin(folder, file);
    StemThenSuffix(file);
    assert Suffix(file) != [];
    var name := Stem(file) + ".cbz";
    SplitName(name, Stem(file), ".cbz");
    NameKeptByJoin(workingDir, name);
    BaseNameOfName(name);
  }

  /** In one run, a converted file's complete archive survives to the end
      unless a later source has the same stem. Such a source would either
      overwrite the archive or be the archive itself, moved into staging. */
  lemma RunKeepsConvertedArchive(workingDir: Path, sourcePath: Path, files: seq<Path>, inputOf: Path -> FileInput, disk: Disk, k: nat)
    requires k < |files|
    requires StepAt(files, k, StepOf(workingDir, sourcePath, inputOf), disk).outcome.Converted?
    requires forall j :: k < j < |files| ==> Stem(files[j]) != Stem(files[k])
    ensures var outcome := StepAt(files, k, StepOf(workingDir, sourcePath, inputOf), disk).outcome;
      var archives := RunDisk(files, StepOf(workingDir, sourcePath, inputOf), disk).archives;
      outcome.archive in archives && archives[outcome.archive] == Complete(outcome.entries)
  {
    var stepOf := StepOf(workingDir, sourcePath, inputOf);
    var dk := RunDisk(files[..k], stepOf, disk);
    var input := OnDisk(dk, files[k], inputOf(files[k]));
    assert StepAt(files, k, stepOf, disk) == Process(workingDir, sourcePath, files[k], input);
    StepPlacement(workingDir, sourcePath, inputOf, dk, files[k]);
    WritesOnlyAfterExtraction(workingDir, sourcePath, files[k], input);
    ArchiveNameKeepsStem(workingDir, sourcePath, files[k], input);
    var archive := ArchivePath(workingDir, files[k]);
    forall j | k < j < |files|
      ensures !StepAt(files, j, stepOf, disk).written.WroteTo? || StepAt(files, j, stepOf, disk).written.archive != archive
      ensures files[j] != archive
    {
      StepPlacement(workingDir, sourcePath, inputOf, RunDisk(files[..j], stepOf, disk), files[j]);
      ArchivePathsDiffer(workingDir, files[j], files[k]);
    }
    RunKeepsArchives(files, stepOf, disk, k);
  }

  /** A source is converted from its own contents unless an archive sits
      at its path when its turn comes: one the disk held before the run, or
      one an earlier file wrote because it has the same stem. */
  lemma OwnContentsUnlessOverwritten(workingDir: Path, sourcePath: Path, files: seq<Path>, inputOf: Path -> FileInput, disk: Disk, i: nat)
    requires i < |files| && files[i] !in disk.archives
    requires forall j :: 0 <= j < i ==> ArchivePath(workingDir, files[j]) != files[i]
    ensures StepAt(files, i, StepOf(workingDir, sourcePath, inputOf), disk)
      == Process(workingDir, sourcePath, files[i], inputOf(files[i]))
  {
    var stepOf := StepOf(workingDir, sourcePath, inputOf);
    var before := files[..i];
    forall j | 0 <= j < i
      ensures !StepAt(before, j, stepOf, disk).written.WroteTo? || StepAt(before, j, stepOf, disk).written.archive != files[i]
    {
      StepAtPrefix(files, i, j, stepOf, disk);
      StepPlacement(workingDir, sourcePath, inputOf, RunDisk(files[..j], stepOf, disk), files[j]);
    }
    ArchivesOnlyFromWrites(before, stepOf, disk, files[i]);
  }

  /** As written: when "a.cbr" sorts before "a.cbz" and converts, its
      archive is written over the unprocessed "a.cbz", which is then read
      in place of the user's file. */
  lemma EarlierArchiveReplacesSource(workingDir: Path, sourcePath: Path, f: Path, g: Path, inputOf: Path -> FileInput, disk: Disk)
    requires g == ArchivePath(workingDir, f) && f != g && f !in disk.archives
    ensures var stepOf := StepOf(workingDir, sourcePath, inputOf);
      var first := Process(workingDir, sourcePath, f, inputOf(f));
      StepAt([f, g], 0, stepOf, disk) == first
      && (first.written.WroteTo? ==>
          StepAt([f, g], 1, stepOf, disk) == Process(workingDir, sourcePath, g, inputOf(g).(content := Packed(first.written.contents))))
  {
    var stepOf := StepOf(workingDir, sourcePath, inputOf);
    var first := Process(workingDir, sourcePath, f, inputOf(f));
    assert [f, g][..0] == [] && [f, g][..1] == [f];
    assert StepAt([f, g], 0, stepOf, disk) == first;
    PlacedByStem(workingDir, sourcePath, f, inputOf(f));
    assert RunDisk([f], stepOf, disk) == Apply(disk, f, first) by {
      assert [f][..0] == [];
    }
  }

  /** Such a pair exists: "/w/a.cbz" is the archive path of "/w/a.cbr" ... */
  lemma CbrArchiveIsCbz()
    ensures ArchivePath("/w", "/w/a.cbr") == "/w/a.cbz"
  {
    assert "/w/a.cbr" == Join("/w", "a" + ".cbr");
    SplitJoinedName("/w", "a", ".cbr");
    assert Join("/w", "a" + ".cbz") == "/w/a.cbz";
  }

  /** ... the scan accepts both ... */
  lemma CbrAndCbzScanned()
    ensures IsConvertible("/w/a.cbr") && IsConvertible("/w/a.cbz")
  {
    ScannedAs("/w/a.cbr", "a", ".cbr");
    ScannedAs("/w/a.cbz", "a", ".cbz");
  }

  /** The scan accepts a name in "/w" ending in ".cbr" or ".cbz". */
  lemma ScannedAs(p: Path, stem: string, ext: string)
    requires ext in {".cbr", ".cbz"} && stem != [] && '/' !in stem
    requires p == Join("/w", stem + ext)
    ensures IsConvertible(p)
  {
    SplitJoinedName("/w", stem, ext);
    LowerKeepsLowerCase(ext);
  }

  /** ... and "/w/a.cbr" is handled first. */
  lemma CbrBeforeCbz()
    ensures Below("/w/a.cbr", "/w/a.cbz") && !Below("/w/a.cbz", "/w/a.cbr")
  {
    var a, b := "/w/a.cbr", "/w/a.cbz";
    assert a[..7] == b[..7] && a[7] < b[7];
    BelowAt(a, b, 7);
  }

  /** With each source read as the listing found it, every outcome is that
      file's own, whatever came before. */
  function OwnContents(workingDir: Path, sourcePath: Path, inputOf: Path -> FileInput): (Disk, Path) -> Step
  {
    (d, f) => Process(workingDir, sourcePath, f, inputOf(f))
  }

  lemma OwnContentsIsolated(workingDir: Path, sourcePath: Path, files: seq<Path>, inputOf: Path -> FileInput, disk: Disk)
    ensures var log := RunLog(files, OwnContents(workingDir, sourcePath, inputOf), disk);
      |log| == |files|
      && forall i :: 0 <= i < |files| ==> log[i] == Attempt(files[i], Process(workingDir, sourcePath, files[i], inputOf(files[i])).outcome)
  {
    EveryFileAttemptedOnce(files, OwnContents(workingDir, sourcePath, inputOf), disk);
  }

  class MangaConverter {
    const workingDir: Path
    const sourcePath: Path
    var disk: Disk
    var log: seq<Attempt>

    /** `__init__`; the caller supplies the working directory, the current
        directory when none was given. */
    constructor (workingDir: Path, disk: Disk)
      ensures this.workingDir == workingDir && sourcePath == Join(workingDir, SourceFolder)
      ensures this.disk == disk && log == []
    {
      this.workingDir := workingDir;
      this.sourcePath := Join(workingDir, SourceFolder);
      this.disk := disk;
      this.log := [];
    }

    /** `identify_files`: the regular files of the working directory whose
        lower-cased suffix is supported, sorted. */
    method IdentifyFiles(listing: seq<DirEntry>) returns (files: seq<Path>)
      ensures files == Sort(Candidates(workingDir, listing))
    {
      var found := [];
      for i := 0 to |listing|
        invariant found == Found(workingDir, listing[..i], IsConvertible)
      {
        var item := Join(workingDir, listing[i].name);
        if listing[i].isFile && Lower(Suffix(item)) in SupportedFormats {
          found := found + [item];
        }
        assert listing[..i + 1][..i] == listing[..i];
      }
      assert listing[..|listing|] == listing;
      files := Sort(found);
    }

    /** `process_file`: the file is read as it is on the disk now. */
    method ProcessFile(file: Path, input: FileInput) returns (outcome: Outcome)
      modifies this
      ensures outcome == Process(workingDir, sourcePath, file, OnDisk(old(disk), file, input)).outcome
      ensures disk == Apply(old(disk), file, Process(workingDir, sourcePath, file, OnDisk(old(disk), file, input)))
      ensures log == old(log)
    {
      var source := OnDisk(disk, file, input);
      ghost var step := Process(workingDir, sourcePath, file, source);
      var mangaName := Stem(file);
      var mangaFolder := Join(sourcePath, mangaName);
      disk := disk.(folders := disk.folders + {mangaFolder});
      var destFile := Join(mangaFolder, BaseName(file));
      if !source.movable {
        assert step == Step(Failed(MoveFailed), mangaFolder, NotMoved, NotWritten);
        return Failed(MoveFailed);
      }
      disk := disk.(moved := disk.moved[file := destFile], archives := disk.archives - {file});
      var extension := Lower(Suffix(destFile));
      var extractor := Dispatch(extension);
      if extractor.Err? {
        assert step == Step(Failed(extractor.error), mangaFolder, MovedTo(destFile), NotWritten);
        return Failed(extractor.error);
      }
      var extracted := Invoke(extractor.value, source.content, mangaFolder);
      if extracted.Err? {
        assert step == Step(Failed(extracted.error), mangaFolder, MovedTo(destFile), NotWritten);
        return Failed(extracted.error);
      }
      var images := extracted.value;
      var cbzPath := Join(workingDir, mangaName + ".cbz");
      var entries := CreateCbz(images);
      if !source.writable {
        assert step == Step(Failed(WriteFailed), mangaFolder, MovedTo(destFile), WroteTo(cbzPath, Truncated));
        disk := disk.(archives := disk.archives[cbzPath := Truncated]);
        return Failed(WriteFailed);
      }
      assert step == Step(Converted(cbzPath, entries), mangaFolder, MovedTo(destFile), WroteTo(cbzPath, Complete(entries)));
      disk := disk.(archives := disk.archives[cbzPath := Complete(entries)]);
      return Converted(cbzPath, entries);
    }

    /** The loop of `run`: every file in turn, each failure reported and
        followed by the next file. */
    method ConvertAll(filesToConvert: seq<Path>, inputOf: Path -> FileInput)
      modifies this
      ensures disk == RunDisk(filesToConvert, StepOf(workingDir, sourcePath, inputOf), old(disk))
      ensures log == old(log) + RunLog(filesToConvert, StepOf(workingDir, sourcePath, inputOf), old(disk))
    {
      ghost var start := disk;
      ghost var log0 := log;
      ghost var stepOf := StepOf(workingDir, sourcePath, inputOf);
      for i := 0 to |filesToConvert|
        invariant disk == RunDisk(filesToConvert[..i], stepOf, start)
        invariant log == log0 + RunLog(filesToConvert[..i], stepOf, start)
      {
        var filePath := filesToConvert[i];
        RunGrows(filesToConvert, i, stepOf, start);
        StepAtIsProcess(workingDir, sourcePath, filesToConvert, i, inputOf, start);
        var outcome := ProcessFile(filePath, inputOf(filePath));
        log := log + [Attempt(filePath, outcome)];
      }
      assert filesToConvert[..|filesToConvert|] == filesToConvert;
    }

    /** `run`: scan; with nothing found, stop before creating the staging
        root; otherwise create it and handle every file in order, recording
        each outcome and going on after a failure. */
    method Run(listing: seq<DirEntry>, inputOf: Path -> FileInput)
      modifies this
      ensures var files := Sort(Candidates(workingDir, listing));
        var start := old(disk).(folders := old(disk).folders + {sourcePath});
        if files == [] then
          disk == old(disk) && log == old(log)
        else
          disk == RunDisk(files, StepOf(workingDir, sourcePath, inputOf), start)
          && log == old(log) + RunLog(files, StepOf(workingDir, sourcePath, inputOf), start)
    {
      var filesToConvert := IdentifyFiles(listing);
      if filesToConvert == [] {
        return;
      }
      disk := disk.(folders := disk.folders + {sourcePath});
      ConvertAll(filesToConvert, inputOf);
    }
  }
}
