/** `create_cbz`: which entries the output archive gets, in which order and
    under which names. The stored-ZIP layout and the payload bytes are not
    modelled; an entry records the image file it copies and its name in the
    archive. */
module Assembly {
  import opened Sorting
  import opened Paths
  import opened Numbering

  datatype Entry = Entry(source: Path, arcname: string)

  function Sources(entries: seq<Entry>): (r: seq<Path>)
    ensures |r| == |entries|
  {
    seq(|entries|, k requires 0 <= k < |entries| => entries[k].source)
  }

  /** The archive's entries: the image paths in sorted order, each stored
      under its file's base name. */
  function EntryPlan(imagePaths: seq<Path>): seq<Entry>
  {
    var sorted := Sort(imagePaths);
    seq(|sorted|, k requires 0 <= k < |sorted| => Entry(sorted[k], BaseName(sorted[k])))
  }

  /** The archive holds every image path once, in ascending order, each
      under its own base name. */
  lemma EntryPlanSpec(imagePaths: seq<Path>)
    ensures |EntryPlan(imagePaths)| == |imagePaths|
    ensures Sorted(Sources(EntryPlan(imagePaths)))
    ensures multiset(Sources(EntryPlan(imagePaths))) == multiset(imagePaths)
    ensures forall k :: 0 <= k < |imagePaths| ==> EntryPlan(imagePaths)[k].arcname == BaseName(EntryPlan(imagePaths)[k].source)
  {
    SortSpec(imagePaths);
    assert Sources(EntryPlan(imagePaths)) == Sort(imagePaths);
  }

  /** `create_cbz`: one entry per image path, written in sorted-path order,
      each named by its file's base name. */
  method CreateCbz(imagePaths: seq<Path>) returns (entries: seq<Entry>)
    ensures entries == EntryPlan(imagePaths)
  {
    var sortedPaths := Sort(imagePaths);
    entries := [];
    for i := 0 to |sortedPaths|
      invariant |entries| == i
      invariant forall k :: 0 <= k < i ==> entries[k] == Entry(sortedPaths[k], BaseName(sortedPaths[k]))
    {
      var imgPath := sortedPaths[i];
      ghost var before := entries;
      entries := entries + [Entry(imgPath, BaseName(imgPath))];
      forall k | 0 <= k < i + 1 ensures entries[k] == Entry(sortedPaths[k], BaseName(sortedPaths[k])) {
        if k < i { assert entries[k] == before[k]; }
      }
    }
  }

  lemma PaddedHasNoSeparator(n: nat)
    ensures '/' !in Pad3(n)
  {
    var d := Decimal(n);
    assert '/' !in d by {
      forall i | 0 <= i < |d| ensures d[i] != '/' { }
    }
  }

  /** The end-to-end ordering property: when an extractor has produced at
      most 999 images, archive entry k copies the k-th extracted image, and
      its name is that image's padded ordinal followed by its tail. */
  lemma {:induction false} ArchiveFollowsExtraction(folder: Path, tails: seq<string>)
    requires |tails| <= 999
    ensures |EntryPlan(Numbered(folder, tails))| == |tails|
    ensures forall k :: 0 <= k < |tails| ==> EntryPlan(Numbered(folder, tails))[k].source == Numbered(folder, tails)[k]
    ensures forall k :: 0 <= k < |tails| && '/' !in tails[k] ==>
      EntryPlan(Numbered(folder, tails))[k].arcname == Pad3(k + 1) + tails[k]
  {
    var images := Numbered(folder, tails);
    NumberedInOrdinalOrder(folder, tails);
    EntryPlanSpec(images);
    forall k | 0 <= k < |tails| && '/' !in tails[k]
      ensures EntryPlan(images)[k].arcname == Pad3(k + 1) + tails[k]
    {
      PaddedHasNoSeparator(k + 1);
      BaseNameOfJoin(folder, Pad3(k + 1) + tails[k]);
    }
  }

  /** The bound is needed: from 1000 images on, some archive entry does not
      copy the image extracted at its position. */
  lemma {:induction false} ArchiveReordersFrom1000(folder: Path, tails: seq<string>)
    requires 1000 <= |tails|
    ensures exists k :: 0 <= k < |tails| && EntryPlan(Numbered(folder, tails))[k].source != Numbered(folder, tails)[k]
  {
    var images := Numbered(folder, tails);
    OrdinalOrderNeedsAtMost999(folder, tails);
    SortSpec(images);
    var sorted := Sort(images);
    assert sorted != images;
    var k :| 0 <= k < |tails| && sorted[k] != images[k];
    assert EntryPlan(images)[k].source == sorted[k];
  }
}
