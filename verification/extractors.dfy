/** The five extractors, as naming plans. Each one is given what its
    container library reports about the file (pages, a page count, manifest
    items or entry names) instead of the file's bytes, and returns the paths
    of the images it writes into the staging folder, in the order it writes
    them. The image payloads themselves are not modelled. */
module Extractors {
  import opened Strings
  import opened Sorting
  import opened Paths
  import opened Numbering
  import opened Formats
  import opened Errors

  /** A manifest item as ebooklib reports it: `get_type()` and `get_name()`. */
  datatype EpubItem = EpubItem(itemType: int, name: string)

  /** The item type `extract_from_epub` keeps. In ebooklib, 9 is
      ITEM_DOCUMENT, an XHTML content document. */
  const KeptItemType := 9

  /** ebooklib's ITEM_IMAGE. */
  const ImageItemType := 1

  /** What the container library makes of a source file. */
  datatype Content =
    | PdfDocument(pages: seq<seq<string>>)  // per page, the "ext" of each embedded image, in get_images() order
    | MobiDocument(pageCount: nat)          // pages PyMuPDF renders
    | EpubBook(items: seq<EpubItem>)        // get_items(), in manifest iteration order
    | ZipArchive(entryNames: seq<string>)   // ZipFile.namelist()
    | RarArchive(entryNames: seq<string>)   // RarFile.namelist()
    | Unreadable                            // the library raises on open or on read

  /** What follows the padded ordinal in the name of a PDF page's image:
      the first embedded image's extension, or "png" for a rendered page. */
  function PdfTail(embedded: seq<string>): string
  {
    "." + (if embedded != [] then embedded[0] else "png")
  }

  function PdfTails(pages: seq<seq<string>>): (r: seq<string>)
    ensures |r| == |pages|
  {
    seq(|pages|, p requires 0 <= p < |pages| => PdfTail(pages[p]))
  }

  /** `extract_from_pdf`: one image per page, in page order. */
  method ExtractFromPdf(pages: seq<seq<string>>, folder: Path) returns (images: seq<Path>)
    ensures |images| == |pages|
    ensures images == Numbered(folder, PdfTails(pages))
  {
    images := [];
    for pageNum := 0 to |pages|
      invariant |images| == pageNum
      invariant forall k :: 0 <= k < pageNum ==> images[k] == Join(folder, Pad3(k + 1) + PdfTail(pages[k]))
    {
      var imageList := pages[pageNum];
      var imageName;
      if imageList != [] {
        var imageExt := imageList[0];
        imageName := Pad3(pageNum + 1) + ("." + imageExt);
      } else {
        imageName := Pad3(pageNum + 1) + ".png";
      }
      assert imageName == Pad3(pageNum + 1) + PdfTail(pages[pageNum]);
      ghost var before := images;
      images := images + [Join(folder, imageName)];
      forall k | 0 <= k < pageNum + 1 ensures images[k] == Join(folder, Pad3(k + 1) + PdfTail(pages[k])) {
        if k < pageNum { assert images[k] == before[k]; }
      }
    }
    forall k | 0 <= k < |pages| ensures images[k] == Numbered(folder, PdfTails(pages))[k] {
      assert PdfTails(pages)[k] == PdfTail(pages[k]);
    }
  }

  function MobiTails(pageCount: nat): (r: seq<string>)
    ensures |r| == pageCount
  {
    seq(pageCount, _ => ".png")
  }

  /** `extract_from_mobi`: every page rendered to one PNG, in page order;
      the counter ends equal to the number of images. */
  method ExtractFromMobi(pageCount: nat, folder: Path) returns (images: seq<Path>, imgCount: nat)
    ensures imgCount == |images| == pageCount
    ensures images == Numbered(folder, MobiTails(pageCount))
  {
    images := [];
    imgCount := 0;
    for pageNum := 0 to pageCount
      invariant imgCount == |images| == pageNum
      invariant forall k :: 0 <= k < pageNum ==> images[k] == Join(folder, Pad3(k + 1) + ".png")
    {
      var imageName := Pad3(pageNum + 1) + ".png";
      ghost var before := images;
      images := images + [Join(folder, imageName)];
      imgCount := imgCount + 1;
      forall k | 0 <= k < pageNum + 1 ensures images[k] == Join(folder, Pad3(k + 1) + ".png") {
        if k < pageNum { assert images[k] == before[k]; }
      }
    }
  }

  predicate HasType(item: EpubItem, itemType: int)
  {
    item.itemType == itemType
  }

  /** `[item for item in book.get_items() if item.get_type() == itemType]`. */
  function ItemsOfType(items: seq<EpubItem>, itemType: int): (r: seq<EpubItem>)
    ensures |r| <= |items|
    ensures forall item :: item in r <==> item in items && HasType(item, itemType)
  {
    if items == [] then []
    else (if HasType(items[0], itemType) then [items[0]] else []) + ItemsOfType(items[1..], itemType)
  }

  /** The suffix of the item's name, or ".jpg" when it has none. */
  function EpubTail(item: EpubItem): string
  {
    var ext := Suffix(item.name);
    if ext != [] then ext else ".jpg"
  }

  function EpubTails(kept: seq<EpubItem>): (r: seq<string>)
    ensures |r| == |kept|
  {
    seq(|kept|, k requires 0 <= k < |kept| => EpubTail(kept[k]))
  }

  /** `extract_from_epub`: every item of the kept type, in manifest
      order, each written as the padded ordinal plus its own suffix. */
  method ExtractFromEpub(items: seq<EpubItem>, folder: Path) returns (images: seq<Path>)
    ensures |images| == |ItemsOfType(items, KeptItemType)|
    ensures images == Numbered(folder, EpubTails(ItemsOfType(items, KeptItemType)))
  {
    var imgItems := ItemsOfType(items, KeptItemType);
    ghost var tails := EpubTails(imgItems);
    images := [];
    for i := 0 to |imgItems|
      invariant |images| == i
      invariant forall k :: 0 <= k < i ==> images[k] == Join(folder, Pad3(k + 1) + tails[k])
    {
      var idx := i + 1;
      var imgExt := EpubTail(imgItems[i]);
      var imageName := Pad3(idx) + imgExt;
      ghost var before := images;
      images := images + [Join(folder, imageName)];
      forall k | 0 <= k < i + 1 ensures images[k] == Join(folder, Pad3(k + 1) + tails[k]) {
        if k < i { assert images[k] == before[k]; }
      }
    }
  }

  /** `[f for f in namelist() if f.lower().endswith((...))]`. */
  function RasterNames(entryNames: seq<string>): (r: seq<string>)
    ensures |r| <= |entryNames|
    ensures forall name :: name in r <==> name in entryNames && IsRasterName(name)
  {
    if entryNames == [] then []
    else (if IsRasterName(entryNames[0]) then [entryNames[0]] else []) + RasterNames(entryNames[1..])
  }

  /** The entries of a comic archive that become pages: the raster ones,
      sorted by name. */
  function RasterEntries(entryNames: seq<string>): seq<string>
  {
    Sort(RasterNames(entryNames))
  }

  function ArchiveTails(imgFiles: seq<string>): (r: seq<string>)
    ensures |r| == |imgFiles|
  {
    seq(|imgFiles|, k requires 0 <= k < |imgFiles| => Suffix(imgFiles[k]))
  }

  /** The loop shared by `extract_from_cbz` and `extract_from_cbr`: the
      raster entries in name order, each renumbered and keeping the suffix
      of its own name in its original case. */
  method RenumberRasterEntries(entryNames: seq<string>, folder: Path) returns (images: seq<Path>)
    ensures |images| == |RasterNames(entryNames)|
    ensures images == Numbered(folder, ArchiveTails(RasterEntries(entryNames)))
  {
    var imgFiles := Sort(RasterNames(entryNames));
    ghost var tails := ArchiveTails(imgFiles);
    images := [];
    for i := 0 to |imgFiles|
      invariant |images| == i
      invariant forall k :: 0 <= k < i ==> images[k] == Join(folder, Pad3(k + 1) + tails[k])
    {
      var idx, imgFile := i + 1, imgFiles[i];
      var imgExt := Suffix(imgFile);
      assert imgExt == tails[i];
      var imageName := Pad3(idx) + imgExt;
      ghost var before := images;
      images := images + [Join(folder, imageName)];
      forall k | 0 <= k < i + 1 ensures images[k] == Join(folder, Pad3(k + 1) + tails[k]) {
        if k < i { assert images[k] == before[k]; }
      }
    }
  }

  /** `extract_from_cbz`: the ZIP container's entry names. */
  method ExtractFromCbz(entryNames: seq<string>, folder: Path) returns (images: seq<Path>)
    ensures |images| == |RasterNames(entryNames)|
    ensures images == Numbered(folder, ArchiveTails(RasterEntries(entryNames)))
  {
    images := RenumberRasterEntries(entryNames, folder);
  }

  /** `extract_from_cbr`: the RAR container's entry names, same policy. */
  method ExtractFromCbr(entryNames: seq<string>, folder: Path) returns (images: seq<Path>)
    ensures |images| == |RasterNames(entryNames)|
    ensures images == Numbered(folder, ArchiveTails(RasterEntries(entryNames)))
  {
    images := RenumberRasterEntries(entryNames, folder);
  }

  /** What comes after the padded ordinal in each image name, for the
      extractor the dispatch chose and what the library reports; an
      extractor given content its library cannot read fails. */
  function Tails(x: Extractor, content: Content): Result<seq<string>>
  {
    match x
    case FromPdf => if content.PdfDocument? then Ok(PdfTails(content.pages)) else Err(ExtractionFailed)
    case FromMobi => if content.MobiDocument? then Ok(MobiTails(content.pageCount)) else Err(ExtractionFailed)
    case FromEpub => if content.EpubBook? then Ok(EpubTails(ItemsOfType(content.items, KeptItemType))) else Err(ExtractionFailed)
    case FromCbz =>
      if content.ZipArchive? then Ok(ArchiveTails(RasterEntries(content.entryNames))) else Err(ExtractionFailed)
    case FromCbr =>
      if content.RarArchive? then Ok(ArchiveTails(RasterEntries(content.entryNames))) else Err(ExtractionFailed)
  }

  /** The paths an extractor returns. */
  function Extract(x: Extractor, content: Content, folder: Path): (r: Result<seq<Path>>)
    ensures r.Ok? <==> Tails(x, content).Ok?
    ensures r.Err? ==> r.error == ExtractionFailed
  {
    match Tails(x, content)
    case Ok(tails) => Ok(Numbered(folder, tails))
    case Err(e) => Err(e)
  }

  /** Calling the extractor the dispatch chain selected: the library raises
      when the file's contents are not of the kind it reads. */
  method Invoke(x: Extractor, content: Content, folder: Path) returns (r: Result<seq<Path>>)
    ensures r == Extract(x, content, folder)
  {
    var images: seq<Path>;
    match x {
    case FromPdf =>
      if !content.PdfDocument? {
        return Err(ExtractionFailed);
      }
      images := ExtractFromPdf(content.pages, folder);
    case FromMobi =>
      if !content.MobiDocument? {
        return Err(ExtractionFailed);
      }
      var imgCount;
      images, imgCount := ExtractFromMobi(content.pageCount, folder);
    case FromEpub =>
      if !content.EpubBook? {
        return Err(ExtractionFailed);
      }
      images := ExtractFromEpub(content.items, folder);
    case FromCbz =>
      if !content.ZipArchive? {
        return Err(ExtractionFailed);
      }
      images := ExtractFromCbz(content.entryNames, folder);
    case FromCbr =>
      if !content.RarArchive? {
        return Err(ExtractionFailed);
      }
      images := ExtractFromCbr(content.entryNames, folder);
    }
    return Ok(images);
  }

  /** PyMuPDF's extension tags are format names such as "png" or "jpeg";
      none holds a path separator. */
  predicate PlainTags(content: Content)
  {
    content.PdfDocument? ==> forall p, i :: 0 <= p < |content.pages| && 0 <= i < |content.pages[p]| ==> '/' !in content.pages[p][i]
  }

  /** Every image name an extractor writes is the padded ordinal followed by
      a tail that stays inside the staging folder. */
  lemma TailsStayInFolder(x: Extractor, content: Content)
    requires PlainTags(content) && Tails(x, content).Ok?
    ensures forall k :: 0 <= k < |Tails(x, content).value| ==> '/' !in Tails(x, content).value[k]
  {
    var tails := Tails(x, content).value;
    forall k | 0 <= k < |tails|
      ensures '/' !in tails[k]
    {
      if x == FromPdf {
        var page := content.pages[k];
        if page != [] {
          assert '/' !in page[0];
        }
      }
    }
  }

  /** Comic archives: the pages are exactly the raster entries (both
      directions), in ascending name order, one image each. */
  lemma RasterEntriesSpec(entryNames: seq<string>)
    ensures Sorted(RasterEntries(entryNames))
    ensures |RasterEntries(entryNames)| == |RasterNames(entryNames)|
    ensures multiset(RasterEntries(entryNames)) == multiset(RasterNames(entryNames))
    ensures forall name ::
      multiset(RasterEntries(entryNames))[name] == if IsRasterName(name) then multiset(entryNames)[name] else 0
    ensures forall name :: name in RasterEntries(entryNames) <==> name in entryNames && IsRasterName(name)
  {
    var kept := RasterNames(entryNames);
    SortSpec(kept);
    forall name
      ensures multiset(RasterEntries(entryNames))[name] == if IsRasterName(name) then multiset(entryNames)[name] else 0
    {
      RasterNamesCount(entryNames, name);
    }
    forall name
      ensures name in RasterEntries(entryNames) <==> name in entryNames && IsRasterName(name)
    {
      assert name in RasterEntries(entryNames) <==> name in multiset(RasterEntries(entryNames));
      assert name in kept <==> name in multiset(kept);
    }
  }

  /** A raster entry is kept as often as the namelist repeats it; any
      other entry is dropped. */
  lemma {:induction false} RasterNamesCount(entryNames: seq<string>, name: string)
    ensures multiset(RasterNames(entryNames))[name] == if IsRasterName(name) then multiset(entryNames)[name] else 0
  {
    if entryNames != [] {
      RasterNamesCount(entryNames[1..], name);
      assert entryNames == [entryNames[0]] + entryNames[1..];
    }
  }

  /** Filtering the namelist commutes with splitting it. */
  lemma {:induction false} RasterNamesAppend(a: seq<string>, b: seq<string>)
    ensures RasterNames(a + b) == RasterNames(a) + RasterNames(b)
  {
    if a == [] {
      assert a + b == b;
    } else {
      assert (a + b)[0] == a[0] && (a + b)[1..] == a[1..] + b;
      RasterNamesAppend(a[1..], b);
    }
  }

  /** One kept name per raster entry, in namelist order: an entry adds
      itself when it passes the raster test and nothing otherwise, between
      the names kept before it and those kept after it. */
  lemma RasterNamesOnePerEntry(before: seq<string>, name: string, after: seq<string>)
    ensures RasterNames(before + [name] + after)
      == RasterNames(before) + (if IsRasterName(name) then [name] else []) + RasterNames(after)
  {
    assert RasterNames([name]) == (if IsRasterName(name) then [name] else []) + RasterNames([]) by {
      assert [name][1..] == [];
    }
    RasterNamesAppend(before + [name], after);
    RasterNamesAppend(before, [name]);
  }

  /** Filtering the manifest commutes with splitting it. */
  lemma {:induction false} ItemsOfTypeAppend(a: seq<EpubItem>, b: seq<EpubItem>, itemType: int)
    ensures ItemsOfType(a + b, itemType) == ItemsOfType(a, itemType) + ItemsOfType(b, itemType)
  {
    if a == [] {
      assert a + b == b;
    } else {
      assert (a + b)[0] == a[0] && (a + b)[1..] == a[1..] + b;
      ItemsOfTypeAppend(a[1..], b, itemType);
    }
  }

  /** EPUB: the pages are the kept items in manifest order; an item of
      another type contributes nothing wherever it stands, and a kept item
      lands between the kept items before it and those after it. */
  lemma KeptItemsInManifestOrder(before: seq<EpubItem>, item: EpubItem, after: seq<EpubItem>, itemType: int)
    ensures ItemsOfType(before + [item] + after, itemType)
      == ItemsOfType(before, itemType) + (if HasType(item, itemType) then [item] else []) + ItemsOfType(after, itemType)
  {
    var single := if HasType(item, itemType) then [item] else [];
    assert ItemsOfType([item], itemType) == single by {
      assert [item][1..] == [];
      assert ItemsOfType([item], itemType) == single + ItemsOfType([], itemType);
    }
    ItemsOfTypeAppend(before + [item], after, itemType);
    ItemsOfTypeAppend(before, [item], itemType);
  }

  /** As written, a book whose manifest holds one picture "p.png" (type 1)
      and one page "c.xhtml" (type 9) yields the page and not the picture:
      the archive gets "001.xhtml". */
  lemma TypeNineKeepsDocuments(folder: Path)
    ensures var items := [EpubItem(ImageItemType, "p.png"), EpubItem(KeptItemType, "c.xhtml")];
      ItemsOfType(items, KeptItemType) == [items[1]]
      && Numbered(folder, EpubTails(ItemsOfType(items, KeptItemType))) == [Join(folder, "001.xhtml")]
  {
    var items := [EpubItem(ImageItemType, "p.png"), EpubItem(KeptItemType, "c.xhtml")];
    ItemsOfTwo(items[0], items[1], KeptItemType);
    OneItemNumbered(folder, items[1], "c", ".xhtml");
    assert "001" + ".xhtml" == "001.xhtml";
  }


  /** Filtering on ITEM_IMAGE instead keeps exactly the pictures: for the
      same book the archive gets "001.png". */
  lemma ImageTypeKeepsImages(folder: Path)
    ensures var items := [EpubItem(ImageItemType, "p.png"), EpubItem(KeptItemType, "c.xhtml")];
      ItemsOfType(items, ImageItemType) == [items[0]]
      && Numbered(folder, EpubTails(ItemsOfType(items, ImageItemType))) == [Join(folder, "001.png")]
  {
    var items := [EpubItem(ImageItemType, "p.png"), EpubItem(KeptItemType, "c.xhtml")];
    ItemsOfTwo(items[0], items[1], ImageItemType);
    OneItemNumbered(folder, items[0], "p", ".png");
    assert "001" + ".png" == "001.png";
  }

  /** The filter on a manifest of two items. */
  lemma ItemsOfTwo(a: EpubItem, b: EpubItem, itemType: int)
    ensures ItemsOfType([a, b], itemType)
      == (if HasType(a, itemType) then [a] else []) + (if HasType(b, itemType) then [b] else [])
  {
    assert [a, b][1..] == [b] && [b][1..] == [];
  }

  /** A single kept item named `stem + ext` becomes page "001" + ext. */
  lemma OneItemNumbered(folder: Path, item: EpubItem, stem: string, ext: string)
    requires item.name == stem + ext && stem != [] && '/' !in item.name
    requires 2 <= |ext| && ext[0] == '.' && '.' !in ext[1..]
    ensures Numbered(folder, EpubTails([item])) == [Join(folder, "001" + ext)]
  {
    SplitName(item.name, stem, ext);
    assert EpubTails([item])[0] == ext;
    ThreeDigits(1);
    assert Pad3(1) == "001";
  }

  /** A lower-case name ending in ".png" passes the raster test. */
  lemma RasterPng(name: string)
    requires 4 <= |name| && name[|name| - 4..] == ".png"
    requires forall i :: 0 <= i < |name| ==> !('A' <= name[i] <= 'Z')
    ensures IsRasterName(name)
  {
    LowerKeepsLowerCase(name);
  }

  /** Entries "b.png", "a.png" and "c10.png" become pages 1, 2 and 3 in
      the order a, b, c10. */
  lemma ArchiveSortExample()
    ensures RasterEntries(["b.png", "a.png", "c10.png"]) == ["a.png", "b.png", "c10.png"]
  {
    var a, b, c := "a.png", "b.png", "c10.png";
    RasterPng(a);
    RasterPng(b);
    RasterPng(c);
    assert RasterNames([b, a, c]) == [b, a, c] by {
      assert [b, a, c][1..] == [a, c] && [a, c][1..] == [c];
      assert RasterNames([c]) == [c] + RasterNames([c][1..]);
    }
    BelowAt(a, c, 0);
    BelowAt(a, b, 0);
    BelowAt(b, c, 0);
    assert Sort([c]) == [c];
    assert Sort([a, c]) == Insert(a, [c]) == [a, c];
    assert Insert(b, [c]) == [b, c];
    assert Sort([b, a, c]) == Insert(b, [a, c]) == [a] + Insert(b, [c]);
  }

  /** The order is by characters, not by number: pages named 1, 2 and 10
      come out as 1, 10, 2. */
  lemma ArchiveSortIsNotNumeric()
    ensures RasterEntries(["1.png", "2.png", "10.png"]) == ["1.png", "10.png", "2.png"]
  {
    var one, two, ten := "1.png", "2.png", "10.png";
    RasterPng(one);
    RasterPng(two);
    RasterPng(ten);
    assert RasterNames([one, two, ten]) == [one, two, ten] by {
      assert [one, two, ten][1..] == [two, ten] && [two, ten][1..] == [ten];
      assert RasterNames([ten]) == [ten] + RasterNames([ten][1..]);
    }
    assert one[..1] == ten[..1];
    BelowAt(one, ten, 1);
    BelowAt(ten, two, 0);
    BelowAt(one, two, 0);
    assert Sort([ten]) == [ten];
    assert Sort([two, ten]) == Insert(two, [ten]) == [ten] + Insert(two, []) == [ten, two];
    assert Sort([one, two, ten]) == Insert(one, [ten, two]) == [one, ten, two];
  }
}
