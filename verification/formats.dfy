/** Which files the converter accepts and which extractor each one gets. */
module Formats {
  import opened Strings
  import opened Paths
  import opened Errors

  /** `MangaConverter.SUPPORTED_FORMATS`. */
  const SupportedFormats: set<string> := {".pdf", ".mobi", ".epub", ".cbz", ".cbr", ".azw3"}

  /** The scan's test on a directory entry: its suffix, lower-cased, is a
      supported format. */
  predicate IsConvertible(p: Path)
  {
    Lower(Suffix(p)) in SupportedFormats
  }

  /** The comic-archive extractors' test on an entry name: lower-cased, it
      ends in one of the raster extensions. */
  predicate IsRasterName(name: string)
  {
    var lower := Lower(name);
    EndsWith(lower, ".jpg") || EndsWith(lower, ".jpeg") || EndsWith(lower, ".png")
    || EndsWith(lower, ".gif") || EndsWith(lower, ".webp")
  }

  datatype Extractor = FromPdf | FromMobi | FromEpub | FromCbz | FromCbr

  /** The extensions each extractor is meant for. */
  function Extensions(x: Extractor): set<string>
  {
    match x
    case FromPdf => {".pdf"}
    case FromMobi => {".mobi", ".azw3"}
    case FromEpub => {".epub"}
    case FromCbz => {".cbz"}
    case FromCbr => {".cbr"}
  }

  /** The `if`/`elif` chain of `process_file` on the lower-cased extension. */
  function Dispatch(extension: string): (r: Result<Extractor>)
    ensures r.Ok? <==> extension in SupportedFormats
    ensures r.Ok? ==> extension in Extensions(r.value)
    ensures r.Err? ==> r.error == UnsupportedFormat(extension)
  {
    if extension == ".pdf" then Ok(FromPdf)
    else if extension in {".mobi", ".azw3"} then Ok(FromMobi)
    else if extension == ".epub" then Ok(FromEpub)
    else if extension == ".cbz" then Ok(FromCbz)
    else if extension == ".cbr" then Ok(FromCbr)
    else Err(UnsupportedFormat(extension))
  }

  /** The extractors split the supported formats between them: every format
      belongs to exactly one extractor, and that is the one the dispatch
      picks; MOBI and AZW3 share one. */
  lemma DispatchPicksTheOwner(extension: string, x: Extractor)
    ensures extension in Extensions(x) <==> Dispatch(extension) == Ok(x)
    ensures extension in Extensions(x) ==> extension in SupportedFormats
  {
    match x
    case FromPdf =>
    case FromMobi =>
    case FromEpub =>
    case FromCbz =>
    case FromCbr =>
  }

  /** Whatever the scan accepts, the dispatch accepts too. */
  lemma ConvertibleDispatches(p: Path)
    requires IsConvertible(p)
    ensures Dispatch(Lower(Suffix(p))).Ok?
  {
  }

  /** An upper-case extension is accepted. */
  lemma UpperCaseAccepted()
    ensures IsConvertible(Join("/manga", "X.PDF"))
  {
    BaseNameOfJoin("/manga", "X.PDF");
    assert "X.PDF"[1] == '.';
    LastDotIsLast("X.PDF");
    assert Suffix(Join("/manga", "X.PDF")) == ".PDF";
    var l := Lower(".PDF");
    assert l[0] == '.' && l[1] == 'p' && l[2] == 'd' && l[3] == 'f';
    assert l == ".pdf";
  }

  /** A text file is not a source. */
  lemma TextRejected()
    ensures !IsConvertible(Join("/manga", "notes.txt"))
  {
    BaseNameOfJoin("/manga", "notes.txt");
    assert "notes.txt"[5] == '.';
    LastDotIsLast("notes.txt");
    assert Suffix(Join("/manga", "notes.txt")) == ".txt";
    var l := Lower(".txt");
    assert l[0] == '.' && l[1] == 't' && l[2] == 'x' && l[3] == 't';
    assert l == ".txt";
  }

  /** A hidden file named ".pdf" has no suffix under pathlib's rule (its
      only '.' is its first character), so the scan skips it. */
  lemma DotFileIgnored()
    ensures !IsConvertible(Join("/manga", ".pdf"))
  {
    BaseNameOfJoin("/manga", ".pdf");
    LastDotIsLast(".pdf");
    assert ".pdf"[0] == '.' && ".pdf"[1] == 'p' && ".pdf"[2] == 'd' && ".pdf"[3] == 'f';
    assert Suffix(Join("/manga", ".pdf")) == [];
  }
}
