/**
 * extract_text_from_file: choose an extractor from the file name's extension.
 * The extractors themselves (PDF rendering, OCR, UTF-8 decoding) are opaque:
 * they are supplied as functions from the file's bytes to its text, None
 * standing for the exception an extractor raises on input it cannot read.
 */
module Extract {
  import opened Wrappers
  import opened Text

  newtype byte = x: int | 0 <= x < 256

  type Bytes = seq<byte>

  /** An uploaded file: its name and the bytes read from it. */
  datatype Upload = Upload(name: string, data: Bytes)

  /** The three extractors the dispatch can hand the bytes to. */
  datatype Extractors = Extractors(
    pdf: Bytes -> Option<string>,
    image: Bytes -> Option<string>,
    utf8: Bytes -> Option<string>)

  datatype FileKind = Pdf | Image | PlainText | Unsupported

  /** Which extractor raised. */
  datatype ExtractError = PdfError | ImageError | DecodeError

  /**
   * name.lower().split(".")[-1]: lower-case, free of dots, and either the
   * whole lower-cased name or what follows its last dot.
   */
  function Extension(name: string): (ext: string)
    ensures '.' !in ext
    ensures forall i :: 0 <= i < |ext| ==> !IsUpper(ext[i])
    ensures ext == Lower(name) || EndsWith(Lower(name), "." + ext)
  {
    var l := Lower(name);
    var parts := Split(l, '.');
    var last := parts[|parts| - 1];
    LastPart(l, '.');
    assert ['.'] + last == "." + last;
    LowerSuffix(name, last);
    last
  }

  /** The extensions the upload widgets accept. */
  const SupportedExtensions: seq<string> := ["pdf", "jpg", "jpeg", "png", "txt"]

  /** The if/elif chain on the extension: exactly the accepted extensions have an extractor. */
  function KindOf(ext: string): (kind: FileKind)
    ensures kind == Unsupported <==> ext !in SupportedExtensions
  {
    if ext == "pdf" then Pdf
    else if ext in ["jpg", "jpeg", "png"] then Image
    else if ext == "txt" then PlainText
    else Unsupported
  }

  function Raised(o: Option<string>, e: ExtractError): Result<string, ExtractError>
  {
    match o
    case Some(text) => Ok(text)
    case None => Err(e)
  }

  /**
   * extract_text_from_file. Only the extractor the dispatch picks can fail,
   * and the error names it; a file whose extension is not accepted yields ""
   * and never fails.
   */
  function ExtractText(file: Upload, ex: Extractors): (r: Result<string, ExtractError>)
    ensures Extension(file.name) !in SupportedExtensions ==> r == Ok("")
    ensures r.Err? ==> Extension(file.name) in SupportedExtensions
    ensures r == Err(PdfError) ==> ex.pdf(file.data) == None
    ensures r == Err(ImageError) ==> ex.image(file.data) == None
    ensures r == Err(DecodeError) ==> ex.utf8(file.data) == None
  {
    match KindOf(Extension(file.name))
    case Pdf => Raised(ex.pdf(file.data), PdfError)
    case Image => Raised(ex.image(file.data), ImageError)
    case PlainText => Raised(ex.utf8(file.data), DecodeError)
    case Unsupported => Ok("")
  }

  /**
   * The file name, lower-cased, is ext or ends in "." + ext: the test a
   * reader applies to "notes.PDF" or "scan.tar.png".
   */
  predicate HasExtension(name: string, ext: string)
  {
    Lower(name) == ext || EndsWith(Lower(name), "." + ext)
  }

  /** A suffix of a lower-cased name has no upper-case letter. */
  lemma LowerSuffix(name: string, e: string)
    requires e == Lower(name) || EndsWith(Lower(name), "." + e)
    ensures forall i :: 0 <= i < |e| ==> !IsUpper(e[i])
  {
    var l := Lower(name);
    forall i | 0 <= i < |e|
      ensures !IsUpper(e[i])
    {
      if e != l {
        var k := |l| - |e| - 1;
        assert l[k..] == "." + e;
        assert e[i] == l[k..][i + 1] == l[k + i + 1];
      }
    }
  }

  /** For a dot-free e, the extension is e exactly when the name has extension e. */
  lemma {:induction false} ExtensionIs(name: string, e: string)
    requires '.' !in e
    ensures Extension(name) == e <==> HasExtension(name, e)
  {
    var l := Lower(name);
    if l == e {
      SplitNoSeparator(l, '.');
    } else if EndsWith(l, "." + e) {
      var p := l[..|l| - |e| - 1];
      assert l == p + ['.'] + e;
      SplitAround(p, '.', e);
      SplitNoSeparator(e, '.');
    }
  }

  /** The dispatch is case-insensitive: it depends on the lower-cased name only. */
  lemma ExtensionIgnoresCase(name: string)
    ensures Extension(Lower(name)) == Extension(name)
  {
    LowerIdempotent(name);
  }

  /** Two names that differ only in the case of their letters have the same extension. */
  lemma ExtensionCaseInsensitive(s: string, t: string)
    requires SameIgnoringCase(s, t)
    ensures Extension(s) == Extension(t)
  {
    LowerIgnoresCase(s, t);
  }

  /** "notes.PDF" goes to the PDF extractor. */
  lemma UpperCaseExtension()
    ensures Extension("notes.PDF") == "pdf" && KindOf(Extension("notes.PDF")) == Pdf
  {
    var name := "notes.PDF";
    assert Lower(name) == "notes.pdf";
    assert Lower(name)[|Lower(name)| - 4..] == "." + "pdf";
    ExtensionIs(name, "pdf");
  }

  /**
   * What each file name leads to: the PDF extractor for "pdf", the OCR
   * extractor for "jpg", "jpeg" and "png", UTF-8 decoding for "txt", and
   * for every other name the empty text, without failure.
   */
  lemma {:induction false} ExtractTextByName(file: Upload, ex: Extractors)
    ensures HasExtension(file.name, "pdf") ==>
              ExtractText(file, ex) == Raised(ex.pdf(file.data), PdfError)
    ensures HasExtension(file.name, "jpg") || HasExtension(file.name, "jpeg") || HasExtension(file.name, "png") ==>
              ExtractText(file, ex) == Raised(ex.image(file.data), ImageError)
    ensures HasExtension(file.name, "txt") ==>
              ExtractText(file, ex) == Raised(ex.utf8(file.data), DecodeError)
    ensures !HasExtension(file.name, "pdf") && !HasExtension(file.name, "jpg") && !HasExtension(file.name, "jpeg")
              && !HasExtension(file.name, "png") && !HasExtension(file.name, "txt") ==>
              ExtractText(file, ex) == Ok("")
  {
    ExtensionIs(file.name, "pdf");
    ExtensionIs(file.name, "jpg");
    ExtensionIs(file.name, "jpeg");
    ExtensionIs(file.name, "png");
    ExtensionIs(file.name, "txt");
  }
}
