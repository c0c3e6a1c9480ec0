/**
 Format dispatch and output naming: seven factories, each creating the
 converter for one target format, and the converters themselves. A
 converter decides where it writes, which encoder tag it hands to the
 imaging library, and how a library failure reaches its caller.

 Factories and converters carry no fields, so each is a plain constructor
 of a datatype. The library work (open the source image, then save it) is
 not modelled: its verdict is an input, `LibraryCall`.
 */
module ImageConverter {
  import opened Wrappers
  import opened Text

  /** The target formats, one per factory/converter pair. */
  datatype Format = JPG | JPEG | PNG | BMP | ICO | TIFF | WebP

  /** Canonical upper-case identifier of a format. */
  function FormatName(f: Format): (name: string)
    ensures name != [] && forall i :: 0 <= i < |name| ==> IsAsciiUpper(name[i])
  {
    match f
    case JPG => "JPG"
    case JPEG => "JPEG"
    case PNG => "PNG"
    case BMP => "BMP"
    case ICO => "ICO"
    case TIFF => "TIFF"
    case WebP => "WEBP"
  }

  /** Distinct formats have distinct identifiers, so at most one branch of
      the window's factory if-chain matches a name. */
  lemma FormatNameInjective(f: Format, g: Format)
    requires FormatName(f) == FormatName(g)
    ensures f == g
  {
  }

  datatype ConverterFactory =
    | JPGConverterFactory
    | JPEGConverterFactory
    | PNGConverterFactory
    | BMPConverterFactory
    | ICOConverterFactory
    | TIFFConverterFactory
    | WebPConverterFactory

  datatype Converter =
    | JPGConverter
    | JPEGConverter
    | PNGConverter
    | BMPConverter
    | ICOConverter
    | TIFFConverter
    | WebPConverter

  /** The format a factory class is named after. */
  function FactoryFormat(f: ConverterFactory): Format
  {
    match f
    case JPGConverterFactory => JPG
    case JPEGConverterFactory => JPEG
    case PNGConverterFactory => PNG
    case BMPConverterFactory => BMP
    case ICOConverterFactory => ICO
    case TIFFConverterFactory => TIFF
    case WebPConverterFactory => WebP
  }

  /** The format a converter class is named after. */
  function ConverterFormat(c: Converter): Format
  {
    match c
    case JPGConverter => JPG
    case JPEGConverter => JPEG
    case PNGConverter => PNG
    case BMPConverter => BMP
    case ICOConverter => ICO
    case TIFFConverter => TIFF
    case WebPConverter => WebP
  }

  /** `create_converter`: every factory builds the converter of its own format. */
  function CreateConverter(f: ConverterFactory): (c: Converter)
    ensures ConverterFormat(c) == FactoryFormat(f)
  {
    match f
    case JPGConverterFactory => JPGConverter
    case JPEGConverterFactory => JPEGConverter
    case PNGConverterFactory => PNGConverter
    case BMPConverterFactory => BMPConverter
    case ICOConverterFactory => ICOConverter
    case TIFFConverterFactory => TIFFConverter
    case WebPConverterFactory => WebPConverter
  }

  /** Factories and converters are in one-to-one correspondence: no two
      factories share a converter, and every converter has a factory. */
  lemma CreateConverterIsBijective(c: Converter)
    ensures exists f :: CreateConverter(f) == c
    ensures forall f, g :: CreateConverter(f) == c && CreateConverter(g) == c ==> f == g
  {
    match c
    case JPGConverter => assert CreateConverter(JPGConverterFactory) == c;
    case JPEGConverter => assert CreateConverter(JPEGConverterFactory) == c;
    case PNGConverter => assert CreateConverter(PNGConverterFactory) == c;
    case BMPConverter => assert CreateConverter(BMPConverterFactory) == c;
    case ICOConverter => assert CreateConverter(ICOConverterFactory) == c;
    case TIFFConverter => assert CreateConverter(TIFFConverterFactory) == c;
    case WebPConverter => assert CreateConverter(WebPConverterFactory) == c;
  }

  /** The format string passed to the library's save routine: the name of
      the converter's own format up to letter case, except that JPG hands
      over JPEG. */
  function EncoderTag(c: Converter): (tag: string)
    ensures Upper(tag) == FormatName(if c == JPGConverter then JPEG else ConverterFormat(c))
  {
    match c
    case JPGConverter => "JPEG"
    case JPEGConverter => "JPEG"
    case PNGConverter => "PNG"
    case BMPConverter => "BMP"
    case ICOConverter => "ICO"
    case TIFFConverter => "TIFF"
    case WebPConverter => "WebP"
  }

  /** Two converters share an encoder tag only when they are the JPG and
      JPEG converters, which both write JPEG data. */
  lemma SharedEncoderOnlyForJpeg(c: Converter, d: Converter)
    requires c != d
    ensures EncoderTag(c) == EncoderTag(d) <==> {c, d} == {JPGConverter, JPEGConverter}
  {
    if {c, d} == {JPGConverter, JPEGConverter} {
      assert c == JPGConverter || c == JPEGConverter;
      assert d == JPGConverter || d == JPEGConverter;
    }
  }

  /** What a converter appends to the output path: its format's name in
      lower case, after a dot for every converter but JPG. */
  function Suffix(c: Converter): (suffix: string)
    ensures suffix == (if c == JPGConverter then "" else ".") + LowerAscii(FormatName(ConverterFormat(c)))
    ensures '/' !in suffix
  {
    match c
    case JPGConverter => "jpg"
    case JPEGConverter => ".jpeg"
    case PNGConverter => ".png"
    case BMPConverter => ".bmp"
    case ICOConverter => ".ico"
    case TIFFConverter => ".tiff"
    case WebPConverter => ".webp"
  }

  /** The path a converter writes to. Every converter but JPG appends a dot
      and its encoder tag in lower case; JPG appends "jpg" with no dot. */
  function Destination(c: Converter, outputPath: string): (path: string)
    ensures c != JPGConverter ==> path == outputPath + "." + LowerAscii(EncoderTag(c))
    ensures c == JPGConverter ==> path == outputPath + "jpg" && path[|outputPath|] != '.'
  {
    outputPath + Suffix(c)
  }

  /** No two converters write to the same file for the same output path. */
  lemma DestinationsDistinct(c: Converter, d: Converter, outputPath: string)
    requires c != d
    ensures Destination(c, outputPath) != Destination(d, outputPath)
  {
    DestinationEndsWithSuffix(c, outputPath);
    DestinationEndsWithSuffix(d, outputPath);
  }

  lemma DestinationEndsWithSuffix(c: Converter, outputPath: string)
    ensures Destination(c, outputPath)[|outputPath|..] == Suffix(c)
  {
  }

  /** The library's verdict on one open-and-save: success, or the text of
      the exception it raised. */
  datatype LibraryCall = Saved | Raised(detail: string)

  /** The library cannot open `None`; an answer of `Saved` is only possible
      for a real path. */
  predicate LibraryAgrees(imagePath: Option<string>, lib: LibraryCall)
  {
    imagePath.Some? || lib.Raised?
  }

  /** The one call a successful conversion makes: save to `path` with
      encoder `encoder`. */
  datatype WriteRequest = WriteRequest(path: string, encoder: string)

  /** What leaves `convert` when it fails: a `RuntimeError` built by the
      converter, or the library's own exception passed through. */
  datatype ConvertError = RuntimeError(message: string) | LibraryError(detail: string)

  datatype Conversion = Written(request: WriteRequest) | Failed(error: ConvertError)

  /** Python's rendering of the source path inside a message. */
  function PathText(imagePath: Option<string>): string
  {
    match imagePath
    case Some(p) => p
    case None => "None"
  }

  const FailurePrefix: string := "Ошибка при конвертации изображения "

  /** The message of the `RuntimeError` a wrapping converter raises. */
  function WrappedMessage(imagePath: Option<string>, detail: string): (m: string)
    ensures OccursAt(m, PathText(imagePath), |FailurePrefix|)
    ensures m[..|FailurePrefix|] == FailurePrefix
    ensures EndsWith(m, detail)
  {
    FailurePrefix + PathText(imagePath) + ": " + detail
  }

  /** `str(e)` for an error leaving `convert`. */
  function ErrorText(e: ConvertError): string
  {
    match e
    case RuntimeError(m) => m
    case LibraryError(d) => d
  }

  /** `convert(image_path, output_path)`. */
  function Convert(c: Converter, imagePath: Option<string>, outputPath: string, lib: LibraryCall): (r: Conversion)
    requires LibraryAgrees(imagePath, lib)
    ensures r.Written? <==> lib.Saved?
    ensures r.Written? ==> r.request == WriteRequest(Destination(c, outputPath), EncoderTag(c))
    ensures lib.Raised? && c == JPGConverter ==> r == Failed(LibraryError(lib.detail))
    ensures lib.Raised? && c != JPGConverter ==>
      && r.Failed? && r.error.RuntimeError?
      && Contains(r.error.message, PathText(imagePath))
      && Contains(r.error.message, lib.detail)
  {
    match lib
    case Saved => Written(WriteRequest(Destination(c, outputPath), EncoderTag(c)))
    case Raised(detail) =>
      if c == JPGConverter then Failed(LibraryError(detail))
      else
        var m := WrappedMessage(imagePath, detail);
        assert OccursAt(m, PathText(imagePath), |FailurePrefix|);
        assert OccursAt(m, detail, |m| - |detail|);
        Failed(RuntimeError(m))
  }

  /** Whatever the converter, the text of its error ends with the
      library's own text. */
  lemma ErrorTextKeepsDetail(c: Converter, imagePath: Option<string>, outputPath: string, detail: string)
    ensures Convert(c, imagePath, outputPath, Raised(detail)).Failed?
    ensures EndsWith(ErrorText(Convert(c, imagePath, outputPath, Raised(detail)).error), detail)
  {
  }

  /** The write request depends on the output path and the converter only,
      never on the source path. */
  lemma WriteRequestIgnoresSource(c: Converter, p: string, q: string, outputPath: string)
    ensures Convert(c, Some(p), outputPath, Saved) == Convert(c, Some(q), outputPath, Saved)
  {
  }
}
