/** The X-ray intake of the diagnosis back end: the name an upload is
    stored under, the conversion of an uploaded PDF to a PNG, the data URI
    the image is sent as, and the `/api/xray-diagnosis` handler's choice
    between the uploaded image and the converted PDF. */
module XrayIntake {

  import opened Wrappers
  import opened JsText
  import opened JsPath
  import opened Base64
  import opened ResponseExtractor

  /** The disk-storage destination of every upload. */
  const UploadDir := "uploads/"

  const NoFilesMessage := "No files uploaded"
  const NoValidFileMessage := "No valid image or PDF file provided"
  const FailureMessage := "An error occurred while processing the diagnosis"

  /* ---------- Stored names ---------- */

  /** The name an upload is stored under: the clock reading in decimal
      followed by the extension of the client's file name. */
  function StoredName(now: nat, originalName: string): string
  {
    DecimalString(now) + ExtName(originalName)
  }

  /** The path multer reports for a stored upload. */
  function StoredPath(now: nat, originalName: string): string
  {
    UploadDir + StoredName(now, originalName)
  }

  /** The test the handler applies to the `file` part: its extension,
      lower-cased, is ".pdf". */
  predicate IsPdf(path: string)
  {
    Lower(ExtName(path)) == ".pdf"
  }

  /** A decimal numeral contains neither a dot nor a slash. */
  lemma DecimalHasNoSeparator(n: nat)
    ensures '.' !in DecimalString(n) && '/' !in DecimalString(n)
  {
    var s := DecimalString(n);
    forall k | 0 <= k < |s| ensures s[k] != '.' && s[k] != '/' {
      assert IsDigit(s[k]);
    }
  }

  /** A stored upload keeps the client's extension, so the PDF test gives
      the same answer on the stored path as on the original name. */
  lemma StoredExtension(now: nat, originalName: string)
    ensures ExtName(StoredPath(now, originalName)) == ExtName(originalName)
    ensures IsPdf(StoredPath(now, originalName)) <==> IsPdf(originalName)
  {
    var dir, stem, ext := UploadDir, DecimalString(now), ExtName(originalName);
    var path := StoredPath(now, originalName);
    assert path == dir + stem + ext by {
      assert path == dir + (stem + ext);
    }
    assert ExtName(dir + stem + ext) == ext by {
      DecimalHasNoSeparator(now);
      assert dir[|dir| - 1] == '/';
      ExtNameOfStem(dir, stem, ext);
    }
  }

  /** The clock reading can be read back from the start of a stored name. */
  lemma StoredTimestamp(now: nat, originalName: string)
    ensures FirstDigitRun(StoredName(now, originalName)) == Some(DecimalString(now))
    ensures ParseDigits(DecimalString(now)) == now
  {
    var stem, ext := DecimalString(now), ExtName(originalName);
    assert StoredName(now, originalName) == [] + stem + ext;
    FirstDigitRunAt([], stem, ext);
    ParseDecimal(now);
  }

  /** Where a converted PDF's first page is written. */
  function PngPath(now: nat): string
  {
    UploadDir + DecimalString(now) + ".png"
  }

  /* ---------- Data URIs ---------- */

  /** `path.extname(p).slice(1)`: the extension without its dot, verbatim,
      and empty when there is no extension. */
  function ImageFormat(path: string): (format: string)
    ensures ExtName(path) == [] ==> format == []
    ensures ExtName(path) != [] ==> ExtName(path) == "." + format
    ensures '.' !in format && '/' !in format
  {
    var e := ExtName(path);
    ExtNameShape(path);
    if e == [] then [] else e[1..]
  }

  /** A converted page is a PNG and is never taken for a PDF. */
  lemma PngPathFormat(now: nat)
    ensures ExtName(PngPath(now)) == ".png"
    ensures ImageFormat(PngPath(now)) == "png"
    ensures !IsPdf(PngPath(now))
  {
    DecimalHasNoSeparator(now);
    assert UploadDir[|UploadDir| - 1] == '/';
    ExtNameOfStem(UploadDir, DecimalString(now), ".png");
    assert ".png"[1..] == "png";
    assert Lower(".png")[1] == 'p';
  }

  /** A stored upload is sent with the media subtype of its original
      name's extension, case and all. */
  lemma StoredFormat(now: nat, originalName: string)
    ensures ImageFormat(StoredPath(now, originalName)) == ImageFormat(originalName)
  {
    StoredExtension(now, originalName);
  }

  const DataPrefix := "data:image/"
  const Base64Marker := ";base64,"

  /** `getImageDataUrl` on a file whose contents are `bytes`. */
  function DataUrl(path: string, bytes: seq<byte>): string
  {
    DataPrefix + ImageFormat(path) + Base64Marker + Encode(bytes)
  }

  /** Reads a data URI back into its media subtype and its decoded
      payload, which follows the last comma. */
  function ParseDataUrl(url: string): Option<(string, seq<byte>)>
  {
    var k := LastIndexOf(url, ',');
    if k + 1 < |DataPrefix| + |Base64Marker| then None
    else
      var header := url[..k + 1];
      if header[..|DataPrefix|] != DataPrefix
         || header[|header| - |Base64Marker|..] != Base64Marker then None
      else
        match Decode(url[k + 1..])
        case None => None
        case Some(bytes) => Some((header[|DataPrefix|..|header| - |Base64Marker|], bytes))
  }

  /** An encoding contains no comma. */
  lemma NoCommaInEncoding(bytes: seq<byte>)
    ensures ',' !in Encode(bytes)
  {
    var s := Encode(bytes);
    EncodeAlphabet(bytes);
    forall i | 0 <= i < |s| ensures s[i] != ',' {
      assert InAlphabet(s[i]);
    }
  }

  /** The last comma of `header + payload` ends `header` when `payload`
      has none. */
  lemma LastCommaAt(header: string, payload: string)
    requires header != [] && header[|header| - 1] == ','
    requires ',' !in payload
    ensures LastIndexOf(header + payload, ',') == |header| - 1
  {
    var url := header + payload;
    forall j | |header| - 1 < j < |url| ensures url[j] != ',' {
      assert url[j] == payload[j - |header|];
    }
    LastIndexOfAt(url, ',', |header| - 1);
  }

  /** The data URI carries the file's bytes and its extension: reading it
      back gives both, whatever characters the extension holds. */
  lemma DataUrlRoundTrip(path: string, bytes: seq<byte>)
    ensures ParseDataUrl(DataUrl(path, bytes)) == Some((ImageFormat(path), bytes))
  {
    var format, payload := ImageFormat(path), Encode(bytes);
    var header := DataPrefix + format + Base64Marker;
    var url := DataUrl(path, bytes);
    assert url == header + payload;
    NoCommaInEncoding(bytes);
    LastCommaAt(header, payload);
    var k := |header| - 1;
    assert url[..k + 1] == header;
    assert url[k + 1..] == payload;
    DecodeEncode(bytes);
    HeaderParts(format);
  }

  /** The header of a data URI splits into prefix, format and marker. */
  lemma HeaderParts(format: string)
    ensures var header := DataPrefix + format + Base64Marker;
      header[..|DataPrefix|] == DataPrefix
      && header[|header| - |Base64Marker|..] == Base64Marker
      && header[|DataPrefix|..|header| - |Base64Marker|] == format
  {
  }

  /* ---------- The handler's choice of image ---------- */

  /** What the handler does with the uploaded parts. */
  datatype Choice =
    | Reject(message: string)
    | UseImage(imagePath: string)
    | ConvertPdf(pdfPath: string)

  /** The choice between the `image` part and the `file` part: a PDF file
      is converted and wins over any image; a file of another type is
      used only for the rejection message when there is no image. */
  function ChooseUpload(image: Option<string>, file: Option<string>): (c: Choice)
    ensures c == Reject(NoFilesMessage) <==> image.None? && file.None?
    ensures c == Reject(NoValidFileMessage) <==> image.None? && file.Some? && !IsPdf(file.value)
    ensures c.ConvertPdf? <==> file.Some? && IsPdf(file.value)
    ensures c.ConvertPdf? ==> c.pdfPath == file.value
    ensures c.UseImage? <==> image.Some? && !(file.Some? && IsPdf(file.value))
    ensures c.UseImage? ==> c.imagePath == image.value
  {
    if image.None? && file.None? then Reject(NoFilesMessage)
    else if file.Some? && IsPdf(file.value) then ConvertPdf(file.value)
    else if image.None? then Reject(NoValidFileMessage)
    else UseImage(image.value)
  }

  /** A file stored from a PDF name is converted whatever image comes with
      it, and one stored from any other name gives way to the image. */
  lemma StoredFileChoice(image: Option<string>, now: nat, originalName: string)
    ensures IsPdf(originalName) ==>
      ChooseUpload(image, Some(StoredPath(now, originalName))) == ConvertPdf(StoredPath(now, originalName))
    ensures !IsPdf(originalName) && image.Some? ==>
      ChooseUpload(image, Some(StoredPath(now, originalName))) == ChooseUpload(image, None)
  {
    StoredExtension(now, originalName);
  }

  /* ---------- The upload directory and the handler ---------- */

  /** The reply of `/api/xray-diagnosis`: the parsed fields and the raw
      completion, or an error status with its message. */
  datatype Response =
    | Diagnosis(result: Extracted, aiAnalysis: string)
    | Failure(status: nat, error: string)

  /** The first page the renderer gives for a stored PDF; None when the
      file is missing, rendering fails or there are no pages. */
  function FirstPage(files: map<string, seq<byte>>, pdfPath: string,
                     render: seq<byte> -> Option<seq<seq<byte>>>): (page: Option<seq<byte>>)
    ensures page.Some? ==> pdfPath in files
    ensures page.Some? <==> pdfPath in files && render(files[pdfPath]).Some? && render(files[pdfPath]).value != []
  {
    if pdfPath !in files then None
    else match render(files[pdfPath])
      case None => None
      case Some(pages) => if pages == [] then None else Some(pages[0])
  }

  /** The upload directory, as a map from path to contents. */
  class UploadDirectory {

    var files: map<string, seq<byte>>

    constructor(existing: map<string, seq<byte>>)
      ensures files == existing
    {
      files := existing;
    }

    /** multer's disk storage: the upload is written under its stored
        name, replacing any file already there. */
    method Store(now: nat, originalName: string, bytes: seq<byte>) returns (path: string)
      modifies this
      ensures path == StoredPath(now, originalName)
      ensures files == old(files)[path := bytes]
    {
      path := UploadDir + StoredName(now, originalName);
      files := files[path := bytes];
    }

    /** `convertPdfToImage`: only the first rendered page is written, to
        the PNG path of the clock reading; nothing is written when the
        rendering fails or yields no page. */
    method ConvertPdfToImage(pdfPath: string, render: seq<byte> -> Option<seq<seq<byte>>>, now: nat)
      returns (imagePath: Option<string>)
      modifies this
      ensures var page := FirstPage(old(files), pdfPath, render);
        if page.Some? then
          imagePath == Some(PngPath(now)) && files == old(files)[PngPath(now) := page.value]
        else
          imagePath.None? && files == old(files)
    {
      if pdfPath !in files {
        return None;
      }
      var outputImages := render(files[pdfPath]);
      if outputImages.None? || outputImages.value == [] {
        return None;
      }
      var path := PngPath(now);
      files := files[path := outputImages.value[0]];
      imagePath := Some(path);
    }

    /** Sends the image at `imagePath` as a data URI and parses the
        completion; a missing file or a failed request gives the generic
        500 reply. */
    function Analysis(imagePath: string, analyze: string -> Option<string>): (response: Response)
      reads this
      ensures response.Diagnosis? <==>
        imagePath in files && analyze(DataUrl(imagePath, files[imagePath])).Some?
      ensures response.Diagnosis? ==>
        analyze(DataUrl(imagePath, files[imagePath])) == Some(response.aiAnalysis)
        && response.result == ParseAIResponse(response.aiAnalysis)
      ensures response.Failure? ==> response == Failure(500, FailureMessage)
    {
      if imagePath !in files then Failure(500, FailureMessage)
      else match analyze(DataUrl(imagePath, files[imagePath]))
        case None => Failure(500, FailureMessage)
        case Some(completion) => Diagnosis(ParseAIResponse(completion), completion)
    }

    /** The `/api/xray-diagnosis` handler: it follows `ChooseUpload`, a
        PDF's first page takes the place of the image, and only that
        conversion writes to the directory. */
    method XrayDiagnosis(image: Option<string>, file: Option<string>, now: nat,
                         render: seq<byte> -> Option<seq<seq<byte>>>,
                         analyze: string -> Option<string>)
      returns (response: Response)
      modifies this
      ensures match ChooseUpload(image, file)
        case Reject(message) =>
          response == Failure(400, message) && files == old(files)
        case UseImage(path) =>
          files == old(files) && response == Analysis(path, analyze)
        case ConvertPdf(path) =>
          var page := FirstPage(old(files), path, render);
          if page.Some? then
            files == old(files)[PngPath(now) := page.value]
            && response == Analysis(PngPath(now), analyze)
          else
            files == old(files) && response == Failure(500, FailureMessage)
    {
      var imagePath := image;
      var filePath := file;
      if imagePath.None? && filePath.None? {
        return Failure(400, NoFilesMessage);
      }
      if filePath.Some? && IsPdf(filePath.value) {
        var converted := ConvertPdfToImage(filePath.value, render, now);
        if converted.None? {
          return Failure(500, FailureMessage);
        }
        imagePath := converted;
      }
      if imagePath.None? {
        return Failure(400, NoValidFileMessage);
      }
      response := Analysis(imagePath.value, analyze);
    }
  }
}
