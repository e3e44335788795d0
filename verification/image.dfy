/** Input handling of the image resizer (`ImageController`): the argument
    checks of `Resize`, the decoding chain of `DecodeBase64` and
    `DetectImageFormat`, output-format normalisation and the format label of
    the encoded result. Format detection looks only at magic bytes: the JPEG
    start-of-image marker FF D8 (Table B.1 of ITU-T T.81) followed by the FF
    of the next marker, and the eight-byte PNG signature (section 5.2 of
    ISO/IEC 15948). Pixel work, Base64 and the bitmap decoder are
    collaborators outside this model. */
module Image {
  import opened Wrappers
  import opened Text

  datatype ImageFormat = Jpeg | Png

  /** The format name the controller reports. */
  function Label(f: ImageFormat): string {
    match f
    case Jpeg => "jpeg"
    case Png => "png"
  }

  datatype ImageError =
    | NoDimension
    | WidthNotPositive
    | HeightNotPositive
    | FileEmpty
    | InvalidBase64
    | UnsupportedFormat
    | Undecodable
    | BadOutputFormat

  const JpegMarker: seq<Byte> := [0xFF, 0xD8, 0xFF]
  const PngSignature: seq<Byte> := [0x89, 0x50, 0x4E, 0x47, 0x0D, 0x0A, 0x1A, 0x0A]

  /** `DetectImageFormat`: JPEG when the buffer starts FF D8 FF, else PNG
      when it starts with the PNG signature, else unsupported. */
  function DetectImageFormat(bytes: seq<Byte>): (r: Result<ImageFormat, ImageError>)
    ensures r == Success(Jpeg) <==> StartsWith(bytes, JpegMarker)
    ensures r == Success(Png) <==> StartsWith(bytes, PngSignature)
    ensures r.Failure? ==> r.error == UnsupportedFormat
  {
    if |bytes| >= 3 && bytes[0] == 0xFF && bytes[1] == 0xD8 && bytes[2] == 0xFF then
      assert bytes[..3] == JpegMarker;
      Success(Jpeg)
    else if |bytes| >= 8 && bytes[0] == 0x89 && bytes[1] == 0x50 && bytes[2] == 0x4E && bytes[3] == 0x47
         && bytes[4] == 0x0D && bytes[5] == 0x0A && bytes[6] == 0x1A && bytes[7] == 0x0A then
      assert bytes[..8] == PngSignature;
      Success(Png)
    else
      assert |bytes| >= 3 ==> bytes[..3][0] == bytes[0] && bytes[..3][1] == bytes[1] && bytes[..3][2] == bytes[2];
      assert |bytes| >= 8 ==> forall i :: 0 <= i < 8 ==> bytes[..8][i] == bytes[i];
      Failure(UnsupportedFormat)
  }

  /** No buffer carries both signatures, so the order of the two tests does
      not matter. */
  lemma SignaturesExclusive(bytes: seq<Byte>)
    ensures !(StartsWith(bytes, JpegMarker) && StartsWith(bytes, PngSignature))
  {
    if |bytes| >= 8 {
      assert bytes[..3][0] == bytes[0] && bytes[..8][0] == bytes[0];
    }
  }

  /** Only the first eight bytes decide the format. */
  lemma DetectionReadsOnlyTheHeader(header: seq<Byte>, rest: seq<Byte>)
    requires |header| >= 8
    ensures DetectImageFormat(header + rest) == DetectImageFormat(header)
  {
    var b := header + rest;
    assert b[..3] == header[..3];
    assert b[..8] == header[..8];
  }

  /** `DetermineOutputFormat`: a blank request keeps the input format;
      otherwise the lower-cased, trimmed value must be `jpeg`, `jpg` (read as
      `jpeg`) or `png`. */
  function DetermineOutputFormat(requested: string, input: ImageFormat): (r: Result<ImageFormat, ImageError>)
    ensures IsBlank(requested) ==> r == Success(input)
    ensures !IsBlank(requested) ==>
              (r == Success(Jpeg) <==> Trim(AsciiLower(requested)) in {"jpeg", "jpg"})
    ensures !IsBlank(requested) ==>
              (r == Success(Png) <==> Trim(AsciiLower(requested)) == "png")
    ensures r.Failure? ==> r.error == BadOutputFormat
  {
    if IsBlank(requested) then Success(input)
    else
      var lowered := Trim(AsciiLower(requested));
      var format := if lowered == "jpg" then "jpeg" else lowered;
      if format == "jpeg" then Success(Jpeg)
      else if format == "png" then Success(Png)
      else Failure(BadOutputFormat)
  }

  lemma LowerOfUpper(s: string)
    ensures AsciiLower(AsciiUpper(s)) == AsciiLower(s)
  {
  }

  lemma UpperKeepsBlank(s: string)
    ensures IsBlank(AsciiUpper(s)) <==> IsBlank(s)
  {
    forall i | 0 <= i < |s|
      ensures IsWhiteSpace(AsciiUpper(s)[i]) <==> IsWhiteSpace(s[i])
    {
    }
  }

  /** Lower-case letters are left alone by lower-casing. */
  lemma LowerLettersFixed(l: string)
    requires forall i :: 0 <= i < |l| ==> 'a' <= l[i] <= 'z'
    ensures AsciiLower(l) == l
  {
    var r := AsciiLower(l);
    forall i | 0 <= i < |l|
      ensures r[i] == l[i]
    {
      assert !('A' <= l[i] <= 'Z');
    }
  }

  /** A name of lower-case letters is its own normalised form. */
  lemma LowerLettersNormalised(l: string)
    requires |l| > 0 && forall i :: 0 <= i < |l| ==> 'a' <= l[i] <= 'z'
    ensures !IsBlank(l) && Trim(AsciiLower(l)) == l
  {
    LowerLettersFixed(l);
    LetterNotWhiteSpace(l[0]);
    LetterNotWhiteSpace(l[|l| - 1]);
  }

  lemma LetterNotWhiteSpace(c: char)
    requires 'a' <= c <= 'z'
    ensures !IsWhiteSpace(c)
  {
    assert 0x61 <= c as int <= 0x7A;
  }

  /** The reported label of a format is accepted back as that format. */
  lemma LabelAccepted(f: ImageFormat, input: ImageFormat)
    ensures DetermineOutputFormat(Label(f), input) == Success(f)
  {
    LowerLettersNormalised(Label(f));
  }

  /** The output-format setting is read without regard to ASCII case. */
  lemma OutputFormatIgnoresCase(requested: string, input: ImageFormat)
    ensures DetermineOutputFormat(AsciiUpper(requested), input) == DetermineOutputFormat(requested, input)
  {
    LowerOfUpper(requested);
    UpperKeepsBlank(requested);
  }

  /** The width and height checks of `Resize`, in order: at least one
      dimension, then a positive width, then a positive height. */
  function CheckDimensions(width: Option<int>, height: Option<int>): (r: Option<ImageError>)
    ensures r == None <==>
              (width.Some? || height.Some?)
              && (width.Some? ==> width.value > 0)
              && (height.Some? ==> height.value > 0)
    ensures width.None? && height.None? ==> r == Some(NoDimension)
    ensures width.Some? && width.value <= 0 ==> r == Some(WidthNotPositive)
    ensures (width.None? || width.value > 0) && height.Some? && height.value <= 0 ==> r == Some(HeightNotPositive)
  {
    if width.None? && height.None? then Some(NoDimension)
    else if width.Some? && width.value <= 0 then Some(WidthNotPositive)
    else if height.Some? && height.value <= 0 then Some(HeightNotPositive)
    else None
  }

  /** `DecodeImage` up to the bitmap: blank text, then text that is not
      Base64, then an empty buffer, then an unknown signature, then a buffer
      the bitmap decoder rejects. */
  function DecodeImage(fileContentBase64: string, fromBase64: string -> Option<seq<Byte>>,
                       decodes: seq<Byte> -> bool): (r: Result<ImageFormat, ImageError>)
    ensures IsBlank(fileContentBase64) ==> r == Failure(FileEmpty)
    ensures r.Success? <==>
              && !IsBlank(fileContentBase64)
              && fromBase64(fileContentBase64).Some?
              && |fromBase64(fileContentBase64).value| > 0
              && DetectImageFormat(fromBase64(fileContentBase64).value).Success?
              && decodes(fromBase64(fileContentBase64).value)
    ensures r.Success? ==> r == DetectImageFormat(fromBase64(fileContentBase64).value)
    ensures !IsBlank(fileContentBase64) && fromBase64(fileContentBase64).None? ==> r == Failure(InvalidBase64)
    ensures !IsBlank(fileContentBase64) && fromBase64(fileContentBase64) == Some([]) ==> r == Failure(FileEmpty)
    ensures (!IsBlank(fileContentBase64) && fromBase64(fileContentBase64).Some? && |fromBase64(fileContentBase64).value| > 0
             && DetectImageFormat(fromBase64(fileContentBase64).value).Failure?)
              ==> r == Failure(UnsupportedFormat)
    ensures (!IsBlank(fileContentBase64) && fromBase64(fileContentBase64).Some? && |fromBase64(fileContentBase64).value| > 0
             && DetectImageFormat(fromBase64(fileContentBase64).value).Success?
             && !decodes(fromBase64(fileContentBase64).value))
              ==> r == Failure(Undecodable)
  {
    if IsBlank(fileContentBase64) then Failure(FileEmpty)
    else
      match fromBase64(fileContentBase64)
      case None => Failure(InvalidBase64)
      case Some(bytes) =>
        if |bytes| == 0 then Failure(FileEmpty)
        else
          var format :- DetectImageFormat(bytes);
          if !decodes(bytes) then Failure(Undecodable) else Success(format)
  }

  /** The label `EncodeImage` reports: `png` exactly when asked for `png`,
      `jpeg` for anything else. */
  function EncodedLabel(format: string): (shown: string)
    ensures shown == "png" <==> format == "png"
    ensures shown == "png" || shown == "jpeg"
  {
    if format == "png" then "png" else "jpeg"
  }

  /** Encoding reports the format that was determined. */
  lemma EncodedLabelKeepsFormat(f: ImageFormat)
    ensures EncodedLabel(Label(f)) == Label(f)
  {
  }

  /** `ImageResizeRequest` without the pixel settings. */
  datatype ResizeRequest = ResizeRequest(
    fileContentBase64: string,
    width: Option<int>,
    height: Option<int>,
    outputFormat: string)

  /** `Resize` up to the pixel work: the dimension checks come before the
      image is looked at; then decoding; then the output format, which is
      what the response reports. */
  function Resize(request: ResizeRequest, fromBase64: string -> Option<seq<Byte>>,
                  decodes: seq<Byte> -> bool): (r: Result<string, ImageError>)
    ensures CheckDimensions(request.width, request.height).Some? ==>
              r == Failure(CheckDimensions(request.width, request.height).value)
    ensures CheckDimensions(request.width, request.height).None?
            && DecodeImage(request.fileContentBase64, fromBase64, decodes).Failure? ==>
              r == Failure(DecodeImage(request.fileContentBase64, fromBase64, decodes).error)
    ensures r.Success? ==>
              && DecodeImage(request.fileContentBase64, fromBase64, decodes).Success?
              && var input := DecodeImage(request.fileContentBase64, fromBase64, decodes).value;
                 && DetermineOutputFormat(request.outputFormat, input).Success?
                 && r.value == Label(DetermineOutputFormat(request.outputFormat, input).value)
    ensures r.Success? <==>
              && CheckDimensions(request.width, request.height).None?
              && DecodeImage(request.fileContentBase64, fromBase64, decodes).Success?
              && DetermineOutputFormat(request.outputFormat,
                                       DecodeImage(request.fileContentBase64, fromBase64, decodes).value).Success?
    ensures CheckDimensions(request.width, request.height).None?
            && DecodeImage(request.fileContentBase64, fromBase64, decodes).Success?
            && DetermineOutputFormat(request.outputFormat,
                                     DecodeImage(request.fileContentBase64, fromBase64, decodes).value).Failure? ==>
              r == Failure(BadOutputFormat)
    ensures r.Success? ==> r.value == "jpeg" || r.value == "png"
  {
    match CheckDimensions(request.width, request.height)
    case Some(e) => Failure(e)
    case None =>
      match DecodeImage(request.fileContentBase64, fromBase64, decodes)
      case Failure(e) => Failure(e)
      case Success(input) =>
        match DetermineOutputFormat(request.outputFormat, input)
        case Failure(e) => Failure(e)
        case Success(output) =>
          EncodedLabelKeepsFormat(output);
          Success(EncodedLabel(Label(output)))
  }

  /** `GetInfo`: the decoding chain of `Resize` without the dimension checks;
      the format reported is the detected one. */
  function GetInfo(fileContentBase64: string, fromBase64: string -> Option<seq<Byte>>,
                   decodes: seq<Byte> -> bool): (r: Result<string, ImageError>)
    ensures r.Success? <==> DecodeImage(fileContentBase64, fromBase64, decodes).Success?
    ensures r.Success? ==>
              r.value == Label(DetectImageFormat(fromBase64(fileContentBase64).value).value)
  {
    var format :- DecodeImage(fileContentBase64, fromBase64, decodes);
    Success(Label(format))
  }

  /** With valid dimensions and no output format requested, `Resize` answers
      exactly what `GetInfo` answers for the same file: the same error, or the
      detected format's name. */
  lemma ResizeWithoutFormatIsGetInfo(request: ResizeRequest, fromBase64: string -> Option<seq<Byte>>,
                                     decodes: seq<Byte> -> bool)
    requires CheckDimensions(request.width, request.height).None?
    requires IsBlank(request.outputFormat)
    ensures Resize(request, fromBase64, decodes) == GetInfo(request.fileContentBase64, fromBase64, decodes)
  {
  }
}
