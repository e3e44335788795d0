/** `EncodingDetectionService`: how the source encoding of a file is chosen.
    A byte order mark decides outright; otherwise a statistical detector is
    trusted above confidence 0.8; otherwise well-formed UTF-8 is assumed;
    otherwise Shift_JIS. The detector, the name-to-encoding lookup and the
    transcoding itself are collaborators given as parameters. */
module EncodingDetection {
  import opened Wrappers
  import opened Text
  import opened Utf8

  /** The encoding forms that carry a byte order mark. */
  datatype Bom = Utf32BE | Utf32LE | Utf8Bom | Utf16BE | Utf16LE

  /** The byte serialisation of U+FEFF in each encoding form, as tabulated in
      section 2.6 (Table 2-4) of The Unicode Standard and, for UTF-8, in
      section 6 of RFC 3629. */
  function Signature(b: Bom): seq<Byte> {
    match b
    case Utf32BE => [0x00, 0x00, 0xFE, 0xFF]
    case Utf32LE => [0xFF, 0xFE, 0x00, 0x00]
    case Utf8Bom => [0xEF, 0xBB, 0xBF]
    case Utf16BE => [0xFE, 0xFF]
    case Utf16LE => [0xFF, 0xFE]
  }

  /** The `WebName` of the encoding object chosen for each mark. */
  function BomWebName(b: Bom): string {
    match b
    case Utf32BE => "utf-32BE"
    case Utf32LE => "utf-32"
    case Utf8Bom => "utf-8"
    case Utf16BE => "utf-16BE"
    case Utf16LE => "utf-16"
  }

  /** `DetectEncodingFromBOM`: the marks are tried in the order UTF-32BE,
      UTF-32LE, UTF-8, UTF-16BE, UTF-16LE. The mark found is one the bytes
      start with, none is found only when the bytes start with no mark, and
      where two marks match (FF FE 00 00) the longer one wins. */
  function DetectBom(bytes: seq<Byte>): (r: Option<Bom>)
    ensures |bytes| < 2 ==> r == None
    ensures r.Some? ==> StartsWith(bytes, Signature(r.value))
    ensures r.None? ==> forall b :: !StartsWith(bytes, Signature(b))
    ensures r.Some? ==>
              forall b :: StartsWith(bytes, Signature(b)) ==> |Signature(b)| <= |Signature(r.value)|
  {
    SignatureBytes(bytes);
    if |bytes| < 2 then None
    else if |bytes| >= 4 && bytes[0] == 0x00 && bytes[1] == 0x00 && bytes[2] == 0xFE && bytes[3] == 0xFF then
      Some(Utf32BE)
    else if |bytes| >= 4 && bytes[0] == 0xFF && bytes[1] == 0xFE && bytes[2] == 0x00 && bytes[3] == 0x00 then
      Some(Utf32LE)
    else if |bytes| >= 3 && bytes[0] == 0xEF && bytes[1] == 0xBB && bytes[2] == 0xBF then
      Some(Utf8Bom)
    else if bytes[0] == 0xFE && bytes[1] == 0xFF then
      Some(Utf16BE)
    else if bytes[0] == 0xFF && bytes[1] == 0xFE then
      Some(Utf16LE)
    else
      None
  }

  /** Each mark, byte by byte. */
  lemma SignatureBytes(bytes: seq<Byte>)
    ensures StartsWith(bytes, Signature(Utf32BE)) <==>
              |bytes| >= 4 && bytes[0] == 0x00 && bytes[1] == 0x00 && bytes[2] == 0xFE && bytes[3] == 0xFF
    ensures StartsWith(bytes, Signature(Utf32LE)) <==>
              |bytes| >= 4 && bytes[0] == 0xFF && bytes[1] == 0xFE && bytes[2] == 0x00 && bytes[3] == 0x00
    ensures StartsWith(bytes, Signature(Utf8Bom)) <==>
              |bytes| >= 3 && bytes[0] == 0xEF && bytes[1] == 0xBB && bytes[2] == 0xBF
    ensures StartsWith(bytes, Signature(Utf16BE)) <==> |bytes| >= 2 && bytes[0] == 0xFE && bytes[1] == 0xFF
    ensures StartsWith(bytes, Signature(Utf16LE)) <==> |bytes| >= 2 && bytes[0] == 0xFF && bytes[1] == 0xFE
  {
    StartsWith4(bytes, 0x00, 0x00, 0xFE, 0xFF);
    StartsWith4(bytes, 0xFF, 0xFE, 0x00, 0x00);
    StartsWith3(bytes, 0xEF, 0xBB, 0xBF);
    StartsWith2(bytes, 0xFE, 0xFF);
    StartsWith2(bytes, 0xFF, 0xFE);
  }

  /** What the statistical detector reports after reading the whole buffer. */
  datatype DetectorReading = DetectorReading(charset: Option<string>, confidence: real)

  const DetectorThreshold: real := 0.8
  const Utf8Confidence: real := 0.7
  const FallbackConfidence: real := 0.5

  /** Which step of the fallback chain decided. */
  datatype Step = ByBom(bom: Bom) | ByDetector | ByUtf8Validation | ByDefault

  datatype Detection = Detection(step: Step, webName: string, confidence: real)

  /** `DetectEncoding`. `detector` is the statistical detector; `resolve`
      is `Encoding.GetEncoding` followed by `WebName`, `None` where the
      lookup throws. */
  function DetectEncoding(bytes: seq<Byte>, detector: seq<Byte> -> DetectorReading,
                          resolve: string -> Option<string>): (r: Detection)
    ensures DetectBom(bytes).Some? <==> r.step.ByBom?
    ensures r.step.ByBom? ==>
              r.step.bom == DetectBom(bytes).value && r.webName == BomWebName(r.step.bom) && r.confidence == 1.0
    ensures r.step == ByDetector ==>
              && detector(bytes).charset.Some?
              && detector(bytes).confidence > DetectorThreshold
              && resolve(detector(bytes).charset.value) == Some(r.webName)
              && r.confidence == detector(bytes).confidence
    ensures (DetectBom(bytes).None? && detector(bytes).charset.Some?
             && detector(bytes).confidence > DetectorThreshold
             && resolve(detector(bytes).charset.value).Some?)
              ==> r.step == ByDetector
    ensures r.step == ByUtf8Validation ==>
              IsValidUtf8(bytes) && r.webName == "utf-8" && r.confidence == Utf8Confidence
    ensures r.step == ByDefault ==>
              !IsValidUtf8(bytes) && r.webName == "shift_jis" && r.confidence == FallbackConfidence
    ensures r.confidence >= FallbackConfidence
  {
    match DetectBom(bytes)
    case Some(bom) => Detection(ByBom(bom), BomWebName(bom), 1.0)
    case None =>
      var reading := detector(bytes);
      if reading.charset.Some? && reading.confidence > DetectorThreshold
         && resolve(reading.charset.value).Some? then
        Detection(ByDetector, resolve(reading.charset.value).value, reading.confidence)
      else if IsValidUtf8(bytes) then
        Detection(ByUtf8Validation, "utf-8", Utf8Confidence)
      else
        Detection(ByDefault, "shift_jis", FallbackConfidence)
  }

  /** A byte order mark decides whatever the detector says. */
  lemma BomOverridesDetector(bytes: seq<Byte>, d1: seq<Byte> -> DetectorReading,
                             d2: seq<Byte> -> DetectorReading, resolve: string -> Option<string>)
    requires exists b :: StartsWith(bytes, Signature(b))
    ensures DetectEncoding(bytes, d1, resolve) == DetectEncoding(bytes, d2, resolve)
  {
  }

  /** The detector's answer is taken only when it is confident and names an
      encoding the runtime knows; otherwise the chain goes on to UTF-8
      validation, exactly as if there were no detector. */
  lemma UnusableReadingIgnored(bytes: seq<Byte>, detector: seq<Byte> -> DetectorReading,
                               resolve: string -> Option<string>)
    requires DetectBom(bytes).None?
    requires || detector(bytes).charset.None?
             || detector(bytes).confidence <= DetectorThreshold
             || resolve(detector(bytes).charset.value).None?
    ensures DetectEncoding(bytes, detector, resolve).step ==
              (if IsValidUtf8(bytes) then ByUtf8Validation else ByDefault)
  {
  }

  /** FF FE 00 00 is read as UTF-32LE, never as UTF-16LE followed by a
      NUL character. */
  lemma Utf32LittleEndianFirst(rest: seq<Byte>)
    ensures DetectBom([0xFF, 0xFE, 0x00, 0x00] + rest) == Some(Utf32LE)
  {
  }

  /** Text behind a UTF-8 mark is detected as UTF-8 with full confidence. */
  lemma Utf8BomText(text: seq<Byte>, detector: seq<Byte> -> DetectorReading,
                    resolve: string -> Option<string>)
    ensures DetectEncoding(Signature(Utf8Bom) + text, detector, resolve)
            == Detection(ByBom(Utf8Bom), "utf-8", 1.0)
  {
    var bytes := Signature(Utf8Bom) + text;
    assert bytes[..3] == Signature(Utf8Bom);
    if |bytes| >= 4 {
      assert bytes[0] != 0x00 && bytes[0] != 0xFF;
    }
  }

  /** Non-empty ASCII without a mark, which the detector does not claim, is
      read as UTF-8 at confidence 0.7. */
  lemma AsciiFallsToUtf8(bytes: seq<Byte>, detector: seq<Byte> -> DetectorReading,
                         resolve: string -> Option<string>)
    requires |bytes| > 0 && forall i :: 0 <= i < |bytes| ==> bytes[i] < 0x80
    requires detector(bytes).charset.None? || detector(bytes).confidence <= DetectorThreshold
    ensures DetectEncoding(bytes, detector, resolve) == Detection(ByUtf8Validation, "utf-8", Utf8Confidence)
  {
    if |bytes| >= 2 {
      assert bytes[0] < 0x80;
    }
    AsciiWellFormed(bytes);
    IsValidUtf8Iff(bytes);
  }

  datatype ConvertError = FileEmpty | UnsupportedInput(name: string) | UnsupportedOutput(name: string)

  /** `ConversionResult` without the transcoded bytes. */
  datatype Conversion = Conversion(detectedEncoding: string, outputEncoding: string, confidence: Option<real>)

  /** `Convert`. A null buffer is modelled as the empty one and a null
      input encoding as "", since each is handled like its empty form. An
      input encoding that is not blank is used as given and no confidence is
      reported; a blank one is auto-detected. The output encoding is looked up
      after the input side. */
  function Convert(fileBytes: seq<Byte>, inputEncoding: string, outputEncoding: string,
                   detector: seq<Byte> -> DetectorReading,
                   resolve: string -> Option<string>): (r: Result<Conversion, ConvertError>)
    ensures |fileBytes| == 0 ==> r == Failure(FileEmpty)
    ensures |fileBytes| > 0 && !IsBlank(inputEncoding) && resolve(inputEncoding).None? ==>
              r == Failure(UnsupportedInput(inputEncoding))
    ensures r.Success? <==>
              && |fileBytes| > 0
              && (IsBlank(inputEncoding) || resolve(inputEncoding).Some?)
              && resolve(outputEncoding).Some?
    ensures r.Failure? && r.error.UnsupportedOutput? ==> resolve(outputEncoding).None?
    ensures |fileBytes| > 0 && (IsBlank(inputEncoding) || resolve(inputEncoding).Some?)
            && resolve(outputEncoding).None? ==>
              r == Failure(UnsupportedOutput(outputEncoding))
    ensures r.Success? ==> r.value.outputEncoding == resolve(outputEncoding).value
    ensures r.Success? && !IsBlank(inputEncoding) ==>
              r.value.detectedEncoding == resolve(inputEncoding).value && r.value.confidence == None
    ensures r.Success? && IsBlank(inputEncoding) ==>
              var d := DetectEncoding(fileBytes, detector, resolve);
              r.value.detectedEncoding == d.webName && r.value.confidence == Some(d.confidence)
  {
    if |fileBytes| == 0 then Failure(FileEmpty)
    else
      var source :-
        if !IsBlank(inputEncoding) then
          match resolve(inputEncoding)
          case None => Failure(UnsupportedInput(inputEncoding))
          case Some(name) => Success((name, None))
        else
          var d := DetectEncoding(fileBytes, detector, resolve);
          Success((d.webName, Some(d.confidence)));
      match resolve(outputEncoding)
      case None => Failure(UnsupportedOutput(outputEncoding))
      case Some(target) => Success(Conversion(source.0, target, source.1))
  }
}
