/** Request validation of the barcode and QR code generator
    (`BarcodeController`): the table of supported symbologies, the output
    format and error-correction settings, the per-symbology content checks and
    the order in which the checks of a request are made. What passes is the
    rendering plan handed to the barcode writer; rendering itself is not part
    of this model. */
module Barcode {
  import opened Wrappers
  import opened Text

  datatype Symbology = Code128 | Code39 | Ean13 | Ean8 | UpcA | Itf | Codabar

  /** The key of the symbology in `SupportedBarcodeTypes`. */
  function Name(s: Symbology): string {
    match s
    case Code128 => "Code128"
    case Code39 => "Code39"
    case Ean13 => "EAN13"
    case Ean8 => "EAN8"
    case UpcA => "UPC_A"
    case Itf => "ITF"
    case Codabar => "Codabar"
  }

  /** `GetSupportedTypes`: the keys of the table in insertion order. */
  const SupportedTypes: seq<string> :=
    ["Code128", "Code39", "EAN13", "EAN8", "UPC_A", "ITF", "Codabar"]

  /** The upper-case form of a name, under which `OrdinalIgnoreCase`
      compares it. */
  function UpperName(s: Symbology): string {
    match s
    case Code128 => "CODE128"
    case Code39 => "CODE39"
    case Ean13 => "EAN13"
    case Ean8 => "EAN8"
    case UpcA => "UPC_A"
    case Itf => "ITF"
    case Codabar => "CODABAR"
  }

  lemma NameUpper(s: Symbology)
    ensures AsciiUpper(Name(s)) == UpperName(s)
  {
    var u := AsciiUpper(Name(s));
    assert forall i :: 0 <= i < |u| ==> u[i] == AsciiUpperChar(Name(s)[i]);
  }

  /** `SupportedBarcodeTypes.TryGetValue` with `OrdinalIgnoreCase` keys. */
  function LookupType(name: string): (r: Option<Symbology>)
    ensures forall s :: r == Some(s) <==> AsciiUpper(name) == UpperName(s)
  {
    var u := AsciiUpper(name);
    if u == "CODE128" then Some(Code128)
    else if u == "CODE39" then Some(Code39)
    else if u == "EAN13" then Some(Ean13)
    else if u == "EAN8" then Some(Ean8)
    else if u == "UPC_A" then Some(UpcA)
    else if u == "ITF" then Some(Itf)
    else if u == "CODABAR" then Some(Codabar)
    else None
  }

  /** The table is exactly the seven symbologies, listed once each: a name is
      found exactly when it equals, ignoring case, the name of a symbology,
      which is then the one found; every listed name is found. */
  lemma LookupTypeExact(name: string)
    ensures forall s :: LookupType(name) == Some(s) <==> EqualsIgnoreCase(name, Name(s))
    ensures LookupType(name).None? <==> forall s :: !EqualsIgnoreCase(name, Name(s))
    ensures forall i :: 0 <= i < |SupportedTypes| ==> LookupType(SupportedTypes[i]).Some?
  {
    forall s
      ensures LookupType(name) == Some(s) <==> EqualsIgnoreCase(name, Name(s))
    {
      NameUpper(s);
    }
    forall i | 0 <= i < |SupportedTypes|
      ensures LookupType(SupportedTypes[i]).Some?
    {
      var s := [Code128, Code39, Ean13, Ean8, UpcA, Itf, Codabar][i];
      assert SupportedTypes[i] == Name(s);
      NameUpper(s);
    }
  }

  /** Upper-casing after lower-casing is upper-casing. */
  lemma UpperOfLower(s: string)
    ensures AsciiUpper(AsciiLower(s)) == AsciiUpper(s)
  {
  }

  /** The lookup does not see case: a name and its lower-case form find the
      same symbology. */
  lemma LookupTypeIgnoresCase(name: string)
    ensures LookupType(AsciiLower(name)) == LookupType(name)
  {
    UpperOfLower(name);
  }

  /** The image format of the response: `svg` or the default `png`. */
  datatype ImageFormat = Png | Svg

  /** `request.Format?.ToLowerInvariant() ?? "png"`, accepted only when it is
      `png` or `svg`. */
  function OutputFormat(format: Option<string>): (r: Option<ImageFormat>)
    ensures format.None? ==> r == Some(Png)
    ensures format.Some? ==> (r == Some(Png) <==> AsciiLower(format.value) == "png")
    ensures format.Some? ==> (r == Some(Svg) <==> AsciiLower(format.value) == "svg")
  {
    match format
    case None => Some(Png)
    case Some(f) =>
      var lower := AsciiLower(f);
      if lower == "png" then Some(Png) else if lower == "svg" then Some(Svg) else None
  }

  datatype ErrorCorrectionLevel = L | M | Q | H

  function LevelName(level: ErrorCorrectionLevel): string {
    match level
    case L => "L"
    case M => "M"
    case Q => "Q"
    case H => "H"
  }

  /** `ParseErrorCorrectionLevel`: the upper-cased setting names a level;
      null and "" both mean M; anything else is no level. */
  function ParseErrorCorrectionLevel(level: Option<string>): (r: Option<ErrorCorrectionLevel>)
    ensures level.None? || level == Some("") ==> r == Some(M)
    ensures level.Some? && level.value != "" ==>
              forall e :: r == Some(e) <==> AsciiUpper(level.value) == LevelName(e)
  {
    match level
    case None => Some(M)
    case Some(v) =>
      var upper := AsciiUpper(v);
      if upper == "L" then Some(L)
      else if upper == "M" then Some(M)
      else if upper == "Q" then Some(Q)
      else if upper == "H" then Some(H)
      else if upper == "" then Some(M)
      else None
  }

  /** Every level is accepted under its own name in either case. */
  lemma LevelNamesParse(e: ErrorCorrectionLevel)
    ensures ParseErrorCorrectionLevel(Some(LevelName(e))) == Some(e)
    ensures ParseErrorCorrectionLevel(Some(AsciiLower(LevelName(e)))) == Some(e)
  {
    UpperOfLower(LevelName(e));
  }

  // ------------------------------------------------------------- content

  datatype ContentError = WrongLength(symbology: Symbology) | NotAllDigits(symbology: Symbology)

  /** `content.All(char.IsDigit)`; `isDigit` is `char.IsDigit`, whose Unicode
      digit set is not part of this model. */
  predicate AllDigits(content: seq<CodeUnit>, isDigit: CodeUnit -> bool) {
    forall i :: 0 <= i < |content| ==> isDigit(content[i])
  }

  function ValidateEan13(content: seq<CodeUnit>, isDigit: CodeUnit -> bool): Option<ContentError> {
    if |content| != 12 && |content| != 13 then Some(WrongLength(Ean13))
    else if !AllDigits(content, isDigit) then Some(NotAllDigits(Ean13))
    else None
  }

  function ValidateEan8(content: seq<CodeUnit>, isDigit: CodeUnit -> bool): Option<ContentError> {
    if |content| != 7 && |content| != 8 then Some(WrongLength(Ean8))
    else if !AllDigits(content, isDigit) then Some(NotAllDigits(Ean8))
    else None
  }

  function ValidateUpcA(content: seq<CodeUnit>, isDigit: CodeUnit -> bool): Option<ContentError> {
    if |content| != 11 && |content| != 12 then Some(WrongLength(UpcA))
    else if !AllDigits(content, isDigit) then Some(NotAllDigits(UpcA))
    else None
  }

  function ValidateItf(content: seq<CodeUnit>, isDigit: CodeUnit -> bool): Option<ContentError> {
    if |content| % 2 != 0 then Some(WrongLength(Itf))
    else if !AllDigits(content, isDigit) then Some(NotAllDigits(Itf))
    else None
  }

  /** `ValidateBarcodeContent`: the length check of the numeric symbologies,
      then their digit check; Code 128, Code 39 and Codabar take any content. */
  function ValidateBarcodeContent(content: seq<CodeUnit>, s: Symbology, isDigit: CodeUnit -> bool): Option<ContentError> {
    match s
    case Ean13 => ValidateEan13(content, isDigit)
    case Ean8 => ValidateEan8(content, isDigit)
    case UpcA => ValidateUpcA(content, isDigit)
    case Itf => ValidateItf(content, isDigit)
    case _ => None
  }

  /** The lengths a symbology accepts. */
  predicate LengthAllowed(s: Symbology, n: nat) {
    match s
    case Ean13 => n == 12 || n == 13
    case Ean8 => n == 7 || n == 8
    case UpcA => n == 11 || n == 12
    case Itf => n % 2 == 0
    case _ => true
  }

  predicate IsNumeric(s: Symbology) {
    s == Ean13 || s == Ean8 || s == UpcA || s == Itf
  }

  /** Content is accepted exactly when its length is allowed and, for a
      numeric symbology, it is all digits; a wrong length is reported in
      preference to a non-digit, and every error names the symbology. */
  lemma ValidateBarcodeContentSpec(content: seq<CodeUnit>, s: Symbology, isDigit: CodeUnit -> bool)
    ensures var r := ValidateBarcodeContent(content, s, isDigit);
      && (r.None? <==> LengthAllowed(s, |content|) && (IsNumeric(s) ==> AllDigits(content, isDigit)))
      && (!LengthAllowed(s, |content|) ==> r == Some(WrongLength(s)))
      && (LengthAllowed(s, |content|) && IsNumeric(s) && !AllDigits(content, isDigit) ==> r == Some(NotAllDigits(s)))
      && (!IsNumeric(s) ==> r.None?)
  {
  }

  /** A decimal digit as a UTF-16 code unit. */
  predicate IsAsciiDigit(u: CodeUnit) {
    '0' as int <= u <= '9' as int
  }

  /** The weighted digit sum of the first `n` digits: weights 1 and 3
      alternating from the left, as GS1 prescribes for EAN-13. */
  function WeightedSum(digits: seq<CodeUnit>, n: nat): nat
    requires n <= |digits|
    requires forall i :: 0 <= i < |digits| ==> IsAsciiDigit(digits[i])
  {
    if n == 0 then 0
    else WeightedSum(digits, n - 1) + (if (n - 1) % 2 == 0 then 1 else 3) * (digits[n - 1] - '0' as int)
  }

  /** The GS1 check digit that completes twelve EAN-13 digits. */
  function Ean13CheckDigit(twelve: seq<CodeUnit>): nat
    requires |twelve| == 12
    requires forall i :: 0 <= i < 12 ==> IsAsciiDigit(twelve[i])
  {
    (10 - WeightedSum(twelve, 12) % 10) % 10
  }

  /** The check digit is not verified: after any twelve digits, every
      thirteenth digit is accepted for EAN-13, and in particular one that is
      not the check digit. */
  lemma CheckDigitNotVerified(twelve: seq<CodeUnit>, last: CodeUnit, isDigit: CodeUnit -> bool)
    requires |twelve| == 12
    requires forall i :: 0 <= i < 12 ==> IsAsciiDigit(twelve[i])
    requires IsAsciiDigit(last)
    requires forall u :: IsAsciiDigit(u) ==> isDigit(u)
    ensures ValidateBarcodeContent(twelve + [last], Ean13, isDigit).None?
    ensures var wrong := '0' as int + (Ean13CheckDigit(twelve) + 1) % 10;
      && wrong - '0' as int != Ean13CheckDigit(twelve)
      && ValidateBarcodeContent(twelve + [wrong], Ean13, isDigit).None?
  {
    var content := twelve + [last];
    assert forall i :: 0 <= i < 13 ==> IsAsciiDigit(content[i]);
    var wrong := '0' as int + (Ean13CheckDigit(twelve) + 1) % 10;
    var other := twelve + [wrong];
    assert forall i :: 0 <= i < 13 ==> IsAsciiDigit(other[i]);
  }

  // ------------------------------------------------------------ requests

  /** `BarcodeRequest`; `content` as UTF-16 code units, a null type as "". */
  datatype BarcodeRequest = BarcodeRequest(
    content: seq<CodeUnit>,
    barcodeType: string,
    width: int,
    height: int,
    format: Option<string>,
    showText: bool)

  /** `QrCodeRequest`. */
  datatype QrCodeRequest = QrCodeRequest(
    content: seq<CodeUnit>,
    size: int,
    format: Option<string>,
    errorCorrectionLevel: Option<string>)

  /** What the writer is asked to render. */
  datatype BarcodePlan = BarcodePlan(
    symbology: Symbology,
    format: ImageFormat,
    width: int,
    height: int,
    margin: nat,
    pureBarcode: bool)

  datatype QrCodePlan = QrCodePlan(
    format: ImageFormat,
    errorCorrection: ErrorCorrectionLevel,
    width: int,
    height: int,
    margin: nat)

  datatype BarcodeError =
    | ContentEmpty
    | BarcodeTypeRequired
    | UnsupportedType
    | FormatNotPngOrSvg
    | InvalidContent(reason: ContentError)
    | InvalidErrorCorrectionLevel

  /** `GenerateBarcode` up to rendering: blank content, blank type, unknown
      type, bad format, then content validation, the first failure reported;
      the plan renders the requested size with margin 5, the text shown
      unless `showText` is false. */
  function GenerateBarcode(request: BarcodeRequest, isDigit: CodeUnit -> bool): (r: Result<BarcodePlan, BarcodeError>)
    ensures IsBlankUnits(request.content) ==> r == Failure(ContentEmpty)
    ensures !IsBlankUnits(request.content) && IsBlank(request.barcodeType) ==> r == Failure(BarcodeTypeRequired)
    ensures (!IsBlankUnits(request.content) && !IsBlank(request.barcodeType) && LookupType(request.barcodeType).None?)
              ==> r == Failure(UnsupportedType)
    ensures (!IsBlankUnits(request.content) && LookupType(request.barcodeType).Some? && OutputFormat(request.format).None?)
              ==> r == Failure(FormatNotPngOrSvg)
    ensures r.Success? <==>
              && !IsBlankUnits(request.content)
              && LookupType(request.barcodeType).Some?
              && OutputFormat(request.format).Some?
              && ValidateBarcodeContent(request.content, LookupType(request.barcodeType).value, isDigit).None?
    ensures (!IsBlankUnits(request.content) && LookupType(request.barcodeType).Some? && OutputFormat(request.format).Some?
             && ValidateBarcodeContent(request.content, LookupType(request.barcodeType).value, isDigit).Some?)
              ==> r == Failure(InvalidContent(ValidateBarcodeContent(request.content, LookupType(request.barcodeType).value, isDigit).value))
    ensures r.Failure? && r.error.InvalidContent? ==>
              r.error.reason == ValidateBarcodeContent(request.content, LookupType(request.barcodeType).value, isDigit).value
    ensures r.Success? ==>
              && r.value.symbology == LookupType(request.barcodeType).value
              && r.value.format == OutputFormat(request.format).value
              && r.value.width == request.width && r.value.height == request.height
              && r.value.margin == 5
              && r.value.pureBarcode == !request.showText
  {
    if IsBlankUnits(request.content) then Failure(ContentEmpty)
    else if IsBlank(request.barcodeType) then Failure(BarcodeTypeRequired)
    else
      match LookupType(request.barcodeType)
      case None => Failure(UnsupportedType)
      case Some(symbology) =>
        match OutputFormat(request.format)
        case None => Failure(FormatNotPngOrSvg)
        case Some(format) =>
          match ValidateBarcodeContent(request.content, symbology, isDigit)
          case Some(reason) => Failure(InvalidContent(reason))
          case None => Success(BarcodePlan(symbology, format, request.width, request.height, 5, !request.showText))
  }

  /** A name of the table is never blank, so a found type passed the blank
      check. */
  lemma FoundTypeIsNotBlank(name: string)
    requires LookupType(name).Some?
    ensures !IsBlank(name)
  {
    var s := LookupType(name).value;
    assert AsciiUpper(name) == UpperName(s);
    assert !IsWhiteSpace(UpperName(s)[0]);
    assert AsciiUpper(name)[0] == AsciiUpperChar(name[0]);
  }

  /** `GenerateQrCode` up to rendering: blank content, then bad format, then
      an unknown error-correction level; the plan is a square of the requested
      size with margin 1. */
  function GenerateQrCode(request: QrCodeRequest): (r: Result<QrCodePlan, BarcodeError>)
    ensures IsBlankUnits(request.content) ==> r == Failure(ContentEmpty)
    ensures !IsBlankUnits(request.content) && OutputFormat(request.format).None? ==> r == Failure(FormatNotPngOrSvg)
    ensures (!IsBlankUnits(request.content) && OutputFormat(request.format).Some?
               && ParseErrorCorrectionLevel(request.errorCorrectionLevel).None?)
              ==> r == Failure(InvalidErrorCorrectionLevel)
    ensures r.Success? <==>
              !IsBlankUnits(request.content) && OutputFormat(request.format).Some?
              && ParseErrorCorrectionLevel(request.errorCorrectionLevel).Some?
    ensures r.Success? ==>
              && r.value.format == OutputFormat(request.format).value
              && r.value.errorCorrection == ParseErrorCorrectionLevel(request.errorCorrectionLevel).value
              && r.value.width == request.size && r.value.height == request.size
              && r.value.margin == 1
  {
    if IsBlankUnits(request.content) then Failure(ContentEmpty)
    else
      match OutputFormat(request.format)
      case None => Failure(FormatNotPngOrSvg)
      case Some(format) =>
        match ParseErrorCorrectionLevel(request.errorCorrectionLevel)
        case None => Failure(InvalidErrorCorrectionLevel)
        case Some(level) => Success(QrCodePlan(format, level, request.size, request.size, 1))
  }
}
