# PowerTools core, modelled in Dafny

PowerTools is a web API of small developer utilities. This project models the
request logic of its core in Dafny and proves properties of it:

- **CSV**: parse and generate. This covers:
  - the quote-aware line splitter and the field tokenizer;
  - the header and row assembly, and the empty-row filter;
  - field escaping and the request checks.
- **Character counter**: code units classified into alphabet, digit, space,
  tab, kanji, hiragana, katakana and other, plus the counting loop.
- **Barcode and QR code**: request validation. This covers:
  - the table of supported symbologies, matched case-insensitively;
  - the output format and error-correction level settings;
  - the per-symbology content checks and the order of the checks.
- **Image resizer**: input handling. This covers:
  - the dimension checks, and the decoding chain from Base64 to a detected format;
  - output-format normalisation and the format label reported.
- **Encoding detection**: in order, a byte order mark, a confident
  statistical detector, strict UTF-8 validity (RFC 3629), then Shift_JIS.
  The convert request's checks are modelled too.
- **Encoding converter**: the null-byte heuristic for binary files, and the
  order of the checks before the detection service is called.
- **Temporary storage**: the service as a state machine on a map from
  access key to stored file, covering size and capacity limits, purging and
  expiry.
- **Regex endpoints**: input validation, the option-flag mapping, group
  naming, and the rule that every endpoint validates before it calls the
  engine.

## Modelling choices

- Operations are pure functions from inputs (and the store before) to a
  `Result` (and the store after).
- A C# `string` is a Dafny `string`, a sequence of Unicode scalar values.
  Where the source measures a length in `char`s, the model measures it in
  UTF-16 code units:
  - `Text.UnitLength` for the CSV delimiter length check;
  - a sequence of code units (`Text.CodeUnit`) for the character counter and
    the regex input limit.
- A CSV row is an association list of keys and optional values. Rows that
  the parser builds never hold a key twice (`CsvDocument.AssignKeepsKeysDistinct`).
  A generate request's rows are taken as given, although a C# dictionary
  cannot hold a key twice. In such a row, a repeated key reads as its first
  occurrence, and in the first row it would be named twice by
  `CsvDocument.ResolveHeaders`.
- A nullable string is a plain string where the source treats null and
  empty alike. It is an `Option` where they differ.
- These collaborators are function parameters:
  - the Base64 codec;
  - the bitmap decoder (`decodes`);
  - the statistical charset detector (`detector`);
  - `Encoding.GetEncoding` followed by `WebName` (`resolve`);
  - the regex engine (`run`);
  - `char.IsDigit` (`isDigit`).
- The storage clock is read once per operation and passed in as `now`, in
  `DateTime` ticks. The random access key is passed in as `key`.
- The CSV splitter toggles its quote state only on `"`. The field tokenizer
  toggles on the request's qualifier. With any qualifier other than `"`, a
  line break inside a quoted field is therefore cut. Both lemmas
  `CsvRoundTrip.OnlyDoubleQuoteProtectsBreaks` and
  `CsvRoundTrip.SingleQuotedBreakIsCut` state this, and the round trip is
  proved for the `"` qualifier.

## Model

| member | source | states |
|---|---|---|
| Text.Trim | PowerTools.Server/Controllers/CsvController.cs:295-309 | trimming removes exactly the leading and trailing white space: the result is a stretch of the input with only white space before and after it, and neither of its ends is white space; it is empty exactly for blank text, and text with no white space at either end is kept |
| Text.UnitLength | PowerTools.Server/Controllers/CsvController.cs:49 | the UTF-16 length of a text is between its length and twice it, zero only for empty text, and one exactly for a single BMP character |
| Text.UnitLengthAppend | PowerTools.Server/Controllers/CsvController.cs:49 | UTF-16 lengths add up over concatenation |
| Text.DecimalStringRoundTrip | PowerTools.Server/Controllers/RegexController.cs:362 | the decimal rendering of a group number reads back as that number |
| Text.DecimalStringInjective | PowerTools.Server/Controllers/RegexController.cs:362 | two numbers with the same decimal rendering are equal |
| CsvLines.SplitKeepsEverythingButSeparators | PowerTools.Server/Controllers/CsvController.cs:214-258 | splitting from any state loses only the line breaks outside quotes: the records, concatenated, are the input minus those breaks |
| CsvLines.SplitLinesKeepsEverythingButSeparators | PowerTools.Server/Controllers/CsvController.cs:214-258 | `SplitLines` keeps every character of the content except the line breaks outside quotes, in order |
| CsvLines.SplitLinesRecordsAreUnbroken | PowerTools.Server/Controllers/CsvController.cs:221-249 | no record holds a line break outside double quotes |
| CsvLines.SplitAtLineEnding | PowerTools.Server/Controllers/CsvController.cs:230-244 | outside quotes, `\r\n` and `\n` each end exactly one record; the `\n` after `\r` does not start an empty one |
| CsvLines.SplitAtLoneCarriageReturn | PowerTools.Server/Controllers/CsvController.cs:230-239 | outside quotes, a `\r` not followed by `\n` ends the record on its own |
| CsvLines.SplitTerminated | PowerTools.Server/Controllers/CsvController.cs:214-258 | lines whose double quotes balance, each followed by a line ending, split back into exactly those lines |
| CsvFields.ParseLine | PowerTools.Server/Controllers/CsvController.cs:260-312 | a record always has at least one field; when the qualifier differs from the delimiter, it has one more field than delimiters outside qualifiers; a line without the qualifier is split at every delimiter; with trimming on, every field is already trimmed |
| CsvFields.ScanCountsSeparators | PowerTools.Server/Controllers/CsvController.cs:260-312 | the tokenizer yields one more field than the delimiters it meets outside qualifiers |
| CsvFields.UnqualifiedRecordSplitsAtEveryDelimiter | PowerTools.Server/Controllers/CsvController.cs:260-312 | a line without the qualifier splits at every delimiter into one more field than it has delimiters |
| CsvFields.JoinSplitAt | PowerTools.Server/Controllers/CsvController.cs:260-312 | re-joining those fields with the delimiter gives back the line |
| CsvFields.QualifierEqualToDelimiterNeverSplits | PowerTools.Server/Controllers/CsvController.cs:271-299 | when the qualifier is the delimiter, the qualifier test wins and a line is always one field |
| CsvFields.UnterminatedQuoteRunsToEnd | PowerTools.Server/Controllers/CsvController.cs:267-311 | an opening qualifier that is never closed makes the rest of the line one field |
| CsvFields.DoubleQualifiers | PowerTools.Server/Controllers/CsvController.cs:383 | doubling adds one character per qualifier in the value; a lone qualifier becomes two and any other character is kept; a value without the qualifier is unchanged |
| CsvFields.DoubleQualifiersAppend | PowerTools.Server/Controllers/CsvController.cs:383 | doubling works character by character: the doubling of a concatenation is the concatenation of the doublings |
| CsvFields.EscapeField | PowerTools.Server/Controllers/CsvController.cs:368-388 | a value without delimiter, qualifier, `\r` or `\n` is written as is; any other is the qualifier, the value with every qualifier doubled, and the qualifier; the output starts with the qualifier exactly when it was quoted |
| CsvFields.ScanEscaped | PowerTools.Server/Controllers/CsvController.cs:260-312 | the tokenizer reads an escaped field back as the original value, stopping at the next delimiter |
| CsvFields.ParseEscapedLine | PowerTools.Server/Controllers/CsvController.cs:260-388 | a line of escaped values joined by the delimiter parses back into exactly those values when the delimiter differs from the qualifier |
| CsvDocument.DefaultParseRequest | PowerTools.Server/Models/CsvModels.cs:8-45 | parse requests default to delimiter `,`, qualifier `"`, a header record, skipping empty rows and trimming |
| CsvDocument.DefaultGenerateRequest | PowerTools.Server/Models/CsvModels.cs:76-113 | generate requests default to delimiter `,`, qualifier `"`, CRLF, writing the header record and plain text |
| CsvDocument.QualifierOf | PowerTools.Server/Controllers/CsvController.cs:139 | an empty qualifier setting means `"`, any other its first character |
| CsvDocument.AssignLookup | PowerTools.Server/Controllers/CsvController.cs:200 | storing a cell makes the key map to it and leaves every other key's cell as it was |
| CsvDocument.AssignKeys | PowerTools.Server/Controllers/CsvController.cs:200 | a new key is appended to the keys, and storing under an old key leaves the keys and their order unchanged |
| CsvDocument.AssignKeepsKeysDistinct | PowerTools.Server/Controllers/CsvController.cs:196-201 | a row never holds a key twice |
| CsvDocument.CellAt | PowerTools.Server/Controllers/CsvController.cs:199-200 | a missing or empty value becomes `null` and any other value is kept |
| CsvDocument.BuildRowCoversHeaders | PowerTools.Server/Controllers/CsvController.cs:194-203 | a row has a cell under exactly the header names |
| CsvDocument.BuildRowLastWriteWins | PowerTools.Server/Controllers/CsvController.cs:194-203 | under a repeated header name the cell of its last column wins |
| CsvDocument.BuildRowKeysInOrder | PowerTools.Server/Controllers/CsvController.cs:194-203 | with distinct headers, the row's keys are the headers in order |
| CsvDocument.BuildRowDistinct | PowerTools.Server/Controllers/CsvController.cs:194-203 | with pairwise distinct headers, the row's keys are the headers in order and header i holds the cell of field i |
| CsvDocument.SurvivingLines | PowerTools.Server/Controllers/CsvController.cs:146-155 | with skipping on, a line survives exactly when it is not blank; with it off, every line does |
| CsvDocument.SurvivingLine | PowerTools.Server/Controllers/CsvController.cs:146-155 | a single line survives exactly when skipping is off or it is not blank |
| CsvDocument.SurvivingLinesAppend | PowerTools.Server/Controllers/CsvController.cs:146-155 | the filter keeps the order of lines: filtering a concatenation is concatenating the filtered parts |
| CsvDocument.MaxWidth | PowerTools.Server/Controllers/CsvController.cs:169 | the column count is the width of the widest record, 0 for none |
| CsvDocument.ColumnNamesDistinct | PowerTools.Server/Controllers/CsvController.cs:187-190 | generated column names differ for different columns |
| CsvDocument.HeadersFrom | PowerTools.Server/Controllers/CsvController.cs:172-183 | with a header record, column i is named by field i of that record, or `Column{i+1}` when the field is missing or empty |
| CsvDocument.GeneratedHeaders | PowerTools.Server/Controllers/CsvController.cs:184-191 | without a header record, the columns are named `Column1` .. `ColumnN`, all distinct |
| CsvDocument.Assemble | PowerTools.Server/Controllers/CsvController.cs:157-210 | no records give an empty document; otherwise there is one header per column, one row per data record (the first record is the header when there is one), and each row is built from its record under the headers |
| CsvDocument.Parse | PowerTools.Server/Controllers/CsvController.cs:32-60 | empty content, then an empty delimiter, then one longer than one UTF-16 unit are rejected, then text that is not Base64; it succeeds exactly otherwise, with the document parsed from the text, or from the decoded text when it is Base64 |
| CsvDocument.SupplementaryDelimiterRejected | PowerTools.Server/Controllers/CsvController.cs:49-52 | a delimiter outside the BMP is two UTF-16 units and is rejected by parse and generate alike |
| CsvDocument.LineEndingOf | PowerTools.Server/Controllers/CsvController.cs:318 | the line ending is `\n` exactly for `lf` in any case, CRLF otherwise |
| CsvDocument.ResolveHeaders | PowerTools.Server/Controllers/CsvController.cs:322-327 | the given headers are used when there are any, otherwise the keys of the first row |
| CsvDocument.ValueFor | PowerTools.Server/Controllers/CsvController.cs:344 | a cell is written as the row's value under the header when there is one, and as empty when the key is missing or its value is null |
| CsvDocument.OutputTable | PowerTools.Server/Controllers/CsvController.cs:330-351 | the output has the header record first when it is wanted and there are headers, then one record per row holding each header's value |
| CsvDocument.GenerateCsv | PowerTools.Server/Controllers/CsvController.cs:314-365 | the response counts the resolved headers as columns and the request rows as rows, and carries the text, Base64-encoded when asked |
| CsvDocument.Generate | PowerTools.Server/Controllers/CsvController.cs:85-108 | no rows, then an empty delimiter, then one longer than one UTF-16 unit are rejected; it succeeds exactly otherwise, with the generated CSV |
| CsvRoundTrip.EscapedLineWellQuoted | PowerTools.Server/Controllers/CsvController.cs:339-388 | every generated line balances its double quotes, so the splitter never cuts it |
| CsvRoundTrip.RecordsOfTable | PowerTools.Server/Controllers/CsvController.cs:136-211 | generated text splits and tokenizes back into the table it was written from |
| CsvRoundTrip.ParseGenerated | PowerTools.Tests/CsvControllerTests.cs:754-788 | parsing generated text with its header record gives back the headers, one row per request row, and under each header the written value, `null` for an empty one |
| CsvRoundTrip.ParseAcceptsGenerated | PowerTools.Server/Controllers/CsvController.cs:32-60 | generated text passes the parse checks |
| CsvRoundTrip.Regenerate | PowerTools.Tests/CsvControllerTests.cs:754-788 | parsing generated text and generating again from the parsed headers and rows gives back the same text |
| CsvRoundTrip.OnlyDoubleQuoteProtectsBreaks | PowerTools.Server/Controllers/CsvController.cs:225 | two pieces without `"` around a line break always become two records, whatever the request's qualifier |
| CsvRoundTrip.SingleQuotedBreakIsCut | PowerTools.Server/Controllers/CsvController.cs:225 | a line break inside `'`-quoted text is cut |
| CharacterCounter.Classify | PowerTools.Server/Controllers/CharacterCounterController.cs:64-147 | each code unit falls in exactly one category, the first of the alphabet, digit, space, tab, kanji, hiragana and katakana tests it passes, and other when it passes none |
| CharacterCounter.Bump | PowerTools.Server/Controllers/CharacterCounterController.cs:66-98 | counting one code unit raises its own category by one and no other |
| CharacterCounter.CountCharacterTypes | PowerTools.Server/Controllers/CharacterCounterController.cs:59-103 | the total is the input length, each category holds the number of code units in it, and the categories sum to the total |
| CharacterCounter.Count | PowerTools.Server/Controllers/CharacterCounterController.cs:37-54 | a null input, then one longer than 1 MiB code units, is rejected; any other is counted |
| CharacterCounter.OccurrencesPartition | PowerTools.Server/Controllers/CharacterCounterController.cs:64-100 | the categories partition the input |
| CharacterCounter.OccurrencesAppend | PowerTools.Server/Controllers/CharacterCounterController.cs:64-100 | counts add up over concatenation |
| CharacterCounter.UniformInput | PowerTools.Server/Controllers/CharacterCounterController.cs:64-100 | an input of one category counts entirely in that category |
| CharacterCounter.SupplementaryCountsTwiceAsOther | PowerTools.Server/Controllers/CharacterCounterController.cs:62-100 | a character outside the BMP counts as two others, being two surrogate code units |
| Barcode.NameUpper | PowerTools.Server/Controllers/BarcodeController.cs:20-29 | each table name upper-cases to the form it is compared under |
| Barcode.LookupType | PowerTools.Server/Controllers/BarcodeController.cs:155-159 | a type name is found exactly when it equals a table name ignoring case, and then it names that symbology |
| Barcode.LookupTypeExact | PowerTools.Server/Controllers/BarcodeController.cs:20-29 | lookup agrees with case-insensitive equality on the names and finds every supported name |
| Barcode.LookupTypeIgnoresCase | PowerTools.Server/Controllers/BarcodeController.cs:155-159 | lower-casing a type name does not change the lookup |
| Barcode.OutputFormat | PowerTools.Server/Controllers/BarcodeController.cs:160-165 | no format means PNG; a given one is PNG or SVG exactly when it lower-cases to `png` or `svg`, and rejected otherwise |
| Barcode.ParseErrorCorrectionLevel | PowerTools.Server/Controllers/BarcodeController.cs:238-250 | null or empty means M; any other setting names the level it upper-cases to, or none |
| Barcode.LevelNamesParse | PowerTools.Server/Controllers/BarcodeController.cs:238-250 | each level parses from its own name in upper or lower case |
| Barcode.CheckDigitNotVerified | PowerTools.Server/Controllers/BarcodeController.cs:264-276 | thirteen EAN-13 digits are accepted whatever the last digit, including one that is not the GS1 check digit |
| Barcode.GenerateBarcode | PowerTools.Server/Controllers/BarcodeController.cs:137-190 | blank content, then a blank type, an unknown type, a bad format and invalid content are rejected in that order; a valid request renders the found symbology at the requested size with margin 5, the text hidden exactly when `showText` is off |
| Barcode.FoundTypeIsNotBlank | PowerTools.Server/Controllers/BarcodeController.cs:150-159 | a type that is found was not blank |
| Barcode.GenerateQrCode | PowerTools.Server/Controllers/BarcodeController.cs:47-88 | blank content, then a bad format, then an unknown error-correction level are rejected; a valid request renders a square of the requested size with margin 1 at the parsed level |
| Image.DetectImageFormat | PowerTools.Server/Controllers/ImageController.cs:190-216 | the format is JPEG exactly when the bytes start FF D8 FF, PNG exactly when they start with the PNG signature, and unsupported otherwise |
| Image.SignaturesExclusive | PowerTools.Server/Controllers/ImageController.cs:190-216 | no buffer starts with both signatures, so the order of the tests does not matter |
| Image.DetectionReadsOnlyTheHeader | PowerTools.Server/Controllers/ImageController.cs:190-216 | bytes after the first eight do not change the format detected |
| Image.DetermineOutputFormat | PowerTools.Server/Controllers/ImageController.cs:218-237 | a blank request keeps the input format; otherwise the trimmed, lower-cased request gives JPEG exactly for `jpeg` or `jpg`, PNG exactly for `png`, and is rejected otherwise |
| Image.LabelAccepted | PowerTools.Server/Controllers/ImageController.cs:218-237 | a reported format name is accepted as the request for that format |
| Image.OutputFormatIgnoresCase | PowerTools.Server/Controllers/ImageController.cs:218-237 | upper-casing the requested format does not change the result |
| Image.CheckDimensions | PowerTools.Server/Controllers/ImageController.cs:40-53 | the dimensions pass exactly when at least one is given and every given one is positive; a missing pair, then a bad width, then a bad height is reported |
| Image.DecodeImage | PowerTools.Server/Controllers/ImageController.cs:151-188 | blank text is rejected as empty, then text that is not Base64, then an empty buffer as empty, then an unknown signature as unsupported, then a buffer the bitmap decoder refuses; decoding succeeds exactly when it passes all of these, with the detected format |
| Image.EncodedLabel | PowerTools.Server/Controllers/ImageController.cs:300-314 | the label is `png` exactly when PNG was asked for, and `jpeg` otherwise |
| Image.Resize | PowerTools.Server/Controllers/ImageController.cs:32-111 | the dimension checks come before the image is looked at, then the decoding errors, then a bad output format; it succeeds exactly when all three pass, and then reports the determined output format |
| Image.ResizeWithoutFormatIsGetInfo | PowerTools.Server/Controllers/ImageController.cs:32-149 | with valid dimensions and no output format, resizing answers what the information endpoint answers for the same file |
| Image.GetInfo | PowerTools.Server/Controllers/ImageController.cs:113-149 | information succeeds exactly when decoding does, and reports the detected format |
| Utf8.CharLength | PowerTools.Server/Services/EncodingDetectionService.cs:161-175 | a character is at most four bytes and an ASCII byte is one |
| Utf8.EncodeCharDecodes | PowerTools.Server/Services/EncodingDetectionService.cs:161-175 | the encoding of a scalar value is one well-formed character that decodes back to it |
| Utf8.DecodeEncode | PowerTools.Server/Services/EncodingDetectionService.cs:161-175 | encoded scalar values are well-formed and decode back to themselves |
| Utf8.DecodeCharEncodes | PowerTools.Server/Services/EncodingDetectionService.cs:161-175 | a well-formed character is the shortest encoding of its value: there are no overlong forms |
| Utf8.EncodeDecode | PowerTools.Server/Services/EncodingDetectionService.cs:161-175 | well-formed bytes re-encode from their decoded text to themselves |
| Utf8.IsValidUtf8Iff | PowerTools.Server/Services/EncodingDetectionService.cs:161-175 | the strict decoder's positive char count holds exactly for non-empty well-formed UTF-8 |
| Utf8.AsciiWellFormed | PowerTools.Server/Services/EncodingDetectionService.cs:161-175 | ASCII is well-formed UTF-8 |
| Utf8.NeverAppearingBytes | PowerTools.Server/Services/EncodingDetectionService.cs:161-175 | C0, C1 and F5..FF never occur in well-formed UTF-8 |
| EncodingDetection.DetectBom | PowerTools.Server/Services/EncodingDetectionService.cs:130-156 | a mark found is one the bytes start with, none is found only when they start with none, and the longest matching mark wins |
| EncodingDetection.DetectEncoding | PowerTools.Server/Services/EncodingDetectionService.cs:81-125 | a mark decides with confidence 1; otherwise a charset the runtime knows, read above 0.8 by the detector, always wins, then valid UTF-8 at 0.7, then Shift_JIS at 0.5; confidence is never below 0.5 |
| EncodingDetection.UnusableReadingIgnored | PowerTools.Server/Services/EncodingDetectionService.cs:96-116 | a detector reading that is missing, not above 0.8 or unknown to the runtime falls through to UTF-8 validation |
| EncodingDetection.Utf32LittleEndianFirst | PowerTools.Server/Services/EncodingDetectionService.cs:130-156 | FF FE 00 00 is read as UTF-32LE, not as UTF-16LE |
| EncodingDetection.Utf8BomText | PowerTools.Server/Services/EncodingDetectionService.cs:83-89 | text behind EF BB BF is UTF-8 with full confidence |
| EncodingDetection.AsciiFallsToUtf8 | PowerTools.Server/Services/EncodingDetectionService.cs:81-125 | non-empty ASCII that the detector does not claim is UTF-8 at 0.7 |
| EncodingDetection.Convert | PowerTools.Server/Services/EncodingDetectionService.cs:21-76 | an empty file is rejected, then an unknown input encoding, then an unknown output one, which is rejected whenever the file and input encoding pass; a given input encoding is used without confidence, a blank one is detected with its confidence |
| EncodingConverter.SampleSize | PowerTools.Server/Controllers/EncodingConverterController.cs:137 | the sample is the whole file up to 8192 bytes and its first 8192 bytes after |
| EncodingConverter.NullRatioExact | PowerTools.Server/Controllers/EncodingConverterController.cs:135-148 | the floating-point ratio test is the integer test 20 * zeros > sample size |
| EncodingConverter.IsBinaryFile | PowerTools.Server/Controllers/EncodingConverterController.cs:135-148 | a file is binary exactly when more than one byte in twenty of its sample is zero |
| EncodingConverter.OnlyTheSampleCounts | PowerTools.Server/Controllers/EncodingConverterController.cs:135-148 | bytes after the first 8192 never change the verdict |
| EncodingConverter.NoZerosNotBinary | PowerTools.Server/Controllers/EncodingConverterController.cs:135-148 | a file without zero bytes is not binary |
| EncodingConverter.SixHundredZerosInAThousand | PowerTools.Tests/EncodingConverterControllerTests.cs:183-205 | a 1000-byte file starting with 600 zero bytes is binary |
| EncodingConverter.ConvertEncoding | PowerTools.Server/Controllers/EncodingConverterController.cs:39-97 | text that is not Base64 is rejected, then an empty file, then a binary one; only then is the service asked, and its errors are passed on |
| EncodingConverter.ServiceNeverSeesEmpty | PowerTools.Server/Controllers/EncodingConverterController.cs:57-69 | the service's empty-file error cannot arise from the controller |
| Storage.Purge | PowerTools.Server/Services/StorageService.cs:163-184 | cleanup removes exactly the expired entries and keeps the rest unchanged |
| Storage.StoreFile | PowerTools.Server/Services/StorageService.cs:42-91 | empty content, then too-large content are rejected; a full store is purged and the request is rejected if the store is still full; an out-of-range expiry and a taken key are rejected, and a rejection after the size checks leaves the store as purged; on success exactly the new entry is added, with the given name, the size, and an expiry ttl minutes after now |
| Storage.GetFile | PowerTools.Server/Services/StorageService.cs:98-120 | a blank key is rejected; a file is returned exactly when it is present and not past its expiry; an expired entry is removed and nothing else changes, and every other read leaves the store as it was |
| Storage.DeleteFile | PowerTools.Server/Services/StorageService.cs:127-142 | a blank key is rejected; otherwise the key is gone afterwards, the answer is whether it was there, and nothing else changes |
| Storage.PurgeKeepsValid | PowerTools.Server/Services/StorageService.cs:163-184 | cleanup keeps the store within its limits |
| Storage.StoreKeepsValid | PowerTools.Server/Services/StorageService.cs:42-91 | storing never takes the store past 1000 entries, 10 MiB per entry or a mis-keyed entry |
| Storage.GetKeepsValid | PowerTools.Server/Services/StorageService.cs:98-120 | reading keeps the store within its limits |
| Storage.DeleteKeepsValid | PowerTools.Server/Services/StorageService.cs:127-142 | deleting keeps the store within its limits |
| Storage.StoreThenGet | PowerTools.Tests/StorageControllerTests.cs:407-442 | a stored file reads back unchanged up to and including its expiry and is missing after it |
| Storage.DeleteThenGet | PowerTools.Tests/StorageControllerTests.cs:346-400 | after a delete the key reads as missing and a second delete answers false |
| Storage.ExpiryIsInclusive | PowerTools.Server/Services/StorageService.cs:111-116 | a read at the expiry tick succeeds and one tick later removes the entry |
| Storage.RoomMeansNoPurge | PowerTools.Server/Services/StorageService.cs:54-63 | a store with room keeps every other entry, expired or not |
| RegexRequests.ValidateInput | PowerTools.Server/Controllers/RegexController.cs:299-317 | an empty pattern, then a null input, then one longer than 1 MiB code units is rejected; anything else passes |
| RegexRequests.LengthLimitInclusive | PowerTools.Server/Controllers/RegexController.cs:311-314 | an input of exactly 1 MiB code units passes and one more does not |
| RegexRequests.ConvertOptions | PowerTools.Server/Controllers/RegexController.cs:322-347 | no options give no flags; each flag is set exactly when its switch is on, and no other bit is set |
| RegexRequests.ConvertOptionsRoundTrip | PowerTools.Server/Controllers/RegexController.cs:322-347 | the switches can be read back from the options value |
| RegexRequests.ConvertGroups | PowerTools.Server/Controllers/RegexController.cs:352-372 | one entry per group in order, carrying its value, success, index and length, named by the engine's name or else its number |
| RegexRequests.NumberedNamesDistinct | PowerTools.Server/Controllers/RegexController.cs:352-372 | groups named by number never share a name |
| RegexRequests.Endpoint | PowerTools.Server/Controllers/RegexController.cs:41-99 | an invalid request is answered with the validation error; otherwise the engine's result is passed on, and a rejected pattern or a timeout becomes its own error |
| RegexRequests.ValidationBeforeEngine | PowerTools.Server/Controllers/RegexController.cs:45-55 | an invalid request never reaches the engine: any two engines give the same answer |

## Left out

- Base64 encoding and decoding, the bitmap decoder and the UTF-8 text
  decoding of CSV content are parameters; their own behaviour is not
  modelled.
- HTTP plumbing, logging, exception-to-status mapping and the
  `GetSupportedEncodings` and `GetSupportedTypes` listings beyond the type
  table are not modelled.
- Excel import and export (`ExcelController`) is not part of this model.
- Barcode and QR rendering (ZXing, SkiaSharp, `GenerateSvgFromBitmap`)
  is not modelled. The plan handed to the writer is the last thing modelled.
- Image pixel work (`CalculateTargetDimensions`, `ResizeImage`, quality
  settings, the encoded bytes) is not modelled. `Image.Resize` stops at the
  format it reports.
- Transcoding (`GetString`/`GetBytes`), the converted bytes and their size
  are not modelled, since they belong to the runtime's encoders.
  `EncodingDetection.Convert` returns the names and confidence only.
- The statistical charset detector is a parameter. The encodings the runtime
  knows (`Encoding.GetEncoding` with the code-pages provider registered at
  start-up, so Shift_JIS is always available) are the parameter `resolve`.
- The regex engine, its 3-second match timeout and the result shapes of
  `Match`, `Matches`, `Replace` and `Split` are not modelled. The engine is
  the parameter `run`. The `Replacement ?? ""` default of `Replace` is
  part of what `run` receives.
- Concurrency of the storage dictionary, the five-minute cleanup timer and
  random access-key generation are not modelled. The key and the clock are
  parameters.
- Storage.StoreFile: reads the clock once per call. The source reads it
  again after a purge, so its expiry can be a few ticks later than the model's.
- The model attribute validation of request classes (`[Required]`,
  `[Range(1, 1440)]` on the time-to-live, string lengths) runs before the
  controllers. It is not modelled. `Storage.StoreFile` accepts any integer
  time-to-live and fails only outside the `DateTime` range.
- Generation stringifies values with `ToString()`. That is not modelled:
  row values are optional strings.
- CsvDocument.QualifierOf: a qualifier whose first character lies above
  U+FFFF is taken whole. The source takes its first UTF-16 unit, a high
  surrogate (CsvController.cs:139, :317), which a Dafny `char` cannot hold.
- Barcode.LookupType: uses ASCII-only case mapping. `OrdinalIgnoreCase` and
  `ToUpperInvariant`/`ToLowerInvariant` also map some non-ASCII letters, and
  those mappings are not modelled.
- `char.IsDigit` (Unicode decimal digits) is the parameter `isDigit` of the
  barcode content checks.
