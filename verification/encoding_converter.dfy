/** `EncodingConverterController.ConvertEncoding`: the checks made before a
    file is handed to the detection service, in order (Base64, empty, binary),
    and the null-byte heuristic `IsBinaryFile`. */
module EncodingConverter {
  import opened Wrappers
  import opened Text
  import opened EncodingDetection

  /** At most this many leading bytes are inspected. */
  const SampleLimit: nat := 8192

  function SampleSize(n: nat): (s: nat)
    ensures s <= n && s <= SampleLimit
    ensures s == n || s == SampleLimit
  {
    if n < SampleLimit then n else SampleLimit
  }

  /** The number of zero bytes in `s`. */
  function ZeroCount(s: seq<Byte>): (z: nat)
    ensures z <= |s|
  {
    if |s| == 0 then 0 else ZeroCount(s[..|s| - 1]) + (if s[|s| - 1] == 0 then 1 else 0)
  }

  /** The floating-point test `(double)nullCount / sampleSize > 0.05`. An
      empty sample divides zero by zero, whose NaN compares false. Numerator
      and denominator stay far below 2^53, and the distance between a ratio
      of two such numbers and 1/20 is at least 1/(20 * 8192) when not zero,
      so exact rational arithmetic gives the same verdict as doubles. */
  predicate ExceedsNullRatio(nullCount: nat, sampleSize: nat) {
    sampleSize > 0 && (nullCount as real) / (sampleSize as real) > 0.05
  }

  /** The verdict of `IsBinaryFile` as a specification. */
  predicate IsBinary(bytes: seq<Byte>) {
    var n := SampleSize(|bytes|);
    ExceedsNullRatio(ZeroCount(bytes[..n]), n)
  }

  /** The ratio test is the integer comparison 20 * nullCount > sampleSize. */
  lemma NullRatioExact(nullCount: nat, sampleSize: nat)
    requires nullCount <= sampleSize
    ensures ExceedsNullRatio(nullCount, sampleSize) <==> 20 * nullCount > sampleSize
  {
    if sampleSize > 0 {
      RatioAbove(nullCount as real, sampleSize as real);
      RealToInt(20 * nullCount, sampleSize);
    }
  }

  lemma RatioAbove(n: real, s: real)
    requires s > 0.0
    ensures n / s > 0.05 <==> 20.0 * n > s
  {
    var q := n / s;
    assert q * s == n;
    if q > 0.05 {
      ScaleStrict(q, 0.05, s, n);
    } else {
      ScaleWeak(0.05, q, s, n);
    }
  }

  lemma RealToInt(a: int, b: int)
    ensures a as real > b as real <==> a > b
  {
  }

  lemma ScaleStrict(a: real, b: real, c: real, p: real)
    requires a > b && c > 0.0 && p == a * c
    ensures p > b * c
  {
  }

  lemma ScaleWeak(a: real, b: real, c: real, p: real)
    requires a >= b && c > 0.0 && p == b * c
    ensures a * c >= p
  {
  }

  /** `IsBinaryFile`: counts the zeros among the first `min(8192, n)` bytes
      and calls the file binary when they are more than 5% of that sample. */
  method IsBinaryFile(bytes: seq<Byte>) returns (binary: bool)
    ensures binary <==> 20 * ZeroCount(bytes[..SampleSize(|bytes|)]) > SampleSize(|bytes|)
    ensures binary <==> IsBinary(bytes)
  {
    var sampleSize := SampleSize(|bytes|);
    var nullCount := 0;
    var i := 0;
    while i < sampleSize
      invariant 0 <= i <= sampleSize
      invariant nullCount == ZeroCount(bytes[..i])
    {
      assert bytes[..i + 1][..i] == bytes[..i];
      if bytes[i] == 0 {
        nullCount := nullCount + 1;
      }
      i := i + 1;
    }
    NullRatioExact(nullCount, sampleSize);
    binary := 20 * nullCount > sampleSize;
  }

  // ------------------------------------------------------------ properties

  /** Bytes after the first 8192 never change the verdict. */
  lemma OnlyTheSampleCounts(head: seq<Byte>, tail: seq<Byte>)
    requires |head| >= SampleLimit
    ensures IsBinary(head + tail) <==> IsBinary(head)
  {
    assert (head + tail)[..SampleLimit] == head[..SampleLimit];
  }

  lemma {:induction false} NoZeros(s: seq<Byte>)
    requires forall i :: 0 <= i < |s| ==> s[i] != 0
    ensures ZeroCount(s) == 0
  {
    if |s| > 0 {
      NoZeros(s[..|s| - 1]);
    }
  }

  /** A buffer without zero bytes is never taken for binary. */
  lemma NoZerosNotBinary(bytes: seq<Byte>)
    requires forall i :: 0 <= i < |bytes| ==> bytes[i] != 0
    ensures !IsBinary(bytes)
  {
    var n := SampleSize(|bytes|);
    NoZeros(bytes[..n]);
    NullRatioExact(0, n);
  }

  lemma {:induction false} ZeroCountAppend(a: seq<Byte>, b: seq<Byte>)
    ensures ZeroCount(a + b) == ZeroCount(a) + ZeroCount(b)
    decreases |b|
  {
    if |b| == 0 {
      assert a + b == a;
    } else {
      assert (a + b)[..|a + b| - 1] == a + b[..|b| - 1];
      ZeroCountAppend(a, b[..|b| - 1]);
    }
  }

  lemma {:induction false} AllZeros(n: nat)
    ensures ZeroCount(seq(n, _ => 0)) == n
  {
    if n > 0 {
      assert seq(n, _ => 0)[..n - 1] == seq(n - 1, _ => 0);
      AllZeros(n - 1);
    }
  }

  /** 600 zero bytes at the head of a 1000-byte buffer make it binary,
      whatever the other 400 bytes are. */
  lemma SixHundredZerosInAThousand(rest: seq<Byte>)
    requires |rest| == 400
    ensures IsBinary(seq(600, _ => 0) + rest)
  {
    var bytes: seq<Byte> := seq(600, _ => 0) + rest;
    assert bytes[..SampleSize(|bytes|)] == bytes;
    AllZeros(600);
    ZeroCountAppend(seq(600, _ => 0), rest);
    NullRatioExact(ZeroCount(bytes), 1000);
  }

  datatype ConverterError = InvalidBase64 | EmptyContent | BinaryFile | ConversionFailed(cause: ConvertError)

  datatype ConversionRequest = ConversionRequest(
    fileContentBase64: string,
    fileName: string,
    outputEncoding: string,
    inputEncoding: string)

  /** `EncodingConversionResponse` without the transcoded content and its
      size. */
  datatype ConversionResponse = ConversionResponse(
    fileName: string,
    detectedEncoding: string,
    outputEncoding: string,
    confidence: Option<real>)

  /** `ConvertEncoding`: text that is not Base64 is rejected first, then an
      empty file, then a binary one; only then is the detection service
      asked, and its argument errors are passed on. */
  method ConvertEncoding(request: ConversionRequest, fromBase64: string -> Option<seq<Byte>>,
                         detector: seq<Byte> -> DetectorReading,
                         resolve: string -> Option<string>)
    returns (r: Result<ConversionResponse, ConverterError>)
    ensures fromBase64(request.fileContentBase64).None? ==> r == Failure(InvalidBase64)
    ensures fromBase64(request.fileContentBase64) == Some([]) ==> r == Failure(EmptyContent)
    ensures fromBase64(request.fileContentBase64).Some? ==>
              var bytes := fromBase64(request.fileContentBase64).value;
              && (|bytes| > 0 && IsBinary(bytes) ==> r == Failure(BinaryFile))
              && (|bytes| > 0 && !IsBinary(bytes) ==>
                    var c := Convert(bytes, request.inputEncoding, request.outputEncoding, detector, resolve);
                    && (c.Failure? ==> r == Failure(ConversionFailed(c.error)))
                    && (c.Success? ==>
                          r == Success(ConversionResponse(request.fileName, c.value.detectedEncoding,
                                                          c.value.outputEncoding, c.value.confidence))))
  {
    var decoded := fromBase64(request.fileContentBase64);
    if decoded.None? {
      return Failure(InvalidBase64);
    }
    var bytes := decoded.value;
    if |bytes| == 0 {
      return Failure(EmptyContent);
    }
    var binary := IsBinaryFile(bytes);
    if binary {
      return Failure(BinaryFile);
    }
    var c := Convert(bytes, request.inputEncoding, request.outputEncoding, detector, resolve);
    if c.Failure? {
      return Failure(ConversionFailed(c.error));
    }
    return Success(ConversionResponse(request.fileName, c.value.detectedEncoding,
                                      c.value.outputEncoding, c.value.confidence));
  }

  /** The detection service never sees an empty buffer from the controller,
      so its own emptiness check cannot fire there. */
  lemma ServiceNeverSeesEmpty(bytes: seq<Byte>, inputEncoding: string, outputEncoding: string,
                              detector: seq<Byte> -> DetectorReading, resolve: string -> Option<string>)
    requires |bytes| > 0
    ensures Convert(bytes, inputEncoding, outputEncoding, detector, resolve) != Failure(ConvertError.FileEmpty)
  {
  }
}
