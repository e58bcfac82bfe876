/** The pixel-data handler of libjpeg/tests/pydicom_handler.py: which
    transfer syntaxes it takes, the dataset checks, the expected-length and
    frame arithmetic, and the frame-by-frame fill of the output buffer.
    The pydicom helpers (get_expected_length, generate_pixel_data_frame,
    pixel_dtype) and the per-frame decoder are inputs: their results are
    passed in. */
module PydicomHandler {
  import opened Common
  import opened Text

  const JpegBaseline: string := "1.2.840.10008.1.2.4.50"
  const JpegExtended: string := "1.2.840.10008.1.2.4.51"
  const JpegLosslessP14: string := "1.2.840.10008.1.2.4.57"
  const JpegLossless: string := "1.2.840.10008.1.2.4.70"
  const JpegLSLossless: string := "1.2.840.10008.1.2.4.80"
  const JpegLSLossy: string := "1.2.840.10008.1.2.4.81"

  const SupportedTransferSyntaxes: seq<string> :=
    [JpegBaseline, JpegExtended, JpegLosslessP14, JpegLossless, JpegLSLossless, JpegLSLossy]

  /** The parts of a dataset the handler reads: the file meta Transfer Syntax
      UID, the keywords of the elements present, the Photometric
      Interpretation value and Number of Frames, if present. */
  datatype Dataset = Dataset(
    transferSyntax: string,
    present: set<string>,
    photometricInterpretation: string,
    numberOfFrames: Option<int>)

  /** supports_transfer_syntax: exactly the six JPEG and JPEG-LS syntaxes. */
  function SupportsTransferSyntax(tsyntax: string): (b: bool)
    ensures b <==> (|| tsyntax == "1.2.840.10008.1.2.4.50" || tsyntax == "1.2.840.10008.1.2.4.51"
                    || tsyntax == "1.2.840.10008.1.2.4.57" || tsyntax == "1.2.840.10008.1.2.4.70"
                    || tsyntax == "1.2.840.10008.1.2.4.80" || tsyntax == "1.2.840.10008.1.2.4.81")
  {
    tsyntax in SupportedTransferSyntaxes
  }

  /** needs_to_convert_to_RGB: the decoded data is never converted. */
  function NeedsToConvertToRgb(ds: Dataset): (b: bool)
    ensures !b
  {
    false
  }

  /** should_change_PhotometricInterpretation_to_RGB: the label is never changed. */
  function ShouldChangePhotometricInterpretationToRgb(ds: Dataset): (b: bool)
    ensures !b
  {
    false
  }

  const RequiredElements: seq<string> := [
    "BitsAllocated", "Rows", "Columns", "PixelRepresentation",
    "SamplesPerPixel", "PhotometricInterpretation", "PixelData"
  ]

  /** `[elem for elem in required if elem not in ds]`. */
  function MissingElements(required: seq<string>, present: set<string>): (missing: seq<string>)
    ensures forall e :: e in missing <==> e in required && e !in present
    ensures |missing| <= |required|
  {
    if required == [] then []
    else (if required[0] in present then [] else [required[0]]) + MissingElements(required[1..], present)
  }

  /** The filter keeps the list's order: missing elements of a + b are those of a, then those of b. */
  lemma {:induction false} MissingElementsOfConcat(a: seq<string>, b: seq<string>, present: set<string>)
    ensures MissingElements(a + b, present) == MissingElements(a, present) + MissingElements(b, present)
    decreases |a|
  {
    if a == [] {
      assert a + b == b;
    } else {
      var head := if a[0] in present then [] else [a[0]];
      assert (a + b)[0] == a[0];
      assert (a + b)[1..] == a[1..] + b;
      MissingElementsOfConcat(a[1..], b, present);
      calc {
        MissingElements(a + b, present);
        head + MissingElements(a[1..] + b, present);
        head + (MissingElements(a[1..], present) + MissingElements(b, present));
        (head + MissingElements(a[1..], present)) + MissingElements(b, present);
      }
    }
  }

  const UnsupportedText: string :=
    "Unable to convert the pixel data as the transfer syntax is not supported by the pylibjpeg pixel data handler."

  function MissingText(missing: seq<string>): string
  {
    "Unable to convert the pixel data as the following required elements are missing from the dataset: "
    + Join(missing, ", ")
  }

  /** The exceptions get_pixeldata can end in. */
  datatype HandlerError =
      /** NotImplementedError: transfer syntax not supported */
    | NotImplemented(text: string)
      /** AttributeError: required elements are missing */
    | MissingElementsError(text: string)
      /** `expected_len // nr_frames` with nr_frames == 0 */
    | ZeroDivision
      /** `range(0, expected_len, 0)` */
    | RangeStepZero
      /** decode_pixel_data raised for a frame */
    | DecoderFailed(error: Error)
      /** the decoded frame cannot be broadcast into its slice */
    | BroadcastMismatch(frameLength: nat, sliceLength: nat)
      /** `arr.view(pixel_dtype(ds))` on a length that is not a multiple of the item size */
    | DtypeMismatch(byteCount: nat, itemSize: nat)

  /** Accepted wherever the transfer syntax check and the element check both pass. */
  predicate Checked(ds: Dataset)
  {
    SupportsTransferSyntax(ds.transferSyntax) && MissingElements(RequiredElements, ds.present) == []
  }

  /** The expected length, with the YBR_FULL_422 adjustment `expected_len // 2 * 3`. */
  function AdjustedLength(expected: nat, pi: string): (n: nat)
    ensures pi == "YBR_FULL_422" ==> n == 3 * (expected / 2) && (expected % 2 == 0 ==> 2 * n == 3 * expected)
    ensures pi != "YBR_FULL_422" ==> n == expected
  {
    if pi == "YBR_FULL_422" then expected / 2 * 3 else expected
  }

  /** `getattr(ds, 'NumberOfFrames', 1)`. */
  function NumberOfFrames(ds: Dataset): (n: int)
    ensures ds.numberOfFrames.None? ==> n == 1
    ensures ds.numberOfFrames.Some? ==> n == ds.numberOfFrames.value
  {
    if ds.numberOfFrames.Some? then ds.numberOfFrames.value else 1
  }

  /** Python's floor division `a // b`. */
  function FloorDiv(a: int, b: int): (q: int)
    requires b != 0
    ensures b > 0 ==> b * q <= a < b * q + b
    ensures b < 0 ==> b * q + b < a <= b * q
  {
    if b > 0 then a / b else (-a) / (-b)
  }

  // --------------------------------------------------------------- offsets

  /** `len(range(0, total, frameLen))` for a positive step. */
  function OffsetCount(total: nat, frameLen: nat): nat
    requires 0 < frameLen
  {
    (total + frameLen - 1) / frameLen
  }

  /** `range(0, total, frameLen)`. */
  function Offsets(total: nat, frameLen: nat): (offsets: seq<nat>)
    requires 0 < frameLen
    ensures |offsets| == OffsetCount(total, frameLen)
  {
    seq(OffsetCount(total, frameLen), k requires 0 <= k => k * frameLen)
  }

  /** Multiplying by a positive d by steps of one. */
  lemma {:induction false} MulStep(x: int, d: int)
    requires 0 < d
    ensures x >= 1 ==> x * d >= d
    ensures x <= -1 ==> x * d <= -d
    ensures x == 0 ==> x * d == 0
    decreases if x < 0 then -x else x
  {
    if x > 1 {
      MulStep(x - 1, d);
      assert x * d == (x - 1) * d + d;
    } else if x < -1 {
      MulStep(x + 1, d);
      assert x * d == (x + 1) * d - d;
    }
  }

  lemma DivBound(n: int, a: int, d: int)
    requires 0 < d && n * d <= a
    ensures n <= a / d
  {
    var q := a / d;
    assert a == d * q + a % d;
    MulStep(q + 1 - n, d);
    assert (q + 1 - n) * d == q * d + d - n * d;
  }

  lemma MulDiv(k: int, d: int)
    requires 0 < d
    ensures (k * d) % d == 0 && (k * d) / d == k
  {
    var q, m := (k * d) / d, (k * d) % d;
    assert k * d == d * q + m;
    MulStep(k - q, d);
    assert (k - q) * d == k * d - q * d;
  }

  lemma MulLe(a: int, b: int, d: int)
    requires a <= b && 0 < d
    ensures a * d <= b * d
  {
    MulStep(b - a, d);
    assert (b - a) * d == b * d - a * d;
  }

  lemma OffsetBelowTotal(total: nat, frameLen: nat, k: nat)
    requires 0 < frameLen && k < OffsetCount(total, frameLen)
    ensures k * frameLen < total
  {
    var c := OffsetCount(total, frameLen);
    assert frameLen * c + (total + frameLen - 1) % frameLen == total + frameLen - 1;
    MulLe(k, c - 1, frameLen);
    assert (c - 1) * frameLen == c * frameLen - frameLen;
  }

  lemma OffsetIsMultiple(total: nat, frameLen: nat, k: nat)
    requires 0 < frameLen && k < OffsetCount(total, frameLen)
    ensures 0 <= k * frameLen < total && (k * frameLen) % frameLen == 0
  {
    OffsetBelowTotal(total, frameLen, k);
    MulDiv(k, frameLen);
  }

  lemma MultipleIsOffset(total: nat, frameLen: nat, x: int)
    requires 0 < frameLen && 0 <= x < total && x % frameLen == 0
    ensures x / frameLen < OffsetCount(total, frameLen) && (x / frameLen) * frameLen == x
  {
    var k := x / frameLen;
    assert x == frameLen * k + x % frameLen;
    assert (k + 1) * frameLen == x + frameLen;
    DivBound(k + 1, total + frameLen - 1, frameLen);
  }

  /** The offsets are exactly the multiples of the frame length below the total. */
  lemma OffsetsAreMultiples(total: nat, frameLen: nat, x: int)
    requires 0 < frameLen
    ensures x in Offsets(total, frameLen) <==> 0 <= x < total && x % frameLen == 0
  {
    var offsets := Offsets(total, frameLen);
    if x in offsets {
      var k :| 0 <= k < |offsets| && offsets[k] == x;
      OffsetIsMultiple(total, frameLen, k);
    }
    if 0 <= x < total && x % frameLen == 0 {
      MultipleIsOffset(total, frameLen, x);
      assert offsets[x / frameLen] == x;
    }
  }

  // ----------------------------------------------------------- frame fill

  /** The length of the slice `arr[k * frameLen : k * frameLen + frameLen]`:
      numpy clips its stop to the buffer length. */
  function SliceLength(k: nat, frameLen: nat, total: nat): nat
  {
    if k * frameLen < total then Min(k * frameLen + frameLen, total) - k * frameLen else 0
  }

  /** A decoded frame can be assigned into a slice of length len: equal
      lengths, or a single element broadcast over the slice. */
  predicate Fits(frame: seq<byte>, len: nat)
  {
    |frame| == len || |frame| == 1
  }

  /** The values the slice holds after the assignment. */
  function Broadcast(frame: seq<byte>, len: nat): (r: seq<byte>)
    requires Fits(frame, len)
    ensures |r| == len
    ensures forall i :: 0 <= i < len ==> r[i] == (if |frame| == len then frame[i] else frame[0])
  {
    if |frame| == len then frame else seq(len, _ => frame[0])
  }

  /** Frame k decoded and fits its slice. */
  predicate FrameAccepted(result: Result<seq<byte>, Error>, len: nat)
  {
    result.Success? && Fits(result.value, len)
  }

  /** The exception frame k raises when it is not accepted. */
  function FrameError(result: Result<seq<byte>, Error>, len: nat): HandlerError
  {
    if result.Failure? then DecoderFailed(result.error) else BroadcastMismatch(|result.value|, len)
  }

  /** The bytes the loop writes for the decoded frames, in order, each into
      its slice; or the exception of the first frame that fails. */
  function Assemble(decoded: seq<Result<seq<byte>, Error>>, frameLen: nat, total: nat)
    : (r: Result<seq<byte>, HandlerError>)
    requires 0 < frameLen && |decoded| <= OffsetCount(total, frameLen)
    ensures r.Success? ==> |r.value| == Min(|decoded| * frameLen, total)
    decreases |decoded|
  {
    if decoded == [] then Success([])
    else
      var k := |decoded| - 1;
      OffsetBelowTotal(total, frameLen, k);
      match Assemble(decoded[..k], frameLen, total)
      case Failure(e) => Failure(e)
      case Success(prefix) =>
        var len := SliceLength(k, frameLen, total);
        assert (k + 1) * frameLen == k * frameLen + frameLen;
        if FrameAccepted(decoded[k], len) then Success(prefix + Broadcast(decoded[k].value, len))
        else Failure(FrameError(decoded[k], len))
  }

  /** Byte i of frame k's slice holds what the assignment of frame k put there. */
  lemma {:induction false} AssembledAt(decoded: seq<Result<seq<byte>, Error>>, frameLen: nat, total: nat,
                                       k: nat, i: nat)
    requires 0 < frameLen && |decoded| <= OffsetCount(total, frameLen)
    requires Assemble(decoded, frameLen, total).Success?
    requires k < |decoded| && i < SliceLength(k, frameLen, total)
    ensures FrameAccepted(decoded[k], SliceLength(k, frameLen, total))
    ensures k * frameLen + i < |Assemble(decoded, frameLen, total).value|
    ensures Assemble(decoded, frameLen, total).value[k * frameLen + i]
         == Broadcast(decoded[k].value, SliceLength(k, frameLen, total))[i]
    decreases |decoded|
  {
    var m := |decoded| - 1;
    OffsetBelowTotal(total, frameLen, m);
    OffsetBelowTotal(total, frameLen, k);
    var prefix := Assemble(decoded[..m], frameLen, total).value;
    assert |prefix| == m * frameLen;
    if k < m {
      assert decoded[..m][k] == decoded[k];
      AssembledAt(decoded[..m], frameLen, total, k, i);
      MulLe(k + 1, m, frameLen);
    }
  }

  /** The loop gets through all frames exactly when every frame decodes and fits its slice. */
  lemma {:induction false} AssembleSucceedsIff(decoded: seq<Result<seq<byte>, Error>>, frameLen: nat, total: nat)
    requires 0 < frameLen && |decoded| <= OffsetCount(total, frameLen)
    ensures Assemble(decoded, frameLen, total).Success? <==>
            forall k :: 0 <= k < |decoded| ==> FrameAccepted(decoded[k], SliceLength(k, frameLen, total))
    decreases |decoded|
  {
    if decoded != [] {
      var m := |decoded| - 1;
      AssembleSucceedsIff(decoded[..m], frameLen, total);
      assert forall k :: 0 <= k < m ==> decoded[..m][k] == decoded[k];
    }
  }

  /** The exception raised is that of the first frame that is not accepted. */
  lemma {:induction false} FirstRejectedFrame(decoded: seq<Result<seq<byte>, Error>>, frameLen: nat, total: nat,
                                              k: nat)
    requires 0 < frameLen && |decoded| <= OffsetCount(total, frameLen)
    requires k < |decoded| && !FrameAccepted(decoded[k], SliceLength(k, frameLen, total))
    requires forall j :: 0 <= j < k ==> FrameAccepted(decoded[j], SliceLength(j, frameLen, total))
    ensures Assemble(decoded, frameLen, total) == Failure(FrameError(decoded[k], SliceLength(k, frameLen, total)))
    decreases |decoded|
  {
    var m := |decoded| - 1;
    assert forall j :: 0 <= j < m ==> decoded[..m][j] == decoded[j];
    if k == m {
      AssembleSucceedsIff(decoded[..m], frameLen, total);
    } else {
      FirstRejectedFrame(decoded[..m], frameLen, total, k);
    }
  }

  /** One more accepted frame appends its slice's values. */
  lemma AssembleStep(decoded: seq<Result<seq<byte>, Error>>, frameLen: nat, total: nat, k: nat)
    requires 0 < frameLen && k < |decoded| && k < OffsetCount(total, frameLen)
    requires Assemble(decoded[..k], frameLen, total).Success?
    requires FrameAccepted(decoded[k], SliceLength(k, frameLen, total))
    ensures Assemble(decoded[..k + 1], frameLen, total)
         == Success(Assemble(decoded[..k], frameLen, total).value
                    + Broadcast(decoded[k].value, SliceLength(k, frameLen, total)))
  {
    assert decoded[..k + 1][..k] == decoded[..k];
    assert decoded[..k + 1][k] == decoded[k];
  }

  /** A rejected frame ends the loop with its exception, however many frames follow. */
  lemma RejectedFrameStops(decoded: seq<Result<seq<byte>, Error>>, frameLen: nat, total: nat, k: nat, n: nat)
    requires 0 < frameLen && k < n <= |decoded| && n <= OffsetCount(total, frameLen)
    requires Assemble(decoded[..k], frameLen, total).Success?
    requires !FrameAccepted(decoded[k], SliceLength(k, frameLen, total))
    ensures Assemble(decoded[..n], frameLen, total) == Failure(FrameError(decoded[k], SliceLength(k, frameLen, total)))
  {
    AssembleSucceedsIff(decoded[..k], frameLen, total);
    assert forall j :: 0 <= j < k ==> decoded[..k][j] == decoded[..n][j];
    FirstRejectedFrame(decoded[..n], frameLen, total, k);
  }

  // --------------------------------------------------------- get_pixeldata

  /** The number of loop iterations: zip stops at the shorter of the frames and the offsets. */
  function FramesWritten(total: nat, frameLen: int, frameCount: nat): nat
  {
    if frameLen > 0 then Min(frameCount, OffsetCount(total, frameLen)) else 0
  }

  /** What the loop writes, from offset 0 on, or its exception. */
  function Written(decoded: seq<Result<seq<byte>, Error>>, frameLen: int, total: nat)
    : (r: Result<seq<byte>, HandlerError>)
    ensures r.Success? ==> |r.value| <= total
  {
    if frameLen > 0 then Assemble(decoded[..FramesWritten(total, frameLen, |decoded|)], frameLen, total)
    else Success([])
  }

  /** The loop of get_pixeldata over `zip(generate_pixel_data_frame(...), range(0, len(arr), frameLen))`,
      assigning each decoded frame to `arr[offset:offset + frameLen]`. It writes
      the bytes Assemble describes, from offset 0 on, or stops with the
      exception of the first frame that is not accepted. */
  method FillFrames(arr: array<byte>, decoded: seq<Result<seq<byte>, Error>>, frameLen: nat)
    returns (failure: Option<HandlerError>)
    requires 0 < frameLen
    modifies arr
    ensures var w := Written(decoded, frameLen, arr.Length);
            && (w.Failure? ==> failure == Some(w.error))
            && (w.Success? ==> failure == None && arr[..|w.value|] == w.value)
            // nothing past the written prefix is touched
            && (w.Success? ==> arr[|w.value|..] == old(arr[|w.value|..]))
  {
    var offsets := Offsets(arr.Length, frameLen);
    var n := Min(|decoded|, |offsets|);
    assert n == FramesWritten(arr.Length, frameLen, |decoded|);
    for k := 0 to n
      invariant Assemble(decoded[..k], frameLen, arr.Length).Success?
      invariant var w := Assemble(decoded[..k], frameLen, arr.Length).value;
                |w| <= arr.Length && arr[..|w|] == w && arr[|w|..] == old(arr[|w|..])
    {
      ghost var prefix := Assemble(decoded[..k], frameLen, arr.Length).value;
      var offset := offsets[k];
      OffsetBelowTotal(arr.Length, frameLen, k);
      assert offset == |prefix|;
      var stop := Min(offset + frameLen, arr.Length);
      var len := stop - offset;
      assert len == SliceLength(k, frameLen, arr.Length);
      if !FrameAccepted(decoded[k], len) {
        RejectedFrameStops(decoded, frameLen, arr.Length, k, n);
        return Some(FrameError(decoded[k], len));
      }
      AssembleStep(decoded, frameLen, arr.Length, k);
      var values := Broadcast(decoded[k].value, len);
      ghost var tail := arr[stop..];
      assert tail == arr[offset..][stop - offset..];
      assert old(arr[stop..]) == old(arr[offset..])[stop - offset..];
      forall i | offset <= i < stop {
        arr[i] := values[i - offset];
      }
      assert arr[..stop] == prefix + values;
      assert arr[stop..] == tail;
    }
    return None;
  }

  /** get_pixeldata(ds). `expectedLength` is get_expected_length(ds);
      `decoded` holds, frame by frame, what decode_pixel_data returned or
      raised for the frames generate_pixel_data_frame yields; `itemSize` is
      the item size of pixel_dtype(ds). On success the result is the
      buffer's bytes; positions no frame was written to hold whatever
      np.empty left there and are not specified. */
  method GetPixelData(ds: Dataset, expectedLength: nat, decoded: seq<Result<seq<byte>, Error>>, itemSize: nat)
    returns (r: Result<seq<byte>, HandlerError>)
    requires 0 < itemSize
    // the transfer syntax is checked first
    ensures !SupportsTransferSyntax(ds.transferSyntax) ==> r == Failure(NotImplemented(UnsupportedText))
    // all missing elements are reported together, in the order of RequiredElements
    ensures SupportsTransferSyntax(ds.transferSyntax) && MissingElements(RequiredElements, ds.present) != [] ==>
              r == Failure(MissingElementsError(MissingText(MissingElements(RequiredElements, ds.present))))
    ensures Checked(ds) && NumberOfFrames(ds) == 0 ==> r == Failure(ZeroDivision)
    ensures var total := AdjustedLength(expectedLength, ds.photometricInterpretation);
            Checked(ds) && NumberOfFrames(ds) != 0 && FloorDiv(total, NumberOfFrames(ds)) == 0 ==>
              r == Failure(RangeStepZero)
    ensures var total := AdjustedLength(expectedLength, ds.photometricInterpretation);
            Checked(ds) && NumberOfFrames(ds) != 0 && FloorDiv(total, NumberOfFrames(ds)) != 0 ==>
              var w := Written(decoded, FloorDiv(total, NumberOfFrames(ds)), total);
              && (w.Failure? ==> r == Failure(w.error))
              && (w.Success? && total % itemSize != 0 ==> r == Failure(DtypeMismatch(total, itemSize)))
              && (w.Success? && total % itemSize == 0 ==>
                    r.Success? && |r.value| == total && r.value[..|w.value|] == w.value)
  {
    var tsyntax := ds.transferSyntax;
    if tsyntax !in SupportedTransferSyntaxes {
      return Failure(NotImplemented(UnsupportedText));
    }

    var missing := MissingElements(RequiredElements, ds.present);
    if missing != [] {
      return Failure(MissingElementsError(MissingText(missing)));
    }

    var expectedLen := expectedLength;
    if ds.photometricInterpretation == "YBR_FULL_422" {
      expectedLen := expectedLen / 2 * 3;
    }

    var nrFrames := NumberOfFrames(ds);
    if nrFrames == 0 {
      return Failure(ZeroDivision);
    }
    var frameLen := FloorDiv(expectedLen, nrFrames);

    var arr := new byte[expectedLen];

    if frameLen == 0 {
      return Failure(RangeStepZero);
    }
    if frameLen > 0 {
      var failure := FillFrames(arr, decoded, frameLen);
      if failure.Some? {
        return Failure(failure.value);
      }
    }

    if expectedLen % itemSize != 0 {
      return Failure(DtypeMismatch(expectedLen, itemSize));
    }
    return Success(arr[..]);
  }
}
