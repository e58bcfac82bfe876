/** The orchestration in libjpeg/utils.py: input normalisation, the call
    into the native engine (an oracle passed in as a function), and the
    translation of its status token and output into a result or an error;
    plus the colour-transform selection of decode_pixel_data. */
module Utils {
  import opened Common
  import opened Text
  import opened StatusProtocol
  import opened ErrorCodes
  import opened OutputShape

  /** What a caller may pass as `stream`: a str or Path (modelled by the
      bytes reading the file yields, or None when it cannot be opened), a
      bytes object, or any other object (a numpy array, a bytearray, ...)
      known only by an opaque handle. */
  datatype Source =
    | PathLike(file: Option<seq<byte>>)
    | Bytes(data: seq<byte>)
    | Other(handle: nat)

  /** What reaches the engine: a uint8 view of bytes, or the caller's object untouched. */
  datatype EngineArg = Uint8View(data: seq<byte>) | Untouched(handle: nat)

  /** The triple `_libjpeg.decode` returns, its status already decoded from UTF-8. */
  datatype DecodeReply = DecodeReply(status: string, out: seq<byte>, params: Params)

  /** The pair `_libjpeg.get_parameters` returns. */
  datatype ParametersReply = ParametersReply(status: string, params: Params)

  /** What decode returns: the engine's output as it came, or the re-viewed, reshaped array. */
  datatype Decoded = Flat(bytes: seq<byte>) | Shaped(ndarray: NdArray)

  /** The first lines of decode and get_parameters (libjpeg/utils.py:88-95). */
  function Normalize(stream: Source): (r: Result<EngineArg, Error>)
    ensures stream.PathLike? && stream.file.None? ==> r == Failure(FileNotFound)
    ensures stream.PathLike? && stream.file.Some? ==> r == Success(Uint8View(stream.file.value))
    ensures stream.Bytes? ==> r == Success(Uint8View(stream.data))
    ensures stream.Other? ==> r == Success(Untouched(stream.handle))
  {
    match stream
    case PathLike(file) => if file.None? then Failure(FileNotFound) else Success(Uint8View(file.value))
    case Bytes(data) => Success(Uint8View(data))
    case Other(handle) => Success(Untouched(handle))
  }

  /** How decode turns the engine's reply into a result (libjpeg/utils.py:98-124). */
  function TranslateDecode(reply: DecodeReply, reshape: bool, littleEndian: bool): (r: Result<Decoded, Error>)
    // a malformed token is the unpacking or int() error
    ensures ParseStatus(reply.status).Failure? ==> r == Failure(ParseStatus(reply.status).error)
    // it returns only on code 0: every other code raises
    ensures r.Success? ==> ParseStatus(reply.status).Success? && ParseStatus(reply.status).value.code == 0
    ensures var st := ParseStatus(reply.status);
            st.Success? && st.value.code != 0 ==>
              r == Failure(Runtime(DecodeFailureText(st.value.code, st.value.message)))
    // reshape=False: the engine's output unchanged
    ensures var st := ParseStatus(reply.status);
            st.Success? && st.value.code == 0 && !reshape ==> r == Success(Flat(reply.out))
    // reshape=True: a [rows, columns(, components)] array of the chosen width, when the sizes agree
    ensures var st := ParseStatus(reply.status);
            st.Success? && st.value.code == 0 && reshape ==>
              && (r.Success? <==> |reply.out| == ElementWidth(reply.params.precision) * Product(ShapeFor(reply.params)))
              && (r.Success? ==> r.value.Shaped? && r.value.ndarray == ShapeOutput(reply.out, reply.params, littleEndian).value)
              && (r.Failure? ==> r.error == ShapeOutput(reply.out, reply.params, littleEndian).error)
  {
    match ParseStatus(reply.status)
    case Failure(e) => Failure(e)
    case Success(Status(code, msg)) =>
      if code == 0 && reshape then
        match ShapeOutput(reply.out, reply.params, littleEndian)
        case Success(a) => Success(Shaped(a))
        case Failure(e) => Failure(e)
      else if code == 0 then Success(Flat(reply.out))
      else Failure(Runtime(DecodeFailureText(code, msg)))
  }

  /** Everything decode does, given the engine as an oracle. */
  function DecodeOutcome(stream: Source, colourTransform: int, reshape: bool,
                         engine: (EngineArg, int) -> DecodeReply, littleEndian: bool): (r: Result<Decoded, Error>)
    ensures Normalize(stream).Failure? ==> r == Failure(FileNotFound)
    ensures Normalize(stream).Success? ==>
              r == TranslateDecode(engine(Normalize(stream).value, colourTransform), reshape, littleEndian)
  {
    match Normalize(stream)
    case Failure(e) => Failure(e)
    case Success(arg) => TranslateDecode(engine(arg, colourTransform), reshape, littleEndian)
  }

  /** decode(stream, colour_transform, reshape) (libjpeg/utils.py:56-124), step by step. */
  method Decode(stream: Source, colourTransform: int, reshape: bool,
                engine: (EngineArg, int) -> DecodeReply, littleEndian: bool)
    returns (r: Result<Decoded, Error>)
    ensures r == DecodeOutcome(stream, colourTransform, reshape, engine, littleEndian)
  {
    var s := stream;
    if s.PathLike? {
      if s.file.None? {
        return Failure(FileNotFound);
      }
      s := Bytes(s.file.value);
    }
    var arr := if s.Bytes? then Uint8View(s.data) else Untouched(s.handle);

    var reply := engine(arr, colourTransform);
    var status := ParseStatus(reply.status);
    if status.Failure? {
      return Failure(status.error);
    }
    var code := status.value.code;
    var out := reply.out;
    var params := reply.params;

    if code == 0 && reshape {
      var elems: seq<int>, itemSize: nat;
      if BytesPerSample(params.precision) == 2 {
        if |out| % 2 != 0 {
          return Failure(ViewMismatch(|out|));
        }
        elems, itemSize := View16(out, littleEndian), 2;
      } else {
        elems, itemSize := Widen(out), 1;
      }
      var shape := [params.rows, params.columns];
      if params.nrComponents > 1 {
        shape := shape + [params.nrComponents];
      }
      assert shape == ShapeFor(params);
      if |elems| != Product(shape) {
        return Failure(ReshapeMismatch(|elems|, shape));
      }
      return Success(Shaped(NdArray(itemSize, elems, shape)));
    } else if code == 0 && !reshape {
      return Success(Flat(out));
    }
    return Failure(Runtime(DecodeFailureText(code, status.value.message)));
  }

  /** How get_parameters turns the engine's reply into a result (libjpeg/utils.py:218-234). */
  function TranslateParameters(reply: ParametersReply): (r: Result<Params, Error>)
    ensures ParseStatus(reply.status).Failure? ==> r == Failure(ParseStatus(reply.status).error)
    ensures r.Success? ==> ParseStatus(reply.status).Success? && ParseStatus(reply.status).value.code == 0
    // on code 0 the engine's parameters come back unchanged
    ensures var st := ParseStatus(reply.status);
            st.Success? && st.value.code == 0 ==> r == Success(reply.params)
    ensures var st := ParseStatus(reply.status);
            st.Success? && st.value.code != 0 && st.value.code in ErrorTable ==>
              r == Failure(Runtime(KnownErrorText(ParametersOperation, st.value.code,
                                                  ErrorTable[st.value.code], st.value.message)))
    // an unknown code is reported with the whole status token
    ensures var st := ParseStatus(reply.status);
            st.Success? && st.value.code != 0 && st.value.code !in ErrorTable ==>
              r == Failure(Runtime(UnknownErrorText(ParametersOperation, reply.status, st.value.message)))
  {
    match ParseStatus(reply.status)
    case Failure(e) => Failure(e)
    case Success(Status(code, msg)) =>
      if code == 0 then Success(reply.params)
      else Failure(Runtime(ParametersFailureText(reply.status, code, msg)))
  }

  /** get_parameters(stream) (libjpeg/utils.py:183-234), step by step. */
  method GetParameters(stream: Source, engine: EngineArg -> ParametersReply)
    returns (r: Result<Params, Error>)
    ensures Normalize(stream).Failure? ==> r == Failure(FileNotFound)
    ensures Normalize(stream).Success? ==> r == TranslateParameters(engine(Normalize(stream).value))
  {
    var s := stream;
    if s.PathLike? {
      if s.file.None? {
        return Failure(FileNotFound);
      }
      s := Bytes(s.file.value);
    }
    var arr := if s.Bytes? then Uint8View(s.data) else Untouched(s.handle);

    var reply := engine(arr);
    var status := ParseStatus(reply.status);
    if status.Failure? {
      return Failure(status.error);
    }
    var code := status.value.code;
    if code == 0 {
      return Success(reply.params);
    }
    return Failure(Runtime(ParametersFailureText(reply.status, code, status.value.message)));
  }

  // ------------------------------------------------------ colour transform

  /** The `colours` table of decode_pixel_data. */
  const Colours: map<string, int> := map[
    "MONOCHROME1" := 0,
    "MONOCHROME2" := 0,
    "RGB" := 1,
    "YBR_FULL" := 0,
    "YBR_FULL_422" := 0
  ]

  /** The table's five labels, and RGB the only one asking for the RGB-to-YCbCr transform. */
  lemma ColoursTable()
    ensures forall pi :: pi in Colours <==>
              (|| pi == "MONOCHROME1" || pi == "MONOCHROME2" || pi == "RGB" || pi == "YBR_FULL" || pi == "YBR_FULL_422")
    ensures forall pi :: pi in Colours ==> Colours[pi] == (if pi == "RGB" then 1 else 0)
  {
  }

  const MissingPhotometricText: string :=
    "The (0028,0004) Photometric Interpretation element is missing from the dataset"

  function UnsupportedPhotometricText(pi: string): string
  {
    "Unsupported (0028,0004) Photometric Interpretation '" + pi
    + "', no colour transformation will be applied"
  }

  /** The transform to ask the engine for, and the warning issued on the way, if any. */
  datatype Selection = Selection(transform: int, warning: Option<string>)

  /** `ds.get("PhotometricInterpretation", kwargs.get("photometric_interpretation"))`:
      the dataset's value when present, even an empty one, else the keyword argument. */
  function Label(dsValue: Option<string>, keyword: Option<string>): (pi: Option<string>)
    ensures dsValue.Some? ==> pi == dsValue
    ensures dsValue.None? ==> pi == keyword
  {
    if dsValue.Some? then dsValue else keyword
  }

  /** The colour-transform selection of decode_pixel_data (libjpeg/utils.py:155-178). */
  function SelectTransform(dsValue: Option<string>, keyword: Option<string>): (r: Result<Selection, Error>)
    // a missing or empty label is a hard error
    ensures r.Failure? <==> Label(dsValue, keyword) == None || Label(dsValue, keyword) == Some("")
    ensures r.Failure? ==> r.error == MissingPhotometric(MissingPhotometricText)
    // RGB selects transform 1, every other label transform 0
    ensures r.Success? ==> r.value.transform == (if Label(dsValue, keyword) == Some("RGB") then 1 else 0)
    // a label outside the table warns and falls back to no transform
    ensures r.Success? ==> (r.value.warning.Some? <==> Label(dsValue, keyword).value !in Colours)
    ensures r.Success? && r.value.warning.Some? ==>
              r.value.warning.value == UnsupportedPhotometricText(Label(dsValue, keyword).value)
  {
    var pi := Label(dsValue, keyword);
    if pi.None? || pi.value == "" then Failure(MissingPhotometric(MissingPhotometricText))
    else if pi.value in Colours then Success(Selection(Colours[pi.value], None))
    else Success(Selection(0, Some(UnsupportedPhotometricText(pi.value))))
  }

  /** The dataset's value takes precedence: the keyword argument is then irrelevant. */
  lemma DatasetLabelTakesPrecedence(dsValue: string, keyword1: Option<string>, keyword2: Option<string>)
    ensures SelectTransform(Some(dsValue), keyword1) == SelectTransform(Some(dsValue), keyword2)
  {
  }

  /** An empty dataset value is an error even when the keyword argument names a label. */
  lemma EmptyDatasetLabelFails(keyword: Option<string>)
    ensures SelectTransform(Some(""), keyword) == Failure(MissingPhotometric(MissingPhotometricText))
  {
  }

  /** decode_pixel_data(arr, ds, **kwargs) (libjpeg/utils.py:127-180): select the
      transform, then decode without reshaping. The warning, a side channel in
      the source, is returned. */
  method DecodePixelData(arr: Source, dsValue: Option<string>, keyword: Option<string>,
                         engine: (EngineArg, int) -> DecodeReply, littleEndian: bool)
    returns (r: Result<Decoded, Error>, warning: Option<string>)
    ensures SelectTransform(dsValue, keyword).Failure? ==>
              r == Failure(MissingPhotometric(MissingPhotometricText)) && warning == None
    ensures var sel := SelectTransform(dsValue, keyword);
            sel.Success? ==>
              warning == sel.value.warning &&
              r == DecodeOutcome(arr, sel.value.transform, false, engine, littleEndian)
    // never reshaped: on success the engine's output comes back as it is
    ensures r.Success? ==> r.value.Flat?
  {
    var selection := SelectTransform(dsValue, keyword);
    if selection.Failure? {
      return Failure(selection.error), None;
    }
    warning := selection.value.warning;
    r := Decode(arr, selection.value.transform, false, engine, littleEndian);
  }

  /** End to end: "-1036" is reported with its table description, never as unknown. */
  lemma InvalidStreamReported(out: seq<byte>, params: Params, reshape: bool, littleEndian: bool)
    ensures TranslateDecode(DecodeReply("-1036::::bad stream", out, params), reshape, littleEndian)
         == Failure(Runtime(KnownErrorText(DecodeOperation, -1036,
                                           "The stream passed in is no valid jpeg stream", "bad stream")))
  {
    ParseInvalidStreamToken();
    InvalidStreamText("bad stream");
  }

  /** End to end: a successful 100 x 100, 8-bit, single-component decode is a [100, 100] byte array. */
  lemma GreyscaleDecodeShape(out: seq<byte>, littleEndian: bool)
    requires |out| == 10000
    ensures var r := TranslateDecode(DecodeReply("0::::", out, Params(100, 100, 1, 8)), true, littleEndian);
            r.Success? && r.value.Shaped? && r.value.ndarray.shape == [100, 100] && r.value.ndarray.itemSize == 1
  {
    ParseSuccessToken();
  }
}
