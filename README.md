# pylibjpeg-libjpeg: decode orchestration, in Dafny

This project models the Python layer of pylibjpeg-libjpeg that sits between a
caller and the native libjpeg engine (`libjpeg/utils.py`), together with the
test pixel-data handler for DICOM datasets (`libjpeg/tests/pydicom_handler.py`).

- **`decode`** first normalises its input: a path is read, bytes get a uint8
  view, anything else is passed on untouched. It then calls the engine, splits
  the engine's `"<code>::::<message>"` status token and parses the code.
  - On code 0 it returns the output unchanged, or re-viewed as 16-bit words
    (when `ceil(precision / 8) == 2`) and reshaped to `[rows, columns]` or
    `[rows, columns, components]`.
  - On any other code it raises a `RuntimeError`. The text names the code and,
    for the 19 codes of `LIBJPEG_ERROR_CODES`, its description.
- **`get_parameters`** does the same with the engine's parameter query. It
  reports an unknown code with the whole status token.
- **`decode_pixel_data`** picks the colour transform from the Photometric
  Interpretation label, then decodes without reshaping.
- **The handler** accepts six JPEG and JPEG-LS transfer syntaxes and checks the
  required elements. It computes the expected length (adjusted for
  `YBR_FULL_422`) and the frame length. It then assigns each decoded frame into
  a preallocated byte buffer at offsets `0, frame_len, 2·frame_len, …`, with
  the slice semantics of numpy.

Modules:

| file | module | contents |
|---|---|---|
| Common.dfy | `Common` | `byte`, `Option`, `Result`, the Python exceptions as `Error` |
| Text.dfy | `Text` | decimal formatting and `int()` parsing, `str.split` / `str.join` on a separator |
| StatusProtocol.dfy | `StatusProtocol` | the `::::` status token, parsed and proved sound and complete |
| ErrorCodes.dfy | `ErrorCodes` | `LIBJPEG_ERROR_CODES`, classification, the `RuntimeError` texts |
| OutputShape.dfy | `OutputShape` | bytes per sample, uint16 view, shape, reshape |
| Utils.dfy | `Utils` | `decode`, `get_parameters`, `decode_pixel_data` (methods that follow the source step by step) and the functions that specify them |
| PydicomHandler.dfy | `PydicomHandler` | the handler's predicates, checks, arithmetic, and the fill loop over an `array` |

Effects become parameters:

- **The native engine** is a function passed in: `(EngineArg, int) -> DecodeReply` for decode, `EngineArg -> ParametersReply` for the parameter query.
- **A file path** is modelled by the bytes the file holds, or `None` when it cannot be opened.
- **numpy's byte order** for the uint16 view is the parameter `littleEndian`.
- **The warning** `decode_pixel_data` issues is returned as a second result.
- **In the handler**, the results of the pydicom helpers are inputs: `get_expected_length(ds)`, the item size of `pixel_dtype(ds)`, and what `decode_pixel_data` produced for each frame.

Three details of the code that the model keeps:

- **Shape.** The shape is `[rows, columns]` whenever `nr_components > 1` fails, which includes `nr_components == 0`.
- **Flat output.** With `reshape=False` the engine's output is returned as it is, with no length check against the parameters.
- **Element width.** The width is 2 bytes only when `ceil(precision / 8) == 2`, that is for 9 to 16 bits. A larger precision keeps 1-byte elements.

## Model

| member | source | states |
|---|---|---|
| Text.ParseInt | libjpeg/utils.py:100 | `int(code)` succeeds exactly on an optional `-` followed by one or more digits |
| Text.IntToString | libjpeg/utils.py:117-118 | the `{}` rendering of a code is digits, or `-` followed by digits |
| Text.ParseIntOfIntToString | libjpeg/utils.py:100 | parsing the rendering of any integer gives that integer back |
| Text.DigitsValueOfNatToDigits | libjpeg/utils.py:100 | the digits of a natural number read back as that number |
| Text.IntToStringInjective | libjpeg/utils.py:117-118 | distinct codes are rendered as distinct texts |
| Text.IntToStringPlain | libjpeg/utils.py:117-118 | a rendered code contains no colon and no quote, and is a valid decimal |
| Text.DecimalHasNoColon | libjpeg/utils.py:99-100 | a valid decimal code text holds no `:`, so it cannot contain the delimiter |
| Text.IndexOf | libjpeg/utils.py:99 | the first occurrence of the separator, or `None` exactly when it does not occur |
| Text.IndexOfFirst | libjpeg/utils.py:99 | no occurrence of the separator starts before the index found |
| Text.Split | libjpeg/utils.py:99 | `str.split(sep)` always returns at least one part |
| Text.JoinSplit | libjpeg/utils.py:99 | joining the parts of a split with the separator gives the original string back |
| Text.SplitPartsFree | libjpeg/utils.py:99 | no part of a split contains the separator |
| Text.NoColonNotContains | libjpeg/utils.py:99 | a text without `:` cannot contain `::::` |
| Text.SplitAtQuote | libjpeg/utils.py:117-118 | two texts that agree up to a first quote agree on both sides of that quote |
| Text.Join | libjpeg/tests/pydicom_handler.py:116 | `", ".join(missing)` |
| StatusProtocol.ParseStatus | libjpeg/utils.py:98-100 | a parsed message never holds the delimiter; failures are the unpacking error (not exactly two parts) or the `int()` error |
| StatusProtocol.ParseStatusSound | libjpeg/utils.py:99-100 | a token that parses is the code's text, the delimiter and the message, and that text parses to the code |
| StatusProtocol.ParseStatusComplete | libjpeg/utils.py:99-100 | a decimal code text, the delimiter and a message free of the delimiter always parse, to that code and message |
| StatusProtocol.ParseStatusRejectsDelimiterInMessage | libjpeg/utils.py:99 | a message that itself holds `::::` makes the unpacking fail with three or more parts |
| StatusProtocol.FirstDelimiterAfterCode | libjpeg/utils.py:99 | the first `::::` in a token is the one right after the code |
| StatusProtocol.ParseStatusRoundTrip | libjpeg/utils.py:98-100 | formatting any code and delimiter-free message and parsing it gives them back |
| StatusProtocol.ParseSuccessToken | libjpeg/utils.py:98-102 | `"0::::"` parses to code 0 and an empty message |
| StatusProtocol.ParseInvalidStreamToken | libjpeg/utils.py:98-100 | `"-1036::::bad stream"` parses to code -1036 and message `bad stream` |
| ErrorCodes.ErrorTableCodes | libjpeg/utils.py:12-53 | the table's keys are exactly -1024 to -1038, -1040, -1041, -1042 and -2046 |
| ErrorCodes.Classify | libjpeg/utils.py:102-124 | code 0 is success, a table code is known with its description, every other code is unknown |
| ErrorCodes.KnownErrorText | libjpeg/utils.py:116-118 | the text opens with the quoted code and ends with the description, ` - ` and the native message |
| ErrorCodes.UnknownErrorText | libjpeg/utils.py:121-123 | the text opens with the quoted code or token and ends with `: ` and the native message |
| ErrorCodes.DecodeFailureText | libjpeg/utils.py:115-124 | a table code gets the "libjpeg error code" text carrying its description between the code and the message; any other code gets the "Unknown error code" text |
| ErrorCodes.PrefixesExclusive | libjpeg/utils.py:115-124 | no text starts with both prefixes |
| ErrorCodes.ParametersFailureText | libjpeg/utils.py:225-234 | a table code gets the known text with code and description, and only then does the text start with the known prefix; an unknown code's text quotes the whole status token |
| ErrorCodes.DecodeFailureTextInjective | libjpeg/utils.py:115-124 | the decode error text determines the code and the message |
| ErrorCodes.InvalidStreamText | libjpeg/utils.py:30 | the decode text for -1036 carries "The stream passed in is no valid jpeg stream" |
| ErrorCodes.GapCodeIsUnknown | libjpeg/utils.py:35-36 | -1039, between two table codes, is reported as unknown |
| OutputShape.BytesPerSample | libjpeg/utils.py:103 | `ceil(precision / 8)`: the least n with 8·n at least the precision |
| OutputShape.ElementWidth | libjpeg/utils.py:103-105 | elements are 2 bytes wide exactly when the precision is 9 to 16 bits, else 1 byte |
| OutputShape.ShapeFor | libjpeg/utils.py:107-109 | `[rows, columns]`, plus the component count as third entry when it exceeds 1; its product is rows × columns × components |
| OutputShape.View16 | libjpeg/utils.py:105 | an even byte count gives half as many words, each below 2^16 |
| OutputShape.WordBytesOfView16 | libjpeg/utils.py:105 | the uint16 view loses no bytes: writing its words back gives the bytes |
| OutputShape.View16OfWordBytes | libjpeg/utils.py:105 | viewing the bytes of any words below 2^16 gives those words |
| OutputShape.Reshape | libjpeg/utils.py:111 | reshape succeeds exactly when the element count equals the shape's product, else it fails with both |
| OutputShape.ShapeOutput | libjpeg/utils.py:103-111 | success exactly when the output length is width × product of the shape; the odd length under a 16-bit view and the reshape mismatch are told apart |
| OutputShape.ShapeOutputKeepsBytes | libjpeg/utils.py:103-111 | the shaped array holds exactly the engine's output bytes |
| OutputShape.EightBitGreyscaleShape | libjpeg/utils.py:103-111 | 10000 bytes at 100 × 100, 1 component, 8 bits become a [100, 100] array of 1-byte elements |
| Utils.Normalize | libjpeg/utils.py:88-95 | a path becomes its file's bytes (or the open error), bytes get a uint8 view, anything else passes through |
| Utils.TranslateDecode | libjpeg/utils.py:98-124 | decode returns only on code 0: flat output unchanged, or the reshaped array when sizes agree; every other code raises with its text |
| Utils.DecodeOutcome | libjpeg/utils.py:56-124 | decode is the normalisation, one engine call and the translation of its reply |
| Utils.Decode | libjpeg/utils.py:56-124 | the step-by-step decode computes exactly DecodeOutcome |
| Utils.TranslateParameters | libjpeg/utils.py:217-234 | code 0 returns the engine's parameters; other codes raise the known or unknown text |
| Utils.GetParameters | libjpeg/utils.py:183-234 | the step-by-step get_parameters is the normalisation followed by TranslateParameters |
| Utils.ColoursTable | libjpeg/utils.py:155-161 | the table holds exactly the five labels, RGB mapped to 1 and the others to 0 |
| Utils.Label | libjpeg/utils.py:163-164 | the dataset's value when it has one, even an empty one, else the keyword argument |
| Utils.DatasetLabelTakesPrecedence | libjpeg/utils.py:163-164 | with a dataset value, the keyword argument does not affect the selection |
| Utils.EmptyDatasetLabelFails | libjpeg/utils.py:163-169 | an empty dataset value is the missing-label error whatever the keyword argument says |
| Utils.SelectTransform | libjpeg/utils.py:155-178 | a missing or empty label is an error; RGB gives 1, others 0; a label outside the table warns |
| Utils.DecodePixelData | libjpeg/utils.py:127-180 | the label check comes first, then decode with the selected transform and reshape off, so a success is flat |
| Utils.InvalidStreamReported | libjpeg/utils.py:97-119 | `-1036` is reported with its table description |
| Utils.GreyscaleDecodeShape | libjpeg/utils.py:97-111 | a successful 100 × 100 8-bit greyscale decode is shaped [100, 100] with 1-byte elements |
| PydicomHandler.SupportsTransferSyntax | libjpeg/tests/pydicom_handler.py:35-59 | true for exactly the six listed JPEG and JPEG-LS UIDs |
| PydicomHandler.NeedsToConvertToRgb | libjpeg/tests/pydicom_handler.py:62-68 | never true |
| PydicomHandler.ShouldChangePhotometricInterpretationToRgb | libjpeg/tests/pydicom_handler.py:71-77 | never true |
| PydicomHandler.MissingElements | libjpeg/tests/pydicom_handler.py:107-112 | an element is reported exactly when it is required and absent |
| PydicomHandler.MissingElementsOfConcat | libjpeg/tests/pydicom_handler.py:112 | the filter keeps the order of the required list |
| PydicomHandler.AdjustedLength | libjpeg/tests/pydicom_handler.py:121-124 | YBR_FULL_422 gives `expected // 2 * 3`, 3/2 of the length when it is even; other labels leave it |
| PydicomHandler.NumberOfFrames | libjpeg/tests/pydicom_handler.py:129 | the dataset's Number of Frames, or 1 when it is absent |
| PydicomHandler.FloorDiv | libjpeg/tests/pydicom_handler.py:130 | Python's `//`: the quotient rounded toward minus infinity |
| PydicomHandler.Offsets | libjpeg/tests/pydicom_handler.py:137 | `range(0, total, frame_len)` has `ceil(total / frame_len)` offsets |
| PydicomHandler.OffsetsAreMultiples | libjpeg/tests/pydicom_handler.py:137 | the offsets are exactly the multiples of the frame length below the total |
| PydicomHandler.Broadcast | libjpeg/tests/pydicom_handler.py:141-143 | a slice receives each value of an equal-length frame, or the single value of a length-1 frame everywhere |
| PydicomHandler.Assemble | libjpeg/tests/pydicom_handler.py:136-143 | the loop writes `min(frames × frame_len, total)` bytes, the clipped last slice included |
| PydicomHandler.AssembledAt | libjpeg/tests/pydicom_handler.py:138-143 | byte i of frame k's slice is what the assignment of frame k put there |
| PydicomHandler.AssembleSucceedsIff | libjpeg/tests/pydicom_handler.py:138-143 | the loop completes exactly when every frame decodes and fits its slice |
| PydicomHandler.FirstRejectedFrame | libjpeg/tests/pydicom_handler.py:138-143 | the exception raised is that of the first frame not accepted |
| PydicomHandler.Written | libjpeg/tests/pydicom_handler.py:137-138 | zip stops at the shorter of frames and offsets; a negative frame length writes nothing |
| PydicomHandler.FillFrames | libjpeg/tests/pydicom_handler.py:133-143 | the buffer's prefix is what Assemble describes and every position after it keeps its value, or the first frame's exception is returned |
| PydicomHandler.GetPixelData | libjpeg/tests/pydicom_handler.py:99-145 | the checks in source order (syntax, elements, zero frames, zero frame length), then the fill, then the item-size check |

## Left out

- The native engine (`_libjpeg.decode`, `_libjpeg.get_parameters`) is an oracle passed in as a function; nothing of libjpeg itself is modelled.
- The UTF-8 decoding of the status bytes: the status arrives as a string, so a `UnicodeDecodeError` is not modelled.
- File I/O: a path is modelled by the bytes the file holds; errors of `open` other than "cannot be opened" are not told apart.
- `reconstruct` (libjpeg/utils.py:237 on) only forwards to the engine's file-to-file command and is not part of this model.
- Text.ParseInt: accepts only an optional `-` and ASCII digits; Python's `int()` also accepts surrounding whitespace, `+`, underscores and non-ASCII digits.
- The uint16 view's byte order is numpy's native order, taken as the parameter `littleEndian`.
- `warnings.warn` is a side channel in the source; `Utils.DecodePixelData` returns the warning text instead.
- The engine's params dict is a record; a missing key (a `KeyError`) is not modelled.
- `reshape` is a `bool`; Python's `reshape is True` test on other values, which falls through to the error path with code 0, is not modelled.
- `decode_pixel_data` with `ds=None` raises `AttributeError` on `ds.get`; the dataset's label is modelled as an optional string instead.
- PydicomHandler.GetPixelData: the buffer positions no frame writes hold what `np.empty` left there and are not specified.
- PydicomHandler.GetPixelData: the final `arr.view(pixel_dtype(ds))` is modelled only by the check that the length is a multiple of the item size; the view's values are not.
- pydicom's `get_expected_length`, `generate_pixel_data_frame`, `pixel_dtype` and `group_dataset` are inputs; their errors (and the extra frame zip pulls from the generator before stopping) are not modelled.
- A dataset without `file_meta.TransferSyntaxUID` (an `AttributeError`) is not modelled: the transfer syntax is a field of `Dataset`.
- `is_available`, `HANDLER_NAME`, `DEPENDENCIES`, `setup.py`, `build.py`, `libjpeg/_config.py` and `libjpeg/__init__.py` are packaging and registration, not behaviour.
