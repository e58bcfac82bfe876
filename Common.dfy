/** Value types shared by the whole model: bytes, the Option and Result
    wrappers, and the exceptions that libjpeg/utils.py lets escape to its
    callers. */
module Common {

  /** One unsigned 8-bit sample or encoded byte (numpy's uint8). */
  newtype byte = x: int | 0 <= x < 256

  datatype Option<T> = None | Some(value: T)

  datatype Result<T, E> = Success(value: T) | Failure(error: E)

  function Min(a: int, b: int): int
  {
    if a <= b then a else b
  }

  /** The exceptions raised by decode, get_parameters and decode_pixel_data. */
  datatype Error =
      /** open() on a path that cannot be read */
    | FileNotFound
      /** `code, msg = status.split("::::")` got the wrong number of parts */
    | StatusPartCount(parts: nat)
      /** `int(code)` rejected the part left of the delimiter */
    | StatusCodeNotInteger(text: string)
      /** the RuntimeError raised for every nonzero engine code */
    | Runtime(text: string)
      /** `out.view('uint16')` on an odd number of bytes */
    | ViewMismatch(byteCount: nat)
      /** `out.reshape(*shape)` when the element count does not match */
    | ReshapeMismatch(elementCount: nat, shape: seq<nat>)
      /** the ValueError raised when no Photometric Interpretation is known */
    | MissingPhotometric(text: string)
}
