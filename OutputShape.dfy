/** What decode does with the engine's output bytes on success with
    reshape=True (libjpeg/utils.py:102-111): pick the element width from
    the precision, re-view the bytes as uint16 when it is 2, and reshape
    to [rows, columns] or [rows, columns, nr_components]. */
module OutputShape {
  import opened Common

  /** The parameters the engine reports: params['rows'], ... */
  datatype Params = Params(rows: nat, columns: nat, nrComponents: nat, precision: nat)

  /** A numpy array: the width of one element in bytes, the elements, the shape. */
  datatype NdArray = NdArray(itemSize: nat, elems: seq<int>, shape: seq<nat>)

  /** `ceil(precision / 8)`. */
  function BytesPerSample(precision: nat): (n: nat)
    ensures 8 * n >= precision && 8 * (n - 1) < precision
  {
    (precision + 7) / 8
  }

  /** The element width decode uses: 2 bytes exactly when ceil(precision / 8) == 2. */
  function ElementWidth(precision: nat): (w: nat)
    ensures w == 2 <==> 9 <= precision <= 16
    ensures w == 1 <==> !(9 <= precision <= 16)
  {
    if BytesPerSample(precision) == 2 then 2 else 1
  }

  /** The shape list decode builds: rows and columns, plus the component
      count when there is more than one component. */
  function ShapeFor(p: Params): (shape: seq<nat>)
    ensures |shape| == (if p.nrComponents > 1 then 3 else 2)
    ensures shape[0] == p.rows && shape[1] == p.columns
    ensures p.nrComponents > 1 ==> shape[2] == p.nrComponents
    ensures Product(shape) == p.rows * p.columns * (if p.nrComponents > 1 then p.nrComponents else 1)
  {
    var shape := [p.rows, p.columns];
    assert Product(shape[1..]) == p.columns;
    if p.nrComponents > 1 then
      var s3 := shape + [p.nrComponents];
      assert s3[1..] == [p.columns, p.nrComponents];
      assert s3[1..][1..] == [p.nrComponents];
      assert [p.nrComponents][1..] == [];
      assert Product([p.nrComponents]) == p.nrComponents;
      assert Product(s3[1..]) == p.columns * p.nrComponents;
      assert p.rows * (p.columns * p.nrComponents) == p.rows * p.columns * p.nrComponents;
      s3
    else shape
  }

  /** The number of elements an array of this shape holds. */
  function Product(dims: seq<nat>): nat
  {
    if dims == [] then 1 else dims[0] * Product(dims[1..])
  }

  /** One uint16 read from two consecutive bytes in the platform's byte order. */
  function Word(first: byte, second: byte, littleEndian: bool): int
  {
    if littleEndian then first as int + 256 * second as int else 256 * first as int + second as int
  }

  /** `out.view('uint16')` on an even number of bytes (no copy, two bytes per element). */
  function View16(bytes: seq<byte>, littleEndian: bool): (words: seq<int>)
    requires |bytes| % 2 == 0
    ensures |words| == |bytes| / 2
    ensures forall k :: 0 <= k < |words| ==> 0 <= words[k] < 0x1_0000
  {
    seq(|bytes| / 2, k requires 0 <= k < |bytes| / 2 => Word(bytes[2 * k], bytes[2 * k + 1], littleEndian))
  }

  /** Byte `index` (0 = least significant) of a uint16. */
  function ByteOf(w: int, index: nat): byte
    requires 0 <= w < 0x1_0000 && index < 2
  {
    if index == 0 then (w % 256) as byte else (w / 256) as byte
  }

  /** The memory a uint16 array occupies, in the platform's byte order. */
  function WordBytes(words: seq<int>, littleEndian: bool): (bytes: seq<byte>)
    requires forall k :: 0 <= k < |words| ==> 0 <= words[k] < 0x1_0000
    ensures |bytes| == 2 * |words|
  {
    seq(2 * |words|, i requires 0 <= i < 2 * |words| =>
      ByteOf(words[i / 2], if littleEndian then i % 2 else 1 - i % 2))
  }

  /** The uint16 view does not change the memory: read back, it is the original bytes. */
  lemma WordBytesOfView16(bytes: seq<byte>, littleEndian: bool)
    requires |bytes| % 2 == 0
    ensures WordBytes(View16(bytes, littleEndian), littleEndian) == bytes
  {
    var words := View16(bytes, littleEndian);
    var back := WordBytes(words, littleEndian);
    forall i | 0 <= i < |bytes| ensures back[i] == bytes[i] {
      WordBytesOfView16At(bytes, littleEndian, i);
    }
  }

  lemma WordBytesOfView16At(bytes: seq<byte>, littleEndian: bool, i: nat)
    requires |bytes| % 2 == 0 && i < |bytes|
    ensures WordBytes(View16(bytes, littleEndian), littleEndian)[i] == bytes[i]
  {
    var words := View16(bytes, littleEndian);
    var k := i / 2;
    var first, second := bytes[2 * k], bytes[2 * k + 1];
    assert words[k] == Word(first, second, littleEndian);
    WordSplit(first, second, littleEndian);
    var index := if littleEndian then i % 2 else 1 - i % 2;
    assert WordBytes(words, littleEndian)[i] == ByteOf(words[k], index);
    if i % 2 == 0 {
      assert bytes[i] == first;
    } else {
      assert bytes[i] == second;
    }
  }

  lemma WordSplit(first: byte, second: byte, littleEndian: bool)
    ensures ByteOf(Word(first, second, littleEndian), if littleEndian then 0 else 1) == first
    ensures ByteOf(Word(first, second, littleEndian), if littleEndian then 1 else 0) == second
  {
    var lo, hi := if littleEndian then first else second, if littleEndian then second else first;
    assert Word(first, second, littleEndian) == lo as int + 256 * hi as int;
    assert (lo as int + 256 * hi as int) % 256 == lo as int;
    assert (lo as int + 256 * hi as int) / 256 == hi as int;
  }

  /** Viewing the memory of a uint16 array as uint16 gives the array back. */
  lemma View16OfWordBytes(words: seq<int>, littleEndian: bool)
    requires forall k :: 0 <= k < |words| ==> 0 <= words[k] < 0x1_0000
    ensures View16(WordBytes(words, littleEndian), littleEndian) == words
  {
    var bytes := WordBytes(words, littleEndian);
    var back := View16(bytes, littleEndian);
    forall k | 0 <= k < |words| ensures back[k] == words[k] {
      assert (2 * k) / 2 == k && (2 * k + 1) / 2 == k;
      assert (2 * k) % 2 == 0 && (2 * k + 1) % 2 == 1;
      assert words[k] == words[k] % 256 + 256 * (words[k] / 256);
    }
  }

  /** uint8 bytes as array elements. */
  function Widen(bytes: seq<byte>): (elems: seq<int>)
    ensures |elems| == |bytes|
  {
    seq(|bytes|, i requires 0 <= i < |bytes| => bytes[i] as int)
  }

  /** `elems.reshape(*shape)`: only when the element count is the shape's product. */
  function Reshape(elems: seq<int>, itemSize: nat, shape: seq<nat>): (r: Result<NdArray, Error>)
    ensures r.Success? <==> |elems| == Product(shape)
    ensures r.Success? ==> r.value == NdArray(itemSize, elems, shape)
    ensures r.Failure? ==> r.error == ReshapeMismatch(|elems|, shape)
  {
    if |elems| == Product(shape) then Success(NdArray(itemSize, elems, shape))
    else Failure(ReshapeMismatch(|elems|, shape))
  }

  /** An array whose elements fit its element width. */
  predicate WellFormed(a: NdArray)
  {
    && (a.itemSize == 1 || a.itemSize == 2)
    && forall k :: 0 <= k < |a.elems| ==> 0 <= a.elems[k] < (if a.itemSize == 1 then 0x100 else 0x1_0000)
  }

  /** The memory an array occupies. */
  function ArrayBytes(a: NdArray, littleEndian: bool): (bytes: seq<byte>)
    requires WellFormed(a)
  {
    if a.itemSize == 2 then WordBytes(a.elems, littleEndian)
    else seq(|a.elems|, i requires 0 <= i < |a.elems| => a.elems[i] as byte)
  }

  /** The re-view and reshape of the engine's output on success with reshape=True. */
  function ShapeOutput(out: seq<byte>, p: Params, littleEndian: bool): (r: Result<NdArray, Error>)
    ensures r.Success? <==> |out| == ElementWidth(p.precision) * Product(ShapeFor(p))
    ensures r.Success? ==> WellFormed(r.value)
    ensures r.Success? ==> r.value.itemSize == ElementWidth(p.precision) && r.value.shape == ShapeFor(p)
    ensures r.Success? ==> |r.value.elems| * r.value.itemSize == |out|
    ensures r.Failure? && ElementWidth(p.precision) == 2 && |out| % 2 != 0 ==> r.error == ViewMismatch(|out|)
    ensures r.Failure? && (ElementWidth(p.precision) == 1 || |out| % 2 == 0) ==> r.error.ReshapeMismatch?
  {
    if ElementWidth(p.precision) == 2 then
      if |out| % 2 != 0 then Failure(ViewMismatch(|out|))
      else Reshape(View16(out, littleEndian), 2, ShapeFor(p))
    else Reshape(Widen(out), 1, ShapeFor(p))
  }

  /** The shaped array is a view of the engine's output: its memory is exactly those bytes. */
  lemma ShapeOutputKeepsBytes(out: seq<byte>, p: Params, littleEndian: bool)
    requires ShapeOutput(out, p, littleEndian).Success?
    ensures ArrayBytes(ShapeOutput(out, p, littleEndian).value, littleEndian) == out
  {
    if ElementWidth(p.precision) == 2 {
      WordBytesOfView16(out, littleEndian);
    } else {
      var a := ShapeOutput(out, p, littleEndian).value;
      assert ArrayBytes(a, littleEndian) == out;
    }
  }

  /** A 100 x 100 single-component 8-bit image is returned as a [100, 100] array of bytes. */
  lemma EightBitGreyscaleShape(out: seq<byte>)
    requires |out| == 10000
    ensures var r := ShapeOutput(out, Params(100, 100, 1, 8), true);
            r.Success? && r.value.shape == [100, 100] && r.value.itemSize == 1
  {
  }
}
