/**
 numpy's fixed-width unsigned integer types and the byte layout of
 `array.tostring()` / `numpy.fromstring(bytes, dtype)`: every element occupies
 `Size()` bytes, least significant byte first.
 */
module FixedWidth {

  import opened Py
  import Numerals

  /** The unsigned dtypes the codec is used with: 'uint8', 'uint16' and 'uint32'. */
  datatype Width = UInt8 | UInt16 | UInt32 {

    /** Bytes per element. */
    function Size(): (n: nat)
      ensures n == 1 || n == 2 || n == 4
    {
      match this
      case UInt8 => 1
      case UInt16 => 2
      case UInt32 => 4
    }

    /** 2^w: the number of representable values. */
    function Modulus(): (m: nat)
      ensures m == Numerals.Pow(256, Size())
    {
      match this
      case UInt8 => 0x100
      case UInt16 => 0x1_0000
      case UInt32 => 0x1_0000_0000
    }

    /** `numpy.iinfo(dtype).max`. */
    function Max(): nat {
      Modulus() - 1
    }
  }

  /** `astype` of an integer to an unsigned width: two's-complement truncation,
      i.e. the representative of `x` modulo 2^w. */
  function Wrap(x: int, w: Width): (r: nat)
    ensures r < w.Modulus()
    ensures 0 <= x < w.Modulus() ==> r == x
    ensures (x - r) % w.Modulus() == 0
  {
    x % w.Modulus()
  }

  /** The `k` bytes of `x`, least significant first. */
  function ToLittleEndian(x: nat, k: nat): (b: seq<Byte>)
    requires x < Numerals.Pow(256, k)
    ensures |b| == k
  {
    if k == 0 then [] else ByteBelow(x, k); [x % 256] + ToLittleEndian(x / 256, k - 1)
  }

  lemma ByteBelow(x: nat, k: nat)
    requires k > 0 && x < Numerals.Pow(256, k)
    ensures x / 256 < Numerals.Pow(256, k - 1)
  {
  }

  /** The number whose bytes, least significant first, are `b`. */
  function FromLittleEndian(b: seq<Byte>): (x: nat)
    ensures x < Numerals.Pow(256, |b|)
  {
    if |b| == 0 then 0 else b[0] + 256 * FromLittleEndian(b[1..])
  }

  lemma {:induction false} FromToLittleEndian(x: nat, k: nat)
    requires x < Numerals.Pow(256, k)
    ensures FromLittleEndian(ToLittleEndian(x, k)) == x
  {
    if k > 0 {
      ByteBelow(x, k);
      FromToLittleEndian(x / 256, k - 1);
      assert ToLittleEndian(x, k) == [x % 256] + ToLittleEndian(x / 256, k - 1);
      LowByte(x, ToLittleEndian(x / 256, k - 1));
    }
  }

  lemma {:induction false} ToFromLittleEndian(b: seq<Byte>)
    ensures ToLittleEndian(FromLittleEndian(b), |b|) == b
  {
    if |b| > 0 {
      ToFromLittleEndian(b[1..]);
      SplitLowByte(b[0], b[1..]);
      assert b == [b[0]] + b[1..];
    }
  }

  lemma LowByte(x: nat, high: seq<Byte>)
    requires FromLittleEndian(high) == x / 256
    ensures FromLittleEndian([x % 256] + high) == x
  {
    assert ([x % 256] + high)[1..] == high;
  }

  lemma SplitLowByte(low: Byte, high: seq<Byte>)
    ensures FromLittleEndian([low] + high) % 256 == low
    ensures FromLittleEndian([low] + high) / 256 == FromLittleEndian(high)
  {
    assert ([low] + high)[1..] == high;
  }

  predicate Fits(values: seq<int>, w: Width) {
    forall i :: 0 <= i < |values| ==> 0 <= values[i] < w.Modulus()
  }

  /** `array.tostring()` of an array of dtype `w`. */
  function Serialize(values: seq<int>, w: Width): (b: seq<Byte>)
    requires Fits(values, w)
    ensures |b| == |values| * w.Size()
  {
    if |values| == 0 then []
    else ToLittleEndian(values[0], w.Size()) + Serialize(values[1..], w)
  }

  /** Splits `b` into `n` elements of `k` bytes each. */
  function Chunks(b: seq<Byte>, k: nat, n: nat): (values: seq<int>)
    requires k > 0 && |b| == n * k
    ensures |values| == n
    ensures forall i :: 0 <= i < n ==> 0 <= values[i] < Numerals.Pow(256, k)
  {
    if n == 0 then []
    else
      MulStep(n, k);
      [FromLittleEndian(b[..k])] + Chunks(b[k..], k, n - 1)
  }

  lemma MulStep(n: nat, k: nat)
    requires n > 0
    ensures n * k == k + (n - 1) * k
  {
  }

  lemma DivExact(m: nat, k: nat)
    requires k > 0 && m % k == 0
    ensures m == (m / k) * k
  {
  }

  /** `numpy.fromstring(b, dtype)`: fails when the buffer is not a whole number of elements. */
  function Deserialize(b: seq<Byte>, w: Width): (r: Result<seq<int>>)
    ensures r.Raise? <==> |b| % w.Size() != 0
    ensures r.Ok? ==> Fits(r.value, w) && |r.value| * w.Size() == |b|
  {
    if |b| % w.Size() != 0 then Raise(ValueError)
    else
      DivExact(|b|, w.Size());
      Ok(Chunks(b, w.Size(), |b| / w.Size()))
  }

  /** Element `i` of a serialized array occupies bytes `i*k .. (i+1)*k`, least significant first. */
  lemma {:induction false} SerializeElement(values: seq<int>, w: Width, i: nat)
    requires Fits(values, w) && i < |values|
    ensures (i + 1) * w.Size() <= |Serialize(values, w)|
    ensures Serialize(values, w)[i * w.Size()..(i + 1) * w.Size()] == ToLittleEndian(values[i], w.Size())
  {
    var k := w.Size();
    var head, tail := ToLittleEndian(values[0], k), Serialize(values[1..], w);
    SerializeCons(values, w);
    MulStep(i + 1, k);
    if i > 0 {
      SerializeElement(values[1..], w, i - 1);
      MulStep(i, k);
      SliceShift(head, tail, (i - 1) * k, i * k);
    } else {
      assert (head + tail)[..k] == head;
    }
  }

  lemma SerializeCons(values: seq<int>, w: Width)
    requires Fits(values, w) && |values| > 0
    ensures Serialize(values, w) == ToLittleEndian(values[0], w.Size()) + Serialize(values[1..], w)
  {
  }

  /** A slice of the tail of a concatenation, located from the start of the whole. */
  lemma SliceShift<T>(h: seq<T>, t: seq<T>, a: nat, b: nat)
    requires a <= b <= |t|
    ensures (h + t)[|h| + a..|h| + b] == t[a..b]
  {
  }

  /** Reading back a serialized array gives the same elements. */
  lemma DeserializeSerialize(values: seq<int>, w: Width)
    requires Fits(values, w)
    ensures Deserialize(Serialize(values, w), w) == Ok(values)
  {
    var b := Serialize(values, w);
    assert |b| / w.Size() == |values|;
    ChunksSerialize(values, w);
  }

  lemma {:induction false} ChunksSerialize(values: seq<int>, w: Width)
    requires Fits(values, w)
    ensures Chunks(Serialize(values, w), w.Size(), |values|) == values
  {
    var k := w.Size();
    var b := Serialize(values, w);
    if |values| > 0 {
      var head := ToLittleEndian(values[0], k);
      assert b == head + Serialize(values[1..], w);
      assert b[..k] == head && b[k..] == Serialize(values[1..], w);
      FromToLittleEndian(values[0], k);
      ChunksSerialize(values[1..], w);
      assert values == [values[0]] + values[1..];
    }
  }

  /** Every whole number of elements is the serialization of what it reads back as. */
  lemma SerializeDeserialize(b: seq<Byte>, w: Width)
    requires Deserialize(b, w).Ok?
    ensures Serialize(Deserialize(b, w).value, w) == b
  {
    DivExact(|b|, w.Size());
    SerializeChunks(b, w, |b| / w.Size());
  }

  lemma {:induction false} SerializeChunks(b: seq<Byte>, w: Width, n: nat)
    requires |b| == n * w.Size()
    ensures Fits(Chunks(b, w.Size(), n), w)
    ensures Serialize(Chunks(b, w.Size(), n), w) == b
  {
    var k := w.Size();
    var values := Chunks(b, k, n);
    if n > 0 {
      ChunksCons(b, k, n);
      var x, rest := FromLittleEndian(b[..k]), Chunks(b[k..], k, n - 1);
      SerializeChunks(b[k..], w, n - 1);
      FitsCons(x, rest, w);
      assert values[0] == x && values[1..] == rest;
      SerializeCons(values, w);
      ToFromLittleEndian(b[..k]);
      SplitAt(b, k);
    }
  }

  lemma SplitAt<T>(s: seq<T>, k: nat)
    requires k <= |s|
    ensures s == s[..k] + s[k..]
  {
  }

  lemma FitsCons(x: int, rest: seq<int>, w: Width)
    requires 0 <= x < w.Modulus() && Fits(rest, w)
    ensures Fits([x] + rest, w)
  {
    assert forall i :: 1 <= i < |rest| + 1 ==> ([x] + rest)[i] == rest[i - 1];
  }

  lemma ChunksCons(b: seq<Byte>, k: nat, n: nat)
    requires k > 0 && n > 0 && |b| == n * k
    ensures k <= |b| && |b[k..]| == (n - 1) * k
    ensures Chunks(b, k, n) == [FromLittleEndian(b[..k])] + Chunks(b[k..], k, n - 1)
  {
    MulStep(n, k);
  }
}
