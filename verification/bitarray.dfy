/**
 The two conversions of the `bitarray` package the extended status uses, with
 the package's default big-endian bit order: bit 0 of the array is the most
 significant bit of byte 0.
 */
module BitArray {

  import opened Py
  import Numerals

  /** The number whose binary digits, most significant first, are `bits`. */
  function FromBits(bits: seq<bool>): (x: nat)
    ensures x < Numerals.Pow(2, |bits|)
  {
    if |bits| == 0 then 0 else FromBits(bits[..|bits| - 1]) * 2 + Bit(bits[|bits| - 1])
  }

  /** The `k` binary digits of `x`, most significant first. */
  function ToBits(x: nat, k: nat): (bits: seq<bool>)
    requires x < Numerals.Pow(2, k)
    ensures |bits| == k
  {
    if k == 0 then [] else HalfBelow(x, k); ToBits(x / 2, k - 1) + [x % 2 == 1]
  }

  lemma HalfBelow(x: nat, k: nat)
    requires k > 0 && x < Numerals.Pow(2, k)
    ensures x / 2 < Numerals.Pow(2, k - 1)
  {
  }

  lemma {:induction false} FromToBits(x: nat, k: nat)
    requires x < Numerals.Pow(2, k)
    ensures FromBits(ToBits(x, k)) == x
  {
    if k > 0 {
      HalfBelow(x, k);
      FromToBits(x / 2, k - 1);
      assert ToBits(x, k) == ToBits(x / 2, k - 1) + [x % 2 == 1];
      LowBit(x, ToBits(x / 2, k - 1));
    }
  }

  lemma LowBit(x: nat, high: seq<bool>)
    requires FromBits(high) == x / 2
    ensures FromBits(high + [x % 2 == 1]) == x
  {
    FromBitsSnoc(high, x % 2 == 1);
  }

  lemma SplitLowBit(high: seq<bool>, low: bool)
    ensures FromBits(high + [low]) / 2 == FromBits(high)
    ensures FromBits(high + [low]) % 2 == 1 <==> low
  {
    FromBitsSnoc(high, low);
  }

  /** Appending a bit doubles the number and adds the bit. */
  lemma FromBitsSnoc(prefix: seq<bool>, b: bool)
    ensures FromBits(prefix + [b]) == FromBits(prefix) * 2 + Bit(b)
  {
    assert (prefix + [b])[..|prefix|] == prefix;
  }

  lemma {:induction false} ToFromBits(bits: seq<bool>)
    ensures ToBits(FromBits(bits), |bits|) == bits
  {
    if |bits| > 0 {
      var high, low := bits[..|bits| - 1], bits[|bits| - 1];
      ToFromBits(high);
      assert bits == high + [low];
      SplitLowBit(high, low);
    }
  }

  lemma Pow2Eight()
    ensures Numerals.Pow(2, 8) == 256
  {
  }

  function Falses(k: nat): (s: seq<bool>)
    ensures |s| == k
    ensures forall i :: 0 <= i < k ==> !s[i]
  {
    seq(k, i => false)
  }

  /** The number of zero bits `tobytes` appends to fill the last byte. */
  function Padding(n: nat): (p: nat)
    ensures p < 8 && (n + p) % 8 == 0
  {
    if n % 8 == 0 then 0 else 8 - n % 8
  }

  lemma ModEightStep(n: nat)
    requires n >= 8
    ensures (n - 8) % 8 == n % 8
  {
  }

  /** `bitarray.tobytes()`: eight bits per byte, the last byte filled with zero bits. */
  function Pack(bits: seq<bool>): (b: seq<Byte>)
    ensures |b| == (|bits| + 7) / 8
    decreases |bits|
  {
    Pow2Eight();
    if |bits| == 0 then []
    else if |bits| < 8 then [FromBits(bits + Falses(8 - |bits|))]
    else [FromBits(bits[..8])] + Pack(bits[8..])
  }

  /** `bitarray.frombytes(b)` on an empty bit array: eight bits per byte. */
  function Unpack(b: seq<Byte>): (bits: seq<bool>)
    ensures |bits| == 8 * |b|
  {
    Pow2Eight();
    if |b| == 0 then [] else ToBits(b[0], 8) + Unpack(b[1..])
  }

  lemma UnpackPackShort(bits: seq<bool>)
    requires 0 < |bits| < 8
    ensures Unpack(Pack(bits)) == bits + Falses(Padding(|bits|))
  {
    PaddingShort(|bits|);
    var full := bits + Falses(8 - |bits|);
    PackShort(bits);
    UnpackSingle(FromBits(full));
    ToFromBits(full);
  }

  lemma PackShort(bits: seq<bool>)
    requires 0 < |bits| < 8
    ensures FromBits(bits + Falses(8 - |bits|)) < 256
    ensures Pack(bits) == [FromBits(bits + Falses(8 - |bits|))]
  {
    Pow2Eight();
  }

  lemma UnpackSingle(x: Byte)
    ensures x < Numerals.Pow(2, 8)
    ensures Unpack([x]) == ToBits(x, 8)
  {
    Pow2Eight();
    assert [x][1..] == [];
  }

  lemma PaddingShort(n: nat)
    requires 0 < n < 8
    ensures Padding(n) == 8 - n
  {
  }

  lemma UnpackPackStep(bits: seq<bool>)
    requires |bits| >= 8
    requires Unpack(Pack(bits[8..])) == bits[8..] + Falses(Padding(|bits| - 8))
    ensures Unpack(Pack(bits)) == bits + Falses(Padding(|bits|))
  {
    PaddingStep(|bits|);
    UnpackPackHead(bits);
    Reassociate(bits, Unpack(Pack(bits)), Unpack(Pack(bits[8..])), Falses(Padding(|bits|)));
  }

  lemma Reassociate(bits: seq<bool>, u: seq<bool>, r: seq<bool>, f: seq<bool>)
    requires |bits| >= 8 && u == bits[..8] + r && r == bits[8..] + f
    ensures u == bits + f
  {
    assert bits == bits[..8] + bits[8..];
  }

  lemma UnpackPackHead(bits: seq<bool>)
    requires |bits| >= 8
    ensures Unpack(Pack(bits)) == bits[..8] + Unpack(Pack(bits[8..]))
  {
    Pow2Eight();
    ToFromBits(bits[..8]);
    var p := Pack(bits);
    assert p[1..] == Pack(bits[8..]);
  }

  lemma PaddingStep(n: nat)
    requires n >= 8
    ensures Padding(n - 8) == Padding(n)
  {
    ModEightStep(n);
  }

  /** Unpacking packed bits gives them back, followed by the zero padding. */
  lemma {:induction false} UnpackPack(bits: seq<bool>)
    ensures Unpack(Pack(bits)) == bits + Falses(Padding(|bits|))
    decreases |bits|
  {
    if |bits| == 0 {
      assert bits + Falses(0) == [];
    } else if |bits| < 8 {
      UnpackPackShort(bits);
    } else {
      UnpackPack(bits[8..]);
      UnpackPackStep(bits);
    }
  }

  /** A whole number of bytes of bits is packed without padding and unpacks to itself. */
  lemma UnpackPackWhole(bits: seq<bool>)
    requires |bits| % 8 == 0
    ensures Unpack(Pack(bits)) == bits
  {
    UnpackPack(bits);
    assert Padding(|bits|) == 0;
    assert bits + Falses(0) == bits;
  }

  /** Packing unpacked bytes gives them back. */
  lemma {:induction false} PackUnpack(b: seq<Byte>)
    ensures Pack(Unpack(b)) == b
  {
    Pow2Eight();
    if |b| > 0 {
      var bits := Unpack(b);
      var head := ToBits(b[0], 8);
      assert bits[..8] == head && bits[8..] == Unpack(b[1..]);
      FromToBits(b[0], 8);
      PackUnpack(b[1..]);
      assert b == [b[0]] + b[1..];
    }
  }
}
