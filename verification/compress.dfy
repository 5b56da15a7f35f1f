/**
 The array codec of piccolo2/PiccoloCompress.py: an integer array is cast to
 a fixed unsigned width, laid out little-endian, deflated and base64-encoded;
 `CompressAsDiff` stores the first differences at a narrow width when they fit
 and otherwise the array itself at a fallback width.

 zlib is not modelled: the compressor is a parameter, and the round-trip
 lemmas assume only that its decompressor undoes it (`Lossless`).
 */
module Compress {

  import opened Py
  import opened FixedWidth
  import Base64

  /** `zlib.compress` and `zlib.decompress`. */
  datatype Zlib = Zlib(compress: seq<Byte> -> seq<Byte>, decompress: seq<Byte> -> Result<seq<Byte>>)

  /** Decompressing what was compressed gives it back (RFC 1950 and RFC 1951 promise this). */
  ghost predicate Lossless(z: Zlib) {
    forall data :: z.decompress(z.compress(data)) == Ok(data)
  }

  /** The element type of a numpy integer array: an unsigned fixed width, or a signed
      type wide enough that no sum or difference formed here overflows. */
  datatype DType = Unsigned(width: Width) | Signed

  datatype NdArray = NdArray(dtype: DType, values: seq<int>)

  /** Every element is representable in the array's dtype. */
  predicate WellTyped(a: NdArray) {
    a.dtype.Unsigned? ==> Fits(a.values, a.dtype.width)
  }

  /** `array.astype(dtype)`, skipped when the array already has that dtype (source line 9). */
  function AsType(a: NdArray, w: Width): (r: NdArray)
    requires WellTyped(a)
    ensures r.dtype == Unsigned(w) && WellTyped(r)
    ensures |r.values| == |a.values|
    ensures forall i :: 0 <= i < |a.values| ==> r.values[i] == Wrap(a.values[i], w)
  {
    if a.dtype == Unsigned(w) then a
    else NdArray(Unsigned(w), seq(|a.values|, i requires 0 <= i < |a.values| => Wrap(a.values[i], w)))
  }

  /** `array.tostring()` after the cast. */
  function ToBytes(a: NdArray, w: Width): (b: seq<Byte>)
    requires WellTyped(a)
    ensures |b| == |a.values| * w.Size()
  {
    Serialize(AsType(a, w).values, w)
  }

  /** `compressArray(array, dtype)`. */
  function CompressArray(z: Zlib, a: NdArray, w: Width): (text: string)
    requires WellTyped(a)
    ensures Base64.Decode(text) == Ok(z.compress(ToBytes(a, w)))
  {
    Base64.DecodeEncode(z.compress(ToBytes(a, w)));
    Base64.Encode(z.compress(ToBytes(a, w)))
  }

  /** `decompressArray(b64_data, dtype)`: each of the three steps can fail. */
  function DecompressArray(z: Zlib, text: string, w: Width): (r: Result<NdArray>)
    ensures Base64.Decode(text).Raise? ==> r == Raise(TypeError)
    ensures r.Ok? ==> r.value.dtype == Unsigned(w) && WellTyped(r.value)
    ensures r.Ok? ==> Base64.Decode(text).Ok? && z.decompress(Base64.Decode(text).value).Ok?
    ensures r.Ok? ==> Serialize(r.value.values, w) == z.decompress(Base64.Decode(text).value).value
  {
    var compressed :- Base64.Decode(text);
    var bytes :- z.decompress(compressed);
    var values :- Deserialize(bytes, w);
    SerializeDeserialize(bytes, w);
    Ok(NdArray(Unsigned(w), values))
  }

  /** The serialized buffer holds every element, reduced modulo 2^w, in `w/8`
      little-endian bytes at offset `i*w/8`. */
  lemma ToBytesLayout(a: NdArray, w: Width, i: nat)
    requires WellTyped(a) && i < |a.values|
    ensures |ToBytes(a, w)| == |a.values| * w.Size()
    ensures (i + 1) * w.Size() <= |ToBytes(a, w)|
    ensures ToBytes(a, w)[i * w.Size()..(i + 1) * w.Size()] == ToLittleEndian(Wrap(a.values[i], w), w.Size())
  {
    SerializeElement(AsType(a, w).values, w, i);
  }

  /** Decompressing a compressed array gives the array cast to the width. */
  lemma CompressRoundTrip(z: Zlib, a: NdArray, w: Width)
    requires Lossless(z) && WellTyped(a)
    ensures DecompressArray(z, CompressArray(z, a, w), w) == Ok(AsType(a, w))
  {
    var b := ToBytes(a, w);
    Base64.DecodeEncode(z.compress(b));
    assert z.decompress(z.compress(b)) == Ok(b);
    DeserializeSerialize(AsType(a, w).values, w);
  }

  /** The round trip the module asserts (source line 48): an array whose values
      fit the width comes back element for element. */
  lemma CompressRoundTripFits(z: Zlib, a: NdArray, w: Width)
    requires Lossless(z) && WellTyped(a) && Fits(a.values, w)
    ensures DecompressArray(z, CompressArray(z, a, w), w) == Ok(NdArray(Unsigned(w), a.values))
  {
    CompressRoundTrip(z, a, w);
    assert AsType(a, w).values == a.values;
  }

  /** A payload whose inflated length is not a whole number of elements is refused. */
  lemma DecompressRejectsPartialElement(z: Zlib, text: string, w: Width)
    requires Base64.Decode(text).Ok?
    requires z.decompress(Base64.Decode(text).value).Ok?
    requires |z.decompress(Base64.Decode(text).value).value| % w.Size() != 0
    ensures DecompressArray(z, text, w) == Raise(ValueError)
  {
  }

  /** `a - b` in the dtype of the array: wraps modulo 2^w for an unsigned dtype. */
  function Sub(x: int, y: int, t: DType): int {
    match t
    case Unsigned(w) => Wrap(x - y, w)
    case Signed => x - y
  }

  /** `numpy.diff`: `values[i+1] - values[i]` in the array's dtype, one element fewer. */
  function Diff(a: NdArray): (d: NdArray)
    requires WellTyped(a)
    ensures d.dtype == a.dtype && WellTyped(d)
    ensures |d.values| == if |a.values| == 0 then 0 else |a.values| - 1
  {
    var n := if |a.values| == 0 then 0 else |a.values| - 1;
    NdArray(a.dtype, seq(n, i requires 0 <= i < n => Sub(a.values[i + 1], a.values[i], a.dtype)))
  }

  /** `numpy.abs`: the identity on an unsigned dtype. */
  function Abs(x: int, t: DType): int {
    if t.Signed? && x < 0 then -x else x
  }

  /** `numpy.max`: the largest element; an empty array raises ValueError. */
  function MaxOf(s: seq<int>): (r: Result<int>)
    ensures r.Raise? <==> |s| == 0
    ensures r.Raise? ==> r.exception == ValueError
    ensures r.Ok? ==> (exists i :: 0 <= i < |s| && s[i] == r.value)
    ensures r.Ok? ==> forall i :: 0 <= i < |s| ==> s[i] <= r.value
  {
    if |s| == 0 then Raise(ValueError)
    else if |s| == 1 then Ok(s[0])
    else
      var m := MaxOf(s[1..]).value;
      assert forall i :: 1 <= i < |s| ==> s[i] == s[1..][i - 1];
      Ok(if s[0] >= m then s[0] else m)
  }

  /** Every first difference, taken in absolute value, is strictly below the narrow maximum. */
  ghost predicate DiffsFit(a: NdArray, narrow: Width)
    requires WellTyped(a)
  {
    forall i :: 0 <= i < |Diff(a).values| ==> Abs(Diff(a).values[i], a.dtype) < narrow.Max()
  }

  /** `compressAsDiff(array, dtype, fallback_dtype)`. */
  function CompressAsDiff(z: Zlib, a: NdArray, narrow: Width, fallback: Width): (r: Result<(bool, string)>)
    requires WellTyped(a)
    ensures r.Raise? <==> |a.values| < 2
    ensures r.Raise? ==> r.exception == ValueError
    ensures r.Ok? && r.value.0 ==> Base64.Decode(r.value.1) == Ok(z.compress(ToBytes(Diff(a), narrow)))
    ensures r.Ok? && !r.value.0 ==> Base64.Decode(r.value.1) == Ok(z.compress(ToBytes(a, fallback)))
  {
    var d := Diff(a);
    var m :- MaxOf(seq(|d.values|, i requires 0 <= i < |d.values| => Abs(d.values[i], a.dtype)));
    if m < narrow.Max() then Ok((true, CompressArray(z, d, narrow)))
    else Ok((false, CompressArray(z, a, fallback)))
  }

  /** The differences are stored exactly when every one of them is strictly below the
      narrow maximum, and otherwise the array itself is stored at the fallback width;
      fewer than two elements leave no difference to take the maximum of. */
  lemma CompressAsDiffDecision(z: Zlib, a: NdArray, narrow: Width, fallback: Width)
    requires WellTyped(a)
    ensures CompressAsDiff(z, a, narrow, fallback).Raise? <==> |a.values| < 2
    ensures |a.values| < 2 ==> CompressAsDiff(z, a, narrow, fallback) == Raise(ValueError)
    ensures |a.values| >= 2 && DiffsFit(a, narrow) ==>
      CompressAsDiff(z, a, narrow, fallback) == Ok((true, CompressArray(z, Diff(a), narrow)))
    ensures |a.values| >= 2 && !DiffsFit(a, narrow) ==>
      CompressAsDiff(z, a, narrow, fallback) == Ok((false, CompressArray(z, a, fallback)))
  {
    var d := Diff(a);
    var abs := seq(|d.values|, i requires 0 <= i < |d.values| => Abs(d.values[i], a.dtype));
    var m := MaxOf(abs);
    if |a.values| >= 2 {
      if DiffsFit(a, narrow) {
        var k :| 0 <= k < |abs| && abs[k] == m.value;
      } else {
        var k :| 0 <= k < |d.values| && Abs(d.values[k], a.dtype) >= narrow.Max();
        assert abs[k] <= m.value;
      }
    }
  }

  /** The fallback payload decodes to the array cast to the fallback width. */
  lemma CompressAsDiffFallback(z: Zlib, a: NdArray, narrow: Width, fallback: Width)
    requires Lossless(z) && WellTyped(a) && Fits(a.values, fallback)
    requires CompressAsDiff(z, a, narrow, fallback).Ok?
    requires !CompressAsDiff(z, a, narrow, fallback).value.0
    ensures DecompressArray(z, CompressAsDiff(z, a, narrow, fallback).value.1, fallback)
      == Ok(NdArray(Unsigned(fallback), a.values))
  {
    CompressAsDiffDecision(z, a, narrow, fallback);
    CompressRoundTripFits(z, a, fallback);
  }

  /** The example of a step too large for eight bits: [100, 105, 103, 2000] has
      differences [5, -2, 1897], so it is stored whole at sixteen bits and decodes to itself. */
  lemma CompressAsDiffExample(z: Zlib)
    requires Lossless(z)
    ensures var a := NdArray(Signed, [100, 105, 103, 2000]);
      && Diff(a).values == [5, -2, 1897]
      && CompressAsDiff(z, a, UInt8, UInt16) == Ok((false, CompressArray(z, a, UInt16)))
      && DecompressArray(z, CompressAsDiff(z, a, UInt8, UInt16).value.1, UInt16) == Ok(NdArray(Unsigned(UInt16), a.values))
  {
    var a := NdArray(Signed, [100, 105, 103, 2000]);
    ExampleDiffs(a);
    CompressAsDiffDecision(z, a, UInt8, UInt16);
    CompressRoundTripFits(z, a, UInt16);
  }

  lemma ExampleDiffs(a: NdArray)
    requires a == NdArray(Signed, [100, 105, 103, 2000])
    ensures Diff(a).values == [5, -2, 1897]
    ensures WellTyped(a) && !DiffsFit(a, UInt8) && Fits(a.values, UInt16)
  {
    assert Diff(a).values == [5, -2, 1897];
    assert Abs(Diff(a).values[2], Signed) >= UInt8.Max();
  }

  /** The comparison is strict: a step of exactly 255 already falls back from 'uint8'. */
  lemma CompressAsDiffStrict(z: Zlib)
    ensures CompressAsDiff(z, NdArray(Signed, [0, 255]), UInt8, UInt16).Ok?
    ensures !CompressAsDiff(z, NdArray(Signed, [0, 255]), UInt8, UInt16).value.0
  {
    var a := NdArray(Signed, [0, 255]);
    assert Diff(a).values[0] == 255;
    CompressAsDiffDecision(z, a, UInt8, UInt16);
  }

  // ---------------------------------------------------------------------------
  // Rebuilding an array from its stored differences. The payload carries no first
  // sample, so the caller supplies it.

  /** Adds a difference in the dtype of the original array. */
  function Add(x: int, d: int, t: DType): int {
    match t
    case Unsigned(w) => Wrap(x + d, w)
    case Signed => x + d
  }

  /** Running sums: the array whose first sample is `first` and whose differences are `diffs`. */
  function Undiff(first: int, diffs: seq<int>, t: DType): (r: seq<int>)
    ensures |r| == |diffs| + 1 && r[0] == first
    decreases |diffs|
  {
    [first] + if |diffs| == 0 then [] else Undiff(Add(first, diffs[0], t), diffs[1..], t)
  }

  /** Reads a stored narrow difference back as a difference of the original dtype: as is for an
      unsigned array, and as a two's-complement number of the narrow width for a signed one. */
  function Unstore(u: int, narrow: Width, t: DType): int {
    if t.Signed? && u >= narrow.Modulus() / 2 then u - narrow.Modulus() else u
  }

  /** Decodes a delta payload, given the first sample and dtype of the original array. */
  function DecodeDelta(z: Zlib, payload: string, narrow: Width, t: DType, first: int): Result<seq<int>> {
    var stored :- DecompressArray(z, payload, narrow);
    var diffs := seq(|stored.values|, i requires 0 <= i < |stored.values| => Unstore(stored.values[i], narrow, t));
    Ok(Undiff(first, diffs, t))
  }

  lemma WrapAddSub(x: int, y: int, w: Width)
    requires 0 <= x < w.Modulus() && 0 <= y < w.Modulus()
    ensures Wrap(x + Wrap(y - x, w), w) == y
  {
    WrapOnce(y - x, w);
    WrapOnce(x + Wrap(y - x, w), w);
  }

  /** A value less than one modulus away from the range wraps by adding or subtracting it once. */
  lemma WrapOnce(x: int, w: Width)
    requires 0 <= x + w.Modulus() && x < 2 * w.Modulus()
    ensures Wrap(x, w) == if x < 0 then x + w.Modulus() else if x < w.Modulus() then x else x - w.Modulus()
  {
    match w
    case UInt8 =>
    case UInt16 =>
    case UInt32 =>
  }

  /** Running sums undo `numpy.diff`. */
  lemma {:induction false} UndiffDiff(a: NdArray)
    requires WellTyped(a) && |a.values| >= 1
    ensures Undiff(a.values[0], Diff(a).values, a.dtype) == a.values
    decreases |a.values|
  {
    var v := a.values;
    if |v| >= 2 {
      var tail := NdArray(a.dtype, v[1..]);
      UndiffDiff(tail);
      DiffTail(a);
      AddDiffHead(a);
      UndiffCons(v, Diff(a).values, a.dtype);
    }
  }

  lemma DiffTail(a: NdArray)
    requires WellTyped(a) && |a.values| >= 2
    ensures WellTyped(NdArray(a.dtype, a.values[1..]))
    ensures Diff(a).values[1..] == Diff(NdArray(a.dtype, a.values[1..])).values
  {
  }

  /** Adding the first difference to the first sample gives the second sample. */
  lemma AddDiffHead(a: NdArray)
    requires WellTyped(a) && |a.values| >= 2
    ensures Add(a.values[0], Diff(a).values[0], a.dtype) == a.values[1]
  {
    if a.dtype.Unsigned? {
      WrapAddSub(a.values[0], a.values[1], a.dtype.width);
    }
  }

  lemma UndiffCons(v: seq<int>, d: seq<int>, t: DType)
    requires |v| >= 2 && |d| == |v| - 1
    requires Add(v[0], d[0], t) == v[1]
    requires Undiff(v[1], d[1..], t) == v[1..]
    ensures Undiff(v[0], d, t) == v
  {
    assert v == [v[0]] + v[1..];
  }

  /** For an array of an unsigned dtype, the delta payload and the first sample determine the
      array: the stored differences decode and sum back to it. */
  lemma CompressAsDiffUnsignedLossless(z: Zlib, a: NdArray, narrow: Width, fallback: Width)
    requires Lossless(z) && WellTyped(a) && a.dtype.Unsigned?
    requires |a.values| >= 2 && DiffsFit(a, narrow)
    ensures DecodeDelta(z, CompressAsDiff(z, a, narrow, fallback).value.1, narrow, a.dtype, a.values[0]) == Ok(a.values)
  {
    CompressAsDiffDecision(z, a, narrow, fallback);
    var d := Diff(a);
    CompressRoundTrip(z, d, narrow);
    var stored := AsType(d, narrow);
    var diffs := seq(|stored.values|, i requires 0 <= i < |stored.values| => Unstore(stored.values[i], narrow, a.dtype));
    assert diffs == d.values by {
      forall i | 0 <= i < |d.values| ensures diffs[i] == d.values[i] {
        assert Abs(d.values[i], a.dtype) < narrow.Max();
      }
    }
    UndiffDiff(a);
  }

  /** The delta branch as written loses information on a signed array: a negative difference
      is wrapped into the unsigned narrow type, where it cannot be told from a positive one.
      [1000, 1005] and [1000, 749] share their first sample and get the same payload. */
  lemma CompressAsDiffSignedCollision(z: Zlib)
    ensures var a1, a2 := NdArray(Signed, [1000, 1005]), NdArray(Signed, [1000, 749]);
      && a1.values[0] == a2.values[0] && a1.values != a2.values
      && CompressAsDiff(z, a1, UInt8, UInt16).Ok? && CompressAsDiff(z, a1, UInt8, UInt16).value.0
      && CompressAsDiff(z, a1, UInt8, UInt16) == CompressAsDiff(z, a2, UInt8, UInt16)
  {
    var a1, a2 := NdArray(Signed, [1000, 1005]), NdArray(Signed, [1000, 749]);
    assert Diff(a1).values == [5];
    assert Diff(a2).values == [-251];
    assert DiffsFit(a1, UInt8) && DiffsFit(a2, UInt8);
    CompressAsDiffDecision(z, a1, UInt8, UInt16);
    CompressAsDiffDecision(z, a2, UInt8, UInt16);
    assert AsType(Diff(a1), UInt8).values == AsType(Diff(a2), UInt8).values == [5];
  }

  // ---------------------------------------------------------------------------
  // The corrected decision: a signed array's differences are stored only when they lie
  // in the two's-complement range of the narrow width, so that `Unstore` recovers them.

  /** Every difference is one the narrow payload can carry without ambiguity. */
  ghost predicate DiffsRepresentable(a: NdArray, narrow: Width)
    requires WellTyped(a)
  {
    forall i :: 0 <= i < |Diff(a).values| ==>
      if a.dtype.Signed? then InSignedRange(Diff(a).values[i], narrow)
      else Diff(a).values[i] < narrow.Max()
  }

  predicate InSignedRange(x: int, narrow: Width) {
    -(narrow.Modulus() / 2) <= x < narrow.Modulus() / 2
  }

  /** `compressAsDiff` with the signed comparison: the unsigned case is unchanged. */
  function CompressAsDiffChecked(z: Zlib, a: NdArray, narrow: Width, fallback: Width): (r: Result<(bool, string)>)
    requires WellTyped(a)
    ensures r.Raise? <==> |a.values| < 2
    ensures r.Ok? ==> (r.value.0 <==> DiffsRepresentable(a, narrow))
  {
    if a.dtype.Unsigned? then
      CompressAsDiffDecision(z, a, narrow, fallback);
      CompressAsDiff(z, a, narrow, fallback)
    else if |a.values| < 2 then Raise(ValueError)
    else
      var d := Diff(a).values;
      if forall i :: 0 <= i < |d| ==> InSignedRange(d[i], narrow) then Ok((true, CompressArray(z, Diff(a), narrow)))
      else Ok((false, CompressArray(z, a, fallback)))
  }

  lemma UnstoreWrap(x: int, narrow: Width)
    requires InSignedRange(x, narrow)
    ensures Unstore(Wrap(x, narrow), narrow, Signed) == x
  {
    match narrow
    case UInt8 =>
    case UInt16 =>
    case UInt32 =>
  }

  /** With the corrected decision every delta payload, with the first sample, decodes to the
      array, and every fallback payload decodes to the array cast to the fallback width. */
  lemma CompressAsDiffCheckedLossless(z: Zlib, a: NdArray, narrow: Width, fallback: Width)
    requires Lossless(z) && WellTyped(a) && |a.values| >= 2
    ensures var (delta, payload) := CompressAsDiffChecked(z, a, narrow, fallback).value;
      if delta then DecodeDelta(z, payload, narrow, a.dtype, a.values[0]) == Ok(a.values)
      else DecompressArray(z, payload, fallback) == Ok(AsType(a, fallback))
  {
    var (delta, payload) := CompressAsDiffChecked(z, a, narrow, fallback).value;
    if a.dtype.Unsigned? {
      CompressAsDiffDecision(z, a, narrow, fallback);
      if delta {
        CompressAsDiffUnsignedLossless(z, a, narrow, fallback);
      } else {
        CompressRoundTrip(z, a, fallback);
      }
    } else if delta {
      SignedDeltaLossless(z, a, narrow);
    } else {
      CompressRoundTrip(z, a, fallback);
    }
  }

  /** A signed array whose differences are all in the narrow two's-complement range is
      rebuilt from its delta payload and its first sample. */
  lemma SignedDeltaLossless(z: Zlib, a: NdArray, narrow: Width)
    requires Lossless(z) && a.dtype.Signed? && |a.values| >= 1
    requires forall i :: 0 <= i < |Diff(a).values| ==> InSignedRange(Diff(a).values[i], narrow)
    ensures DecodeDelta(z, CompressArray(z, Diff(a), narrow), narrow, Signed, a.values[0]) == Ok(a.values)
  {
    var d := Diff(a);
    CompressRoundTrip(z, d, narrow);
    var stored := AsType(d, narrow);
    var diffs := seq(|stored.values|, i requires 0 <= i < |stored.values| => Unstore(stored.values[i], narrow, Signed));
    assert diffs == d.values by {
      forall i | 0 <= i < |d.values| ensures diffs[i] == d.values[i] {
        UnstoreWrap(d.values[i], narrow);
      }
    }
    UndiffDiff(a);
  }
}
