/**
 `PiccoloExtendedStatus` of piccolo2/common/PiccoloStatus.py (piccolo2/PiccoloStatus.py
 is an identical copy): a bit vector holding the autointegration and recording
 flags, one open/closed bit per shutter and one autointegration result per
 (spectrometer, shutter) pair, exchanged as base64 of its packed bytes.
 */
module ExtendedStatus {

  import opened Py
  import Ordering
  import Base64
  import BitArray

  /** The sorted spectrometer and shutter lists and the bit storage. The storage is a whole
      number of bytes and may be longer, or after `update` shorter, than the logical length. */
  datatype ExtendedStatus = ExtendedStatus(spectrometers: seq<string>, shutters: seq<string>, bits: seq<bool>)

  /** `2 + S + N*S` for `N` spectrometers and `S` shutters. */
  function NBits(nSpectrometers: nat, nShutters: nat): nat {
    2 + nShutters + nSpectrometers * nShutters
  }

  /** `len(status)`: the two global flags and the shutter bits come first, and the bit of the
      last (spectrometer, shutter) pair is the last one counted. */
  function Len(e: ExtendedStatus): (n: nat)
    ensures n >= 2 + |e.shutters|
    ensures |e.spectrometers| == 0 || |e.shutters| == 0 ==> n == 2 + |e.shutters|
    ensures |e.spectrometers| > 0 && |e.shutters| > 0 ==>
      n - 1 == 2 + |e.shutters| + (|e.spectrometers| - 1) * |e.shutters| + (|e.shutters| - 1)
  {
    NBits(|e.spectrometers|, |e.shutters|)
  }

  /** `8 * ceil(n / 8)`: `n` bits rounded up to whole bytes. */
  function StorageLength(n: nat): (r: nat)
    ensures r % 8 == 0 && n <= r < n + 8
  {
    ((n + 7) / 8) * 8
  }

  /** `PiccoloExtendedStatus(spectrometers, shutters)`: both lists sorted, every bit false. */
  function New(spectrometers: seq<string>, shutters: seq<string>): (e: ExtendedStatus)
    ensures Ordering.Sorted(e.spectrometers) && multiset(e.spectrometers) == multiset(spectrometers)
    ensures Ordering.Sorted(e.shutters) && multiset(e.shutters) == multiset(shutters)
    ensures Len(e) == NBits(|spectrometers|, |shutters|)
    ensures |e.bits| % 8 == 0 && Len(e) <= |e.bits| < Len(e) + 8
    ensures forall i :: 0 <= i < |e.bits| ==> !e.bits[i]
  {
    var sp, sh := Ordering.Sort(spectrometers), Ordering.Sort(shutters);
    assert |sp| == |multiset(sp)| == |spectrometers|;
    assert |sh| == |multiset(sh)| == |shutters|;
    ExtendedStatus(sp, sh, BitArray.Falses(StorageLength(NBits(|sp|, |sh|))))
  }

  /** The `status` property: the first `len(status)` bits (all of them when the storage is shorter). */
  function Status(e: ExtendedStatus): (r: seq<bool>)
    ensures |r| == if |e.bits| < Len(e) then |e.bits| else Len(e)
    ensures r == e.bits[..|r|]
  {
    if |e.bits| < Len(e) then e.bits else e.bits[..Len(e)]
  }

  /** `list.index(x)`: the position of the first occurrence; ValueError when absent. */
  function IndexIn(s: seq<string>, x: string): (r: Result<nat>)
    ensures r.Raise? <==> x !in s
    ensures r.Raise? ==> r.exception == ValueError
    ensures r.Ok? ==> r.value < |s| && s[r.value] == x
    ensures r.Ok? ==> forall j :: 0 <= j < r.value ==> s[j] != x
  {
    if |s| == 0 then Raise(ValueError)
    else if s[0] == x then Ok(0)
    else
      var i :- IndexIn(s[1..], x);
      Ok(i + 1)
  }

  /** `_shutter_idx(shutter)`: a known shutter's bit lies in `[2, 2 + S)`; an unknown shutter has none. */
  function ShutterIndex(e: ExtendedStatus, shutter: string): (r: Result<nat>)
    ensures r.Ok? <==> shutter in e.shutters
    ensures r.Raise? ==> r.exception == ValueError
    ensures r.Ok? ==> 2 <= r.value < 2 + |e.shutters| && e.shutters[r.value - 2] == shutter
  {
    var i :- IndexIn(e.shutters, shutter);
    Ok(2 + i)
  }

  /** `_auto_idx(spectrometer, shutter)`: a known pair's bit lies in `[2 + S, len)`; a pair with
      an unknown name has none. */
  function AutoIndex(e: ExtendedStatus, spectrometer: string, shutter: string): (r: Result<nat>)
    ensures r.Ok? <==> spectrometer in e.spectrometers && shutter in e.shutters
    ensures r.Raise? ==> r.exception == ValueError
    ensures r.Ok? ==> 2 + |e.shutters| <= r.value < Len(e)
  {
    var i :- IndexIn(e.spectrometers, spectrometer);
    var j :- IndexIn(e.shutters, shutter);
    MulMonotone(i, |e.spectrometers|, |e.shutters|);
    Ok(2 + |e.shutters| + i * |e.shutters| + j)
  }

  /** `status[i]` on the bit storage. */
  function GetBit(e: ExtendedStatus, i: nat): (r: Result<bool>)
    ensures r.Ok? <==> i < |e.bits|
    ensures r.Raise? ==> r.exception == IndexError
    ensures r.Ok? ==> r.value == e.bits[i]
  {
    if i < |e.bits| then Ok(e.bits[i]) else Raise(IndexError)
  }

  /** `status[i] = v` on the bit storage: bit `i` becomes `v` and nothing else changes. */
  function SetBit(e: ExtendedStatus, i: nat, v: bool): (r: Result<ExtendedStatus>)
    ensures r.Ok? <==> i < |e.bits|
    ensures r.Raise? ==> r.exception == IndexError
    ensures r.Ok? ==> r.value.spectrometers == e.spectrometers && r.value.shutters == e.shutters
    ensures r.Ok? ==> |r.value.bits| == |e.bits| && r.value.bits[i] == v
    ensures r.Ok? ==> forall j :: 0 <= j < |e.bits| && j != i ==> r.value.bits[j] == e.bits[j]
  {
    if i < |e.bits| then Ok(e.(bits := e.bits[i := v])) else Raise(IndexError)
  }

  /** `startAutointegration()`: sets global flag 0. */
  function StartAutointegration(e: ExtendedStatus): (r: Result<ExtendedStatus>)
    ensures r.Ok? <==> 0 < |e.bits|
    ensures r.Raise? ==> r.exception == IndexError
    ensures r.Ok? ==> IsAutointegrating(r.value) == Ok(true)
  {
    SetBit(e, 0, true)
  }

  /** `stopAutointegration()`: clears global flag 0. */
  function StopAutointegration(e: ExtendedStatus): (r: Result<ExtendedStatus>)
    ensures r.Ok? <==> 0 < |e.bits|
    ensures r.Raise? ==> r.exception == IndexError
    ensures r.Ok? ==> IsAutointegrating(r.value) == Ok(false)
  {
    SetBit(e, 0, false)
  }

  /** `isAutointegrating()`: global flag 0. */
  function IsAutointegrating(e: ExtendedStatus): (r: Result<bool>)
    ensures r.Ok? <==> 0 < |e.bits|
    ensures r.Raise? ==> r.exception == IndexError
    ensures r.Ok? ==> r.value == e.bits[0]
  {
    GetBit(e, 0)
  }

  /** `startRecording()`: sets global flag 1. */
  function StartRecording(e: ExtendedStatus): (r: Result<ExtendedStatus>)
    ensures r.Ok? <==> 1 < |e.bits|
    ensures r.Raise? ==> r.exception == IndexError
    ensures r.Ok? ==> IsRecording(r.value) == Ok(true)
  {
    SetBit(e, 1, true)
  }

  /** `stopRecording()`: clears global flag 1. */
  function StopRecording(e: ExtendedStatus): (r: Result<ExtendedStatus>)
    ensures r.Ok? <==> 1 < |e.bits|
    ensures r.Raise? ==> r.exception == IndexError
    ensures r.Ok? ==> IsRecording(r.value) == Ok(false)
  {
    SetBit(e, 1, false)
  }

  /** `isRecording()`: global flag 1. */
  function IsRecording(e: ExtendedStatus): (r: Result<bool>)
    ensures r.Ok? <==> 1 < |e.bits|
    ensures r.Raise? ==> r.exception == IndexError
    ensures r.Ok? ==> r.value == e.bits[1]
  {
    GetBit(e, 1)
  }

  /** Fails with ValueError for an unknown shutter and with IndexError when its bit lies
      beyond the storage. */
  predicate ShutterFailure(e: ExtendedStatus, shutter: string, r: Result<ExtendedStatus>) {
    && (shutter !in e.shutters ==> r == Raise(ValueError))
    && (shutter in e.shutters ==> (r.Ok? <==> ShutterIndex(e, shutter).value < |e.bits|))
    && (shutter in e.shutters && r.Raise? ==> r.exception == IndexError)
  }

  /** `open(shutter)`: the shutter then reads as open. */
  function Open(e: ExtendedStatus, shutter: string): (r: Result<ExtendedStatus>)
    ensures ShutterFailure(e, shutter, r)
    ensures r.Ok? ==> IsOpen(r.value, shutter) == Ok(true)
  {
    var i :- ShutterIndex(e, shutter);
    SetBit(e, i, true)
  }

  /** `close(shutter)`: the shutter then reads as closed. */
  function Close(e: ExtendedStatus, shutter: string): (r: Result<ExtendedStatus>)
    ensures ShutterFailure(e, shutter, r)
    ensures r.Ok? ==> IsOpen(r.value, shutter) == Ok(false)
  {
    var i :- ShutterIndex(e, shutter);
    SetBit(e, i, false)
  }

  /** `isOpen(shutter)`: the shutter's bit, bit `2 + k` for the shutter at position `k` of the sorted list. */
  function IsOpen(e: ExtendedStatus, shutter: string): (r: Result<bool>)
    ensures shutter !in e.shutters ==> r == Raise(ValueError)
    ensures shutter in e.shutters ==> (r.Ok? <==> ShutterIndex(e, shutter).value < |e.bits|)
    ensures shutter in e.shutters && r.Raise? ==> r.exception == IndexError
    ensures r.Ok? ==> r.value == e.bits[2 + IndexIn(e.shutters, shutter).value]
  {
    var i :- ShutterIndex(e, shutter);
    GetBit(e, i)
  }

  /** `isClosed(shutter)`: the negation of `isOpen`, failing exactly when it does. */
  function IsClosed(e: ExtendedStatus, shutter: string): (r: Result<bool>)
    ensures r.Ok? <==> IsOpen(e, shutter).Ok?
    ensures r.Raise? ==> r == IsOpen(e, shutter)
    ensures r.Ok? ==> r.value == !IsOpen(e, shutter).value
  {
    var i :- ShutterIndex(e, shutter);
    var b :- GetBit(e, i);
    Ok(!b)
  }

  /** Python's `bool(value)`. */
  function Truthy(v: Value): bool {
    match v
    case NoneValue => false
    case BoolValue(b) => b
    case IntValue(i) => i != 0
    case StrValue(s) => s != ""
  }

  /** Fails with ValueError for an unknown name and with IndexError when the pair's bit lies
      beyond the storage. */
  predicate PairFailure<T>(e: ExtendedStatus, spectrometer: string, shutter: string, r: Result<T>) {
    var known := spectrometer in e.spectrometers && shutter in e.shutters;
    && (!known ==> r == Raise(ValueError))
    && (known ==> (r.Ok? <==> AutoIndex(e, spectrometer, shutter).value < |e.bits|))
    && (known && r.Raise? ==> r.exception == IndexError)
  }

  /** `setAutointegrationResult(spectrometer, shutter, result)`: stores `bool(result)`. */
  function SetAutointegrationResult(e: ExtendedStatus, spectrometer: string, shutter: string, result: Value)
    : (r: Result<ExtendedStatus>)
    ensures PairFailure(e, spectrometer, shutter, r)
    ensures r.Ok? ==> IsAutointegrationSuccessful(r.value, spectrometer, shutter) == Ok(Truthy(result))
  {
    var i :- AutoIndex(e, spectrometer, shutter);
    SetBit(e, i, Truthy(result))
  }

  /** `autoSuccess(spectrometer, shutter)`. */
  function AutoSuccess(e: ExtendedStatus, spectrometer: string, shutter: string): (r: Result<ExtendedStatus>)
    ensures PairFailure(e, spectrometer, shutter, r)
    ensures r.Ok? ==> IsAutointegrationSuccessful(r.value, spectrometer, shutter) == Ok(true)
  {
    SetAutointegrationResult(e, spectrometer, shutter, BoolValue(true))
  }

  /** `autoFail(spectrometer, shutter)`. */
  function AutoFail(e: ExtendedStatus, spectrometer: string, shutter: string): (r: Result<ExtendedStatus>)
    ensures PairFailure(e, spectrometer, shutter, r)
    ensures r.Ok? ==> IsAutointegrationSuccessful(r.value, spectrometer, shutter) == Ok(false)
  {
    SetAutointegrationResult(e, spectrometer, shutter, BoolValue(false))
  }

  /** `isAutointegrationSuccessful(spectrometer, shutter)`: the pair's bit, bit `2 + S + i*S + j` for
      the spectrometer at position `i` and the shutter at position `j` of the sorted lists. */
  function IsAutointegrationSuccessful(e: ExtendedStatus, spectrometer: string, shutter: string): (r: Result<bool>)
    ensures PairFailure(e, spectrometer, shutter, r)
    ensures r.Ok? ==> var i, j := IndexIn(e.spectrometers, spectrometer).value, IndexIn(e.shutters, shutter).value;
      r.value == e.bits[2 + |e.shutters| + i * |e.shutters| + j]
  {
    var i :- AutoIndex(e, spectrometer, shutter);
    GetBit(e, i)
  }

  /** `status.encode()`: base64 of the packed bit storage. */
  function Encode(e: ExtendedStatus): (text: string)
    ensures Base64.Decode(text) == Ok(BitArray.Pack(e.bits))
  {
    Base64.DecodeEncode(BitArray.Pack(e.bits));
    Base64.Encode(BitArray.Pack(e.bits))
  }

  /** The object `update` leaves behind, and the exception it raised, if any. */
  datatype Updated = Updated(state: ExtendedStatus, raised: Option<Exception>)

  /** `status.update(b64status)`: the storage is emptied first and then replaced by the decoded
      bits, whatever their number; text that does not decode leaves the storage empty. */
  function Update(e: ExtendedStatus, text: string): (r: Updated)
    ensures r.state.spectrometers == e.spectrometers && r.state.shutters == e.shutters
    ensures r.raised.None? <==> Base64.Decode(text).Ok?
    ensures r.raised.None? ==> BitArray.Pack(r.state.bits) == Base64.Decode(text).value
    ensures r.raised.Some? ==> r.raised.value == TypeError && r.state.bits == []
  {
    match Base64.Decode(text)
    case Ok(bytes) =>
      BitArray.PackUnpack(bytes);
      Updated(e.(bits := BitArray.Unpack(bytes)), None)
    case Raise(x) => Updated(e.(bits := []), Some(x))
  }

  // ---------------------------------------------------------------------------
  // Index functions

  lemma MulMonotone(a: nat, b: nat, s: nat)
    requires a < b
    ensures a * s + s <= b * s
  {
    var d := b - a;
    assert b * s == a * s + d * s;
    assert d * s >= s by {
      assert d >= 1;
      assert d * s == s + (d - 1) * s;
    }
  }

  /** Different shutters have different bits. */
  lemma ShutterIndexInjective(e: ExtendedStatus, a: string, b: string)
    requires ShutterIndex(e, a).Ok? && ShutterIndex(e, b).Ok?
    requires ShutterIndex(e, a) == ShutterIndex(e, b)
    ensures a == b
  {
  }

  /** Different (spectrometer, shutter) pairs have different bits. */
  lemma AutoIndexInjective(e: ExtendedStatus, p: string, s: string, p': string, s': string)
    requires AutoIndex(e, p, s).Ok? && AutoIndex(e, p', s').Ok?
    requires AutoIndex(e, p, s) == AutoIndex(e, p', s')
    ensures p == p' && s == s'
  {
    var n := |e.shutters|;
    var i, j := IndexIn(e.spectrometers, p).value, IndexIn(e.shutters, s).value;
    var i', j' := IndexIn(e.spectrometers, p').value, IndexIn(e.shutters, s').value;
    assert i * n + j == i' * n + j';
    if i < i' {
      MulMonotone(i, i', n);
    } else if i' < i {
      MulMonotone(i', i, n);
    }
  }

  /** The two global flags, the shutter bits and the pair bits never share a position. */
  lemma IndicesDisjoint(e: ExtendedStatus, shutter: string, spectrometer: string, shutter': string)
    requires ShutterIndex(e, shutter).Ok? && AutoIndex(e, spectrometer, shutter').Ok?
    ensures ShutterIndex(e, shutter).value !in {0, 1, AutoIndex(e, spectrometer, shutter').value}
    ensures AutoIndex(e, spectrometer, shutter').value > 1
  {
  }

  /** The bit layout depends only on which names are given, not on their order. */
  lemma NewIgnoresOrder(sp1: seq<string>, sh1: seq<string>, sp2: seq<string>, sh2: seq<string>)
    requires multiset(sp1) == multiset(sp2) && multiset(sh1) == multiset(sh2)
    ensures New(sp1, sh1) == New(sp2, sh2)
  {
    Ordering.SortIgnoresOrder(sp1, sp2);
    Ordering.SortIgnoresOrder(sh1, sh2);
  }

  // ---------------------------------------------------------------------------
  // Flag operations

  /** The storage covers every logical bit: true of a new status and kept by every flag operation. */
  predicate Covers(e: ExtendedStatus) {
    Len(e) <= |e.bits|
  }

  /** On a status whose storage covers its bits, every flag operation on known names succeeds,
      keeps the lists and the storage length, and the queries read back what was written. */
  lemma FlagOperationsSucceed(e: ExtendedStatus, spectrometer: string, shutter: string, result: Value)
    requires Covers(e) && spectrometer in e.spectrometers && shutter in e.shutters
    ensures IsAutointegrating(StartAutointegration(e).value) == Ok(true)
    ensures IsAutointegrating(StopAutointegration(e).value) == Ok(false)
    ensures IsRecording(StartRecording(e).value) == Ok(true)
    ensures IsRecording(StopRecording(e).value) == Ok(false)
    ensures Open(e, shutter).Ok? && IsOpen(Open(e, shutter).value, shutter) == Ok(true)
    ensures Close(e, shutter).Ok? && IsOpen(Close(e, shutter).value, shutter) == Ok(false)
    ensures SetAutointegrationResult(e, spectrometer, shutter, result).Ok?
    ensures IsAutointegrationSuccessful(SetAutointegrationResult(e, spectrometer, shutter, result).value,
                                        spectrometer, shutter) == Ok(Truthy(result))
    ensures IsAutointegrationSuccessful(AutoSuccess(e, spectrometer, shutter).value, spectrometer, shutter) == Ok(true)
    ensures IsAutointegrationSuccessful(AutoFail(e, spectrometer, shutter).value, spectrometer, shutter) == Ok(false)
  {
  }

  /** Opening or closing a shutter changes its bit only: the global flags, every other shutter and
      every autointegration result read as before. */
  lemma ShutterWriteFrame(e: ExtendedStatus, shutter: string, open: bool, other: string, spectrometer: string, shutter': string)
    requires ShutterIndex(e, shutter).Ok? && ShutterIndex(e, shutter).value < |e.bits|
    requires other != shutter
    ensures var e' := SetBit(e, ShutterIndex(e, shutter).value, open).value;
      && (open ==> Open(e, shutter) == Ok(e')) && (!open ==> Close(e, shutter) == Ok(e'))
      && IsAutointegrating(e') == IsAutointegrating(e)
      && IsRecording(e') == IsRecording(e)
      && IsOpen(e', other) == IsOpen(e, other)
      && IsAutointegrationSuccessful(e', spectrometer, shutter') == IsAutointegrationSuccessful(e, spectrometer, shutter')
  {
    OtherShutterFrame(e, shutter, open, other);
    NamedBitFrame(e, ShutterIndex(e, shutter).value, open);
    if AutoIndex(e, spectrometer, shutter').Ok? {
      IndicesDisjoint(e, shutter, spectrometer, shutter');
    }
  }

  lemma OtherShutterFrame(e: ExtendedStatus, shutter: string, open: bool, other: string)
    requires ShutterIndex(e, shutter).Ok? && ShutterIndex(e, shutter).value < |e.bits|
    requires other != shutter
    ensures IsOpen(SetBit(e, ShutterIndex(e, shutter).value, open).value, other) == IsOpen(e, other)
  {
    var k := ShutterIndex(e, shutter).value;
    if ShutterIndex(e, other).Ok? && ShutterIndex(e, other).value == k {
      ShutterIndexInjective(e, shutter, other);
    }
  }

  /** Writing a bit past the two global flags leaves both of them alone. */
  lemma NamedBitFrame(e: ExtendedStatus, i: nat, v: bool)
    requires 2 <= i < |e.bits|
    ensures IsAutointegrating(SetBit(e, i, v).value) == IsAutointegrating(e)
    ensures IsRecording(SetBit(e, i, v).value) == IsRecording(e)
  {
  }

  /** Recording an autointegration result changes that pair's bit only. */
  lemma AutoWriteFrame(e: ExtendedStatus, spectrometer: string, shutter: string, result: Value,
                       shutter': string, p: string, s: string)
    requires AutoIndex(e, spectrometer, shutter).Ok? && AutoIndex(e, spectrometer, shutter).value < |e.bits|
    requires (p, s) != (spectrometer, shutter)
    ensures SetAutointegrationResult(e, spectrometer, shutter, result).Ok?
    ensures var e' := SetAutointegrationResult(e, spectrometer, shutter, result).value;
      && IsAutointegrating(e') == IsAutointegrating(e)
      && IsRecording(e') == IsRecording(e)
      && IsOpen(e', shutter') == IsOpen(e, shutter')
      && IsAutointegrationSuccessful(e', p, s) == IsAutointegrationSuccessful(e, p, s)
  {
    var k := AutoIndex(e, spectrometer, shutter).value;
    NamedBitFrame(e, k, Truthy(result));
    if ShutterIndex(e, shutter').Ok? {
      IndicesDisjoint(e, shutter', spectrometer, shutter);
    }
    OtherPairFrame(e, spectrometer, shutter, Truthy(result), p, s);
  }

  lemma OtherPairFrame(e: ExtendedStatus, spectrometer: string, shutter: string, v: bool, p: string, s: string)
    requires AutoIndex(e, spectrometer, shutter).Ok? && AutoIndex(e, spectrometer, shutter).value < |e.bits|
    requires (p, s) != (spectrometer, shutter)
    ensures var e' := SetBit(e, AutoIndex(e, spectrometer, shutter).value, v).value;
      IsAutointegrationSuccessful(e', p, s) == IsAutointegrationSuccessful(e, p, s)
  {
    var k := AutoIndex(e, spectrometer, shutter).value;
    if AutoIndex(e, p, s).Ok? && AutoIndex(e, p, s).value == k {
      AutoIndexInjective(e, spectrometer, shutter, p, s);
    }
  }

  /** The global flags are bits 0 and 1, and writing one leaves the other and all named bits alone. */
  lemma GlobalFlagFrame(e: ExtendedStatus, bit: nat, v: bool, shutter: string, spectrometer: string, shutter': string)
    requires bit <= 1 && bit < |e.bits|
    ensures var e' := SetBit(e, bit, v).value;
      && GetBit(e', bit) == Ok(v)
      && GetBit(e', 1 - bit) == GetBit(e, 1 - bit)
      && IsOpen(e', shutter) == IsOpen(e, shutter)
      && IsAutointegrationSuccessful(e', spectrometer, shutter') == IsAutointegrationSuccessful(e, spectrometer, shutter')
  {
  }

  // ---------------------------------------------------------------------------
  // Encoding

  /** Decoding an encoded status into a status built from the same lists reproduces it:
      `e2.update(e.encode())` makes `e2` equal to `e`. */
  lemma EncodeUpdate(e: ExtendedStatus, f: ExtendedStatus)
    requires e.spectrometers == f.spectrometers && e.shutters == f.shutters
    requires |e.bits| % 8 == 0
    ensures Update(f, Encode(e)) == Updated(e, None)
  {
    BitArray.UnpackPackWhole(e.bits);
  }

  /** `update` checks nothing about the length: the storage becomes exactly the decoded bits,
      while the logical length stays that of the lists. */
  lemma UpdateUnchecked(e: ExtendedStatus, text: string)
    requires Base64.Decode(text).Ok?
    ensures Update(e, text).raised.None?
    ensures Len(Update(e, text).state) == Len(e)
    ensures Update(e, text).state.bits == BitArray.Unpack(Base64.Decode(text).value)
    ensures |Update(e, text).state.bits| == 8 * |Base64.Decode(text).value|
  {
  }

  /** An empty payload is accepted, and the status is then unusable: setting bit 0 raises IndexError. */
  lemma UpdateEmptyBreaksStatus(e: ExtendedStatus)
    ensures Update(e, "").raised.None?
    ensures StartAutointegration(Update(e, "").state) == Raise(IndexError)
  {
  }

  /** Text that does not decode raises TypeError after the storage has been emptied: the object
      is left with no bits, so every flag operation on it fails and it encodes as "". */
  lemma {:induction false} UpdateFailureEmpties(e: ExtendedStatus, text: string, spectrometer: string, shutter: string)
    requires Base64.Decode(text).Raise?
    ensures Update(e, text).raised == Some(TypeError)
    ensures var s := Update(e, text).state;
      && Status(s) == [] && Encode(s) == ""
      && StartAutointegration(s) == Raise(IndexError) && StopAutointegration(s) == Raise(IndexError)
      && StartRecording(s) == Raise(IndexError) && StopRecording(s) == Raise(IndexError)
      && Open(s, shutter).Raise? && Close(s, shutter).Raise? && IsOpen(s, shutter).Raise?
      && AutoSuccess(s, spectrometer, shutter).Raise? && IsAutointegrationSuccessful(s, spectrometer, shutter).Raise?
  {
    var s := Update(e, text).state;
    assert BitArray.Pack(s.bits) == [];
  }

  /** A one-character payload is malformed base64 (`b64decode("A")` raises TypeError), and
      after it the status encodes as "". */
  lemma UpdateMalformedExample(e: ExtendedStatus)
    ensures Update(e, "A") == Updated(e.(bits := []), Some(TypeError))
    ensures Encode(Update(e, "A").state) == ""
  {
    UpdateFailureEmpties(e, "A", "", "");
  }

  /** The operations that write a bit keep the storage length, so a status built by `New` and
      then changed keeps a whole number of bytes. */
  lemma SetBitKeepsBytes(e: ExtendedStatus, i: nat, v: bool)
    requires i < |e.bits| && |e.bits| % 8 == 0 && Covers(e)
    ensures |SetBit(e, i, v).value.bits| % 8 == 0 && Covers(SetBit(e, i, v).value)
  {
  }

  /** The worked example: spectrometers sA, sB and shutters up, down give 8 bits in one byte;
      'down' sorts before 'up', so opening 'up' sets bit 3, and a success for (sA, down) sets bit 4. */
  lemma Example()
    ensures var e := New(["sA", "sB"], ["up", "down"]);
      && e.shutters == ["down", "up"] && e.spectrometers == ["sA", "sB"]
      && Len(e) == 8 && |e.bits| == 8
      && ShutterIndex(e, "up") == Ok(3)
      && AutoIndex(e, "sA", "down") == Ok(4)
  {
    ExampleNew();
    ExampleLayout(New(["sA", "sB"], ["up", "down"]));
  }

  lemma ExampleNew()
    ensures var e := New(["sA", "sB"], ["up", "down"]);
      e.shutters == ["down", "up"] && e.spectrometers == ["sA", "sB"] && e.bits == BitArray.Falses(8)
  {
    assert Ordering.StrLe("sA", "sB");
    assert Ordering.StrLe("down", "up");
    SortPair("sA", "sB");
    SortPair("down", "up");
  }

  lemma ExampleLayout(e: ExtendedStatus)
    requires e.shutters == ["down", "up"] && e.spectrometers == ["sA", "sB"]
    ensures Len(e) == 8
    ensures ShutterIndex(e, "up") == Ok(3)
    ensures AutoIndex(e, "sA", "down") == Ok(4)
  {
    assert IndexIn(e.shutters, "up") == Ok(1);
    assert IndexIn(e.shutters, "down") == Ok(0);
    assert IndexIn(e.spectrometers, "sA") == Ok(0);
  }

  /** Continuing the example: after `open('up')` and `autoSuccess('sA', 'down')` the bits are
      00011000, the byte 0x18, whose base64 text is "GA==". */
  lemma ExampleEncoding()
    ensures var e := New(["sA", "sB"], ["up", "down"]);
      && Open(e, "up").Ok?
      && AutoSuccess(Open(e, "up").value, "sA", "down").Ok?
      && AutoSuccess(Open(e, "up").value, "sA", "down").value.bits
         == [false, false, false, true, true, false, false, false]
      && Encode(AutoSuccess(Open(e, "up").value, "sA", "down").value) == "GA=="
  {
    ExampleNew();
    var e := New(["sA", "sB"], ["up", "down"]);
    ExampleLayout(e);
    ExampleWrites(e);
    PackExample([false, false, false, true, true, false, false, false]);
  }

  lemma ExampleWrites(e: ExtendedStatus)
    requires e.shutters == ["down", "up"] && e.spectrometers == ["sA", "sB"] && e.bits == BitArray.Falses(8)
    requires ShutterIndex(e, "up") == Ok(3) && AutoIndex(e, "sA", "down") == Ok(4)
    ensures Open(e, "up").Ok?
    ensures AutoSuccess(Open(e, "up").value, "sA", "down").Ok?
    ensures AutoSuccess(Open(e, "up").value, "sA", "down").value.bits
            == [false, false, false, true, true, false, false, false]
  {
    var e1 := Open(e, "up").value;
    assert e1.bits == e.bits[3 := true];
    assert AutoIndex(e1, "sA", "down") == Ok(4);
  }

  lemma PackExample(bits: seq<bool>)
    requires bits == [false, false, false, true, true, false, false, false]
    ensures BitArray.Pack(bits) == [0x18]
    ensures Base64.Encode([0x18]) == "GA=="
  {
    assert bits[..8] == bits && bits[8..] == [];
    assert bits[..1][..0] == [];
    assert BitArray.FromBits(bits[..1]) == 0;
    assert bits[..2][..1] == bits[..1];
    assert BitArray.FromBits(bits[..2]) == 0;
    assert bits[..3][..2] == bits[..2];
    assert BitArray.FromBits(bits[..3]) == 0;
    assert bits[..4][..3] == bits[..3] && bits[..5][..4] == bits[..4];
    assert BitArray.FromBits(bits[..5]) == 3;
    assert bits[..6][..5] == bits[..5] && bits[..7][..6] == bits[..6] && bits[..7] == bits[..|bits| - 1];
    assert BitArray.FromBits(bits[..7]) == 12;
    assert BitArray.FromBits(bits) == 0x18;
    assert Base64.CharOf(6) == 'G' && Base64.CharOf(0) == 'A';
  }

  /** Two names in order sort to that order whichever way they are given. */
  lemma SortPair(a: string, b: string)
    requires Ordering.StrLe(a, b)
    ensures Ordering.Sort([a, b]) == [a, b] && Ordering.Sort([b, a]) == [a, b]
  {
    assert multiset([b, a]) == multiset([a, b]);
    SortPairInOrder(a, b);
    Ordering.SortIgnoresOrder([a, b], [b, a]);
  }

  lemma SortPairInOrder(a: string, b: string)
    requires Ordering.StrLe(a, b)
    ensures Ordering.Sort([a, b]) == [a, b]
  {
    assert Ordering.Sorted([a, b]);
    Ordering.SortedUnique(Ordering.Sort([a, b]), [a, b]);
  }
}
