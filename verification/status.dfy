/**
 `PiccoloStatus` of piccolo2/common/PiccoloStatus.py (piccolo2/PiccoloStatus.py
 is an identical copy): a 32-bit register, read and written through the
 five one-bit fields of `PiccoloFlagsBits`, and exchanged as a hexadecimal string.
 */
module Status {

  import opened Py
  import Numerals

  /** The named fields of `PiccoloFlagsBits`, in declaration order. */
  datatype Flag = Connected | Busy | Paused | FileIncremented | NewMessage

  /** The attribute name of each field. */
  function NameOf(f: Flag): string {
    match f
    case Connected => "connected"
    case Busy => "busy"
    case Paused => "paused"
    case FileIncremented => "file_incremented"
    case NewMessage => "new_message"
  }

  /** The field an attribute name refers to, if any. */
  function FlagNamed(name: string): (r: Option<Flag>)
    ensures r.Some? ==> NameOf(r.value) == name
    ensures r.None? ==> forall f: Flag :: NameOf(f) != name
  {
    if name == "connected" then Some(Connected)
    else if name == "busy" then Some(Busy)
    else if name == "paused" then Some(Paused)
    else if name == "file_incremented" then Some(FileIncremented)
    else if name == "new_message" then Some(NewMessage)
    else None
  }

  /** The value of `c_uint32`. */
  type Word = x: int | 0 <= x < 0x1_0000_0000

  /** `PiccoloFlags`: the register seen through its bit fields (a ctypes union of the
      field structure and `asBytes`). The fields fill bits 0 to 4 in declaration order,
      least significant first; `high` holds the 27 bits no field names. */
  datatype Fields = Fields(connected: bool, busy: bool, paused: bool, fileIncremented: bool,
                           newMessage: bool, high: nat)

  /** The `asBytes` member of the union. */
  function WordOf(v: Fields): Word
    requires v.high < 0x800_0000
  {
    v.high * 32 + Bit(v.newMessage) * 16 + Bit(v.fileIncremented) * 8 + Bit(v.paused) * 4 + Bit(v.busy) * 2 + Bit(v.connected)
  }

  /** The `bit` member of the union. */
  function FieldsOf(w: Word): (v: Fields)
    ensures v.high < 0x800_0000
  {
    Fields(w % 2 == 1, (w / 2) % 2 == 1, (w / 4) % 2 == 1, (w / 8) % 2 == 1, (w / 16) % 2 == 1, w / 32)
  }

  /** The two members of the union are two views of the same 32 bits. */
  lemma WordOfFieldsOf(w: Word)
    ensures WordOf(FieldsOf(w)) == w
  {
    DivDiv(w, 2);
    DivDiv(w, 4);
    DivDiv(w, 8);
    DivDiv(w, 16);
    var v := FieldsOf(w);
    ParityBit(w);
    ParityBit(w / 2);
    ParityBit(w / 4);
    ParityBit(w / 8);
    ParityBit(w / 16);
    assert WordOf(v) == (w / 32) * 32 + ((w / 16) % 2) * 16 + ((w / 8) % 2) * 8 + ((w / 4) % 2) * 4
                        + ((w / 2) % 2) * 2 + w % 2;
  }

  /** The bit a field reads is the parity of the shifted word. */
  lemma ParityBit(x: nat)
    ensures Bit(x % 2 == 1) == x % 2
  {
  }

  /** Halving the quotient by `a` is dividing by `2a`. */
  lemma DivDiv(w: nat, a: nat)
    requires a > 0
    ensures (w / a) / 2 == w / (a * 2)
  {
    var q, r := w / a, w % a;
    var h, b := q / 2, q % 2;
    assert w == a * q + r;
    assert w == (a * 2) * h + (a * b + r) by {
      assert a * q == a * (2 * h + b) == (a * 2) * h + a * b;
    }
    DivUnique(w, a * 2, h, a * b + r);
  }

  lemma DivUnique(w: nat, d: nat, q: nat, r: nat)
    requires d > 0 && r < d && w == d * q + r
    ensures w / d == q
  {
    var q', r' := w / d, w % d;
    assert w == d * q' + r';
    if q' > q {
      MulLe(d, q + 1, q');
      assert false;
    } else if q' < q {
      MulLe(d, q' + 1, q);
      assert false;
    }
  }

  lemma MulLe(d: nat, a: nat, b: nat)
    requires a <= b
    ensures d * a <= d * b
  {
  }

  lemma FieldsOfWordOf(v: Fields)
    requires v.high < 0x800_0000
    ensures FieldsOf(WordOf(v)) == v
  {
    var w := WordOf(v);
    var w4 := v.high * 2 + Bit(v.newMessage);
    var w3 := w4 * 2 + Bit(v.fileIncremented);
    var w2 := w3 * 2 + Bit(v.paused);
    var w1 := w2 * 2 + Bit(v.busy);
    assert w == w1 * 2 + Bit(v.connected);
    assert w / 2 == w1 && w % 2 == Bit(v.connected);
    assert w1 / 2 == w2 && w1 % 2 == Bit(v.busy);
    assert w2 / 2 == w3 && w2 % 2 == Bit(v.paused);
    assert w3 / 2 == w4 && w3 % 2 == Bit(v.fileIncremented);
    assert w4 / 2 == v.high && w4 % 2 == Bit(v.newMessage);
    assert w / 4 == w2 && w / 8 == w3 && w / 16 == w4 && w / 32 == v.high;
  }

  function Field(v: Fields, f: Flag): bool {
    match f
    case Connected => v.connected
    case Busy => v.busy
    case Paused => v.paused
    case FileIncremented => v.fileIncremented
    case NewMessage => v.newMessage
  }

  function WithField(v: Fields, f: Flag, b: bool): (r: Fields)
    ensures Field(r, f) == b
    ensures forall g :: g != f ==> Field(r, g) == Field(v, g)
    ensures r.high == v.high
  {
    match f
    case Connected => v.(connected := b)
    case Busy => v.(busy := b)
    case Paused => v.(paused := b)
    case FileIncremented => v.(fileIncremented := b)
    case NewMessage => v.(newMessage := b)
  }

  /** The mask of each field in `asBytes`. */
  function Mask(f: Flag): nat {
    match f
    case Connected => 1
    case Busy => 2
    case Paused => 4
    case FileIncremented => 8
    case NewMessage => 16
  }

  datatype PiccoloStatus = PiccoloStatus(asBytes: Word)

  /** `PiccoloStatus()`, without a flag string: every field reads false and the register
      encodes as zero. */
  function New(): (s: PiccoloStatus)
    ensures forall f: Flag :: Get(s, NameOf(f)) == Ok(false)
    ensures Encode(s) == "0x0"
  {
    PiccoloStatus(0)
  }

  /** The methods of `PiccoloStatus` itself, which ordinary attribute lookup finds before
      `__getattr__` is consulted. */
  predicate MethodName(name: string) {
    name == "encode" || name == "set" || name == "unset"
  }

  /** The names a ctypes structure instance defines besides its fields (`_fields_`, `_b_base_`,
      `_objects`, the `__special__` methods and so on) all begin with an underscore. */
  predicate CtypesName(name: string) {
    |name| > 0 && name[0] == '_'
  }

  /** `__getattr__(name)`: reading a field; any other name is treated as missing from the
      structure, which holds for every name that is not a ctypes name. Python calls
      `__getattr__` only when ordinary lookup fails, so never for the methods (`MethodName`). */
  function Get(s: PiccoloStatus, name: string): (r: Result<bool>)
    ensures r.Ok? <==> FlagNamed(name).Some?
    ensures r.Raise? ==> r.exception == AttributeError
    ensures r.Ok? ==> (r.value <==> (s.asBytes / Mask(FlagNamed(name).value)) % 2 == 1)
  {
    match FlagNamed(name)
    case Some(f) => Ok(Field(FieldsOf(s.asBytes), f))
    case None => Raise(AttributeError)
  }

  /** Writes bit value `b` into the named field. `setattr` on any other name creates an
      ordinary attribute on a temporary view of the union, so the register is unchanged. */
  function Write(s: PiccoloStatus, name: string, b: bool): (r: PiccoloStatus)
    ensures FlagNamed(name).None? ==> r == s
    ensures FlagNamed(name).Some? ==>
      FieldsOf(r.asBytes) == WithField(FieldsOf(s.asBytes), FlagNamed(name).value, b)
  {
    match FlagNamed(name)
    case Some(f) =>
      FieldsOfWordOf(WithField(FieldsOf(s.asBytes), f, b));
      PiccoloStatus(WordOf(WithField(FieldsOf(s.asBytes), f, b)))
    case None => s
  }

  /** `status.set(name)`. */
  function Set(s: PiccoloStatus, name: string): (r: PiccoloStatus)
    ensures FlagNamed(name).Some? ==> Get(r, name) == Ok(true)
    ensures FlagNamed(name).None? ==> r == s
  {
    Write(s, name, true)
  }

  /** `status.unset(name)`. */
  function Unset(s: PiccoloStatus, name: string): (r: PiccoloStatus)
    ensures FlagNamed(name).Some? ==> Get(r, name) == Ok(false)
    ensures FlagNamed(name).None? ==> r == s
  {
    Write(s, name, false)
  }

  /** `status.<name> = value`: only a bool may be assigned. */
  function Assign(s: PiccoloStatus, name: string, value: Value): (r: Result<PiccoloStatus>)
    ensures value.BoolValue? <==> r.Ok?
    ensures value == BoolValue(true) ==> r == Ok(Set(s, name))
    ensures value == BoolValue(false) ==> r == Ok(Unset(s, name))
    ensures !value.BoolValue? ==> r == Raise(AssertionError)
  {
    match value
    case BoolValue(b) => if b then Ok(Set(s, name)) else Ok(Unset(s, name))
    case _ => Raise(AssertionError)
  }

  /** Field `f` is bit `log2(Mask(f))` of `asBytes`. */
  lemma FieldIsMaskedBit(w: Word, f: Flag)
    ensures Field(FieldsOf(w), f) <==> (w / Mask(f)) % 2 == 1
  {
  }

  /** The register with only field `f` set has value `Mask(f)`: the masks are 1, 2, 4, 8 and 16. */
  lemma FlagLayout(f: Flag)
    ensures Set(New(), NameOf(f)).asBytes == Mask(f)
    ensures forall g :: Get(Set(New(), NameOf(f)), NameOf(g)) == Ok(g == f)
  {
    assert FlagNamed(NameOf(f)) == Some(f);
    forall g ensures FlagNamed(NameOf(g)) == Some(g) { }
  }

  /** Setting a field makes it read true, clearing it makes it read false, and every
      other field and the 27 unnamed bits keep their values. */
  lemma WriteFrame(s: PiccoloStatus, f: Flag, b: bool)
    ensures Get(Write(s, NameOf(f), b), NameOf(f)) == Ok(b)
    ensures forall g :: g != f ==> Get(Write(s, NameOf(f), b), NameOf(g)) == Get(s, NameOf(g))
    ensures Write(s, NameOf(f), b).asBytes / 32 == s.asBytes / 32
  {
    var v := WithField(FieldsOf(s.asBytes), f, b);
    FieldsOfWordOf(v);
    assert FlagNamed(NameOf(f)) == Some(f);
    forall g ensures FlagNamed(NameOf(g)) == Some(g) { }
  }

  /** `set` then `get` reads true, and nothing else changes. */
  lemma SetThenGet(s: PiccoloStatus, f: Flag)
    ensures Get(Set(s, NameOf(f)), NameOf(f)) == Ok(true)
    ensures forall g :: g != f ==> Get(Set(s, NameOf(f)), NameOf(g)) == Get(s, NameOf(g))
    ensures Set(s, NameOf(f)).asBytes / 32 == s.asBytes / 32
  {
    WriteFrame(s, f, true);
  }

  /** `unset` then `get` reads false, and nothing else changes. */
  lemma UnsetThenGet(s: PiccoloStatus, f: Flag)
    ensures Get(Unset(s, NameOf(f)), NameOf(f)) == Ok(false)
    ensures forall g :: g != f ==> Get(Unset(s, NameOf(f)), NameOf(g)) == Get(s, NameOf(g))
    ensures Unset(s, NameOf(f)).asBytes / 32 == s.asBytes / 32
  {
    WriteFrame(s, f, false);
  }

  /** Writing the value a field already has leaves the register as it is. */
  lemma WriteSameValue(s: PiccoloStatus, f: Flag)
    ensures Write(s, NameOf(f), Field(FieldsOf(s.asBytes), f)) == s
  {
    assert FlagNamed(NameOf(f)) == Some(f);
    WordOfFieldsOf(s.asBytes);
  }

  /** A name that is neither a field, a method nor a ctypes name cannot be read, and writing it
      changes nothing. */
  lemma UnknownName(s: PiccoloStatus, name: string, b: bool)
    requires forall f: Flag :: NameOf(f) != name
    requires !CtypesName(name) && !MethodName(name)
    ensures Get(s, name) == Raise(AttributeError)
    ensures Write(s, name, b) == s
  {
  }

  /** `status.encode()`: `hex()` of the Python long `asBytes` is "0x", the lower-case digits
      and a trailing 'L'; the slice `[:-1]` drops the 'L'. */
  function Encode(s: PiccoloStatus): (text: string)
    ensures |text| > 2 && text[..2] == "0x"
    ensures Numerals.ParseDigits(text[2..], 16) == Ok(s.asBytes)
  {
    Numerals.ParseToDigits(s.asBytes, 16);
    assert ("0x" + Numerals.ToDigits(s.asBytes, 16))[2..] == Numerals.ToDigits(s.asBytes, 16);
    "0x" + Numerals.ToDigits(s.asBytes, 16)
  }

  /** `int(text, 16)`: an optional sign, an optional "0x" or "0X" prefix, then hex digits. */
  function ParseHex(text: string): (r: Result<int>)
    ensures r.Raise? ==> r.exception == ValueError
    ensures r.Ok? ==> |text| > 0
    ensures r.Ok? && r.value < 0 ==> text[0] == '-'
    ensures Numerals.ParseDigits(text, 16).Ok? ==> r == Ok(Numerals.ParseDigits(text, 16).value)
    ensures |text| >= 2 && text[..2] == "0x" && Numerals.ParseDigits(text[2..], 16).Ok? ==>
      r == Ok(Numerals.ParseDigits(text[2..], 16).value)
  {
    var negative := |text| > 0 && text[0] == '-';
    var unsigned := if |text| > 0 && (text[0] == '-' || text[0] == '+') then text[1..] else text;
    var digits := if |unsigned| >= 2 && unsigned[0] == '0' && (unsigned[1] == 'x' || unsigned[1] == 'X')
                  then unsigned[2..] else unsigned;
    var n :- Numerals.ParseDigits(digits, 16);
    Ok(if negative then -(n as int) else n as int)
  }

  /** `PiccoloStatus(flagStr)`: the parsed number is stored into a `c_uint32`, which keeps
      its low 32 bits. */
  function Decode(text: string): (r: Result<PiccoloStatus>)
    ensures r.Raise? ==> r.exception == ValueError
    ensures ParseHex(text).Ok? <==> r.Ok?
    ensures r.Ok? ==> (r.value.asBytes - ParseHex(text).value) % 0x1_0000_0000 == 0
  {
    var n :- ParseHex(text);
    Ok(PiccoloStatus(n % 0x1_0000_0000))
  }

  /** Decoding the encoded register restores it. */
  lemma DecodeEncode(s: PiccoloStatus)
    ensures Decode(Encode(s)) == Ok(s)
  {
    assert ParseHex(Encode(s)) == Ok(s.asBytes);
  }

  /** A register is determined by its encoding. */
  lemma EncodeInjective(s: PiccoloStatus, t: PiccoloStatus)
    requires Encode(s) == Encode(t)
    ensures s == t
  {
    DecodeEncode(s);
    DecodeEncode(t);
  }
}
