/**
 `PiccoloSpectrum` and `PiccoloSpectraList` of piccolo2/PiccoloSpectra.py: a
 spectrum is a metadata mapping with three protected keys plus an optional list
 of pixel values; a spectra list is a list of spectra that can grow but never
 shrink, and that names its output file after a sequence number.
 */
module Spectra {

  import opened Py
  import Numerals

  /** The keys only the dedicated setters may write: 'Direction', 'Dark' and 'Datetime'. */
  const ProtectedKeys: set<string> := {"Direction", "Dark", "Datetime"}

  const Missing: Value := StrValue("Missing metadata")

  datatype Spectrum = Spectrum(meta: map<string, Value>, pixels: Option<seq<int>>)

  /** What every spectrum satisfies: the protected keys are present, the direction and the
      dark flag hold one of the values their setters write, and the time stamp is a string
      ending in 'Z'. */
  ghost predicate WellFormed(s: Spectrum) {
    && "Direction" in s.meta && IsDirection(s.meta["Direction"])
    && "Dark" in s.meta && IsDarkFlag(s.meta["Dark"])
    && "Datetime" in s.meta && IsTimestamp(s.meta["Datetime"])
  }

  predicate IsDirection(v: Value) {
    v == Missing || v == StrValue("Upwelling") || v == StrValue("Downwelling")
  }

  predicate IsDarkFlag(v: Value) {
    v == Missing || v.BoolValue?
  }

  predicate IsTimestamp(v: Value) {
    v.StrValue? && |v.s| > 0 && v.s[|v.s| - 1] == 'Z'
  }

  /** `setDatetime(dt)` given `ts.isoformat()`: the clock read or the parsing of `dt` happens
      outside the model and `timestamp` is its ISO 8601 text. */
  function SetDatetime(s: Spectrum, timestamp: string): (r: Spectrum)
    ensures r.meta.Keys == s.meta.Keys + {"Datetime"}
    ensures r.meta["Datetime"] == StrValue(timestamp + "Z")
    ensures forall k :: k in s.meta && k != "Datetime" ==> r.meta[k] == s.meta[k]
    ensures r.pixels == s.pixels
  {
    s.(meta := s.meta["Datetime" := StrValue(timestamp + "Z")])
  }

  /** `PiccoloSpectrum()`: direction and dark flag missing, time stamp set, no pixels. */
  function New(timestamp: string): (s: Spectrum)
    ensures WellFormed(s)
    ensures s.meta.Keys == ProtectedKeys
    ensures s.meta["Direction"] == Missing && s.meta["Dark"] == Missing
    ensures s.meta["Datetime"] == StrValue(timestamp + "Z")
    ensures s.pixels.None?
  {
    SetDatetime(Spectrum(map["Direction" := Missing, "Dark" := Missing], None), timestamp)
  }

  /** `spectrum[key]`. */
  function GetItem(s: Spectrum, key: string): (r: Result<Value>)
    ensures r.Ok? <==> key in s.meta
    ensures r.Raise? ==> r.exception == KeyError
    ensures r.Ok? ==> r.value == s.meta[key]
  {
    if key in s.meta then Ok(s.meta[key]) else Raise(KeyError)
  }

  /** `spectrum[key] = value`: refused for a protected key, otherwise only `key` changes. */
  function SetItem(s: Spectrum, key: string, value: Value): (r: Result<Spectrum>)
    ensures r.Raise? <==> key in ProtectedKeys
    ensures r.Raise? ==> r.exception == KeyError
    ensures r.Ok? ==> r.value.meta.Keys == s.meta.Keys + {key} && r.value.meta[key] == value
    ensures r.Ok? ==> forall k :: k in s.meta && k != key ==> r.value.meta[k] == s.meta[k]
    ensures r.Ok? ==> r.value.pixels == s.pixels
  {
    if key in ProtectedKeys then Raise(KeyError)
    else Ok(s.(meta := s.meta[key := value]))
  }

  /** `del spectrum[key]`: refused for a protected key and, as for any dict, for a missing one. */
  function DelItem(s: Spectrum, key: string): (r: Result<Spectrum>)
    ensures r.Raise? <==> key in ProtectedKeys || key !in s.meta
    ensures r.Raise? ==> r.exception == KeyError
    ensures r.Ok? ==> r.value.meta.Keys == s.meta.Keys - {key}
    ensures r.Ok? ==> forall k :: k in r.value.meta ==> r.value.meta[k] == s.meta[k]
    ensures r.Ok? ==> r.value.pixels == s.pixels
  {
    if key in ProtectedKeys || key !in s.meta then Raise(KeyError)
    else Ok(s.(meta := s.meta - {key}))
  }

  /** `len(spectrum)`: the number of metadata keys, at least the three protected ones. */
  function Len(s: Spectrum): (n: nat)
    ensures n == |s.meta.Keys|
    ensures WellFormed(s) ==> n >= 3
  {
    if "Direction" in s.meta && "Dark" in s.meta && "Datetime" in s.meta then
      ProtectedSubset(s.meta.Keys);
      |s.meta|
    else |s.meta|
  }

  lemma ProtectedSubset(keys: set<string>)
    requires "Direction" in keys && "Dark" in keys && "Datetime" in keys
    ensures |keys| >= 3
  {
    var rest := keys - ProtectedKeys;
    assert keys == ProtectedKeys + rest;
    assert |ProtectedKeys| == 3;
  }

  function SetDirection(s: Spectrum, direction: string): Spectrum {
    s.(meta := s.meta["Direction" := StrValue(direction)])
  }

  /** `setDownwelling()`: only the direction changes. */
  function SetDownwelling(s: Spectrum): (r: Spectrum)
    ensures r.meta.Keys == s.meta.Keys + {"Direction"}
    ensures r.meta["Direction"] == StrValue("Downwelling") && IsDirection(r.meta["Direction"])
    ensures forall k :: k in s.meta && k != "Direction" ==> r.meta[k] == s.meta[k]
    ensures r.pixels == s.pixels
  {
    SetDirection(s, "Downwelling")
  }

  /** `setUpwelling(value)`: no value or true means upwelling, false means downwelling,
      anything else fails the bool assertion. */
  function SetUpwelling(s: Spectrum, value: Value): (r: Result<Spectrum>)
    ensures r.Raise? <==> !(value.NoneValue? || value.BoolValue?)
    ensures r.Raise? ==> r.exception == AssertionError
    ensures r.Ok? ==> r.value.meta.Keys == s.meta.Keys + {"Direction"}
    ensures r.Ok? ==> r.value.meta["Direction"]
                      == StrValue(if value == BoolValue(false) then "Downwelling" else "Upwelling")
    ensures r.Ok? ==> forall k :: k in s.meta && k != "Direction" ==> r.value.meta[k] == s.meta[k]
    ensures r.Ok? ==> r.value.pixels == s.pixels
    decreases if value.NoneValue? then 0 else 1
  {
    match value
    case NoneValue => Ok(SetDirection(s, "Upwelling"))
    case BoolValue(b) => if b then SetUpwelling(s, NoneValue) else Ok(SetDownwelling(s))
    case _ => Raise(AssertionError)
  }

  /** `setDark(value)`: no value means dark; a bool is stored as given; anything else fails
      the bool assertion. */
  function SetDark(s: Spectrum, value: Value): (r: Result<Spectrum>)
    ensures r.Raise? <==> !(value.NoneValue? || value.BoolValue?)
    ensures r.Raise? ==> r.exception == AssertionError
    ensures r.Ok? ==> r.value.meta.Keys == s.meta.Keys + {"Dark"}
    ensures r.Ok? ==> r.value.meta["Dark"] == BoolValue(value != BoolValue(false))
    ensures r.Ok? ==> forall k :: k in s.meta && k != "Dark" ==> r.value.meta[k] == s.meta[k]
    ensures r.Ok? ==> r.value.pixels == s.pixels
  {
    match value
    case NoneValue => Ok(s.(meta := s.meta["Dark" := BoolValue(true)]))
    case BoolValue(b) => Ok(s.(meta := s.meta["Dark" := BoolValue(b)]))
    case _ => Raise(AssertionError)
  }

  /** `setLight()`: only the dark flag changes, to false. */
  function SetLight(s: Spectrum): (r: Spectrum)
    ensures r.meta.Keys == s.meta.Keys + {"Dark"}
    ensures r.meta["Dark"] == BoolValue(false) && IsDarkFlag(r.meta["Dark"])
    ensures forall k :: k in s.meta && k != "Dark" ==> r.meta[k] == s.meta[k]
    ensures r.pixels == s.pixels
  {
    s.(meta := s.meta["Dark" := BoolValue(false)])
  }

  /** The `pixels` getter: fails when the pixels were never set or are empty. */
  function Pixels(s: Spectrum): (r: Result<seq<int>>)
    ensures r.Ok? <==> s.pixels.Some? && |s.pixels.value| > 0
    ensures r.Raise? ==> r.exception == RuntimeError
    ensures r.Ok? ==> r.value == s.pixels.value
  {
    match s.pixels
    case None => Raise(RuntimeError)
    case Some(p) => if |p| == 0 then Raise(RuntimeError) else Ok(p)
  }

  /** The `pixels` setter: stores whatever it is given, `None` included. */
  function SetPixels(s: Spectrum, values: Option<seq<int>>): (r: Spectrum)
    ensures r.meta == s.meta
  {
    s.(pixels := values)
  }

  /** `getNumberOfPixels()`. */
  function NumberOfPixels(s: Spectrum): (r: Result<nat>)
    ensures r.Ok? <==> Pixels(s).Ok?
    ensures r.Raise? ==> r.exception == RuntimeError
    ensures r.Ok? ==> r.value > 0 && r.value == |s.pixels.value|
  {
    var p :- Pixels(s);
    Ok(|p|)
  }

  // ---------------------------------------------------------------------------
  // Spectrum properties

  /** Every operation that can change a spectrum keeps it well formed: whatever a client does
      through the mapping interface, the protected keys stay present and typed. */
  lemma OperationsPreserveWellFormed(s: Spectrum, key: string, value: Value, timestamp: string,
                                     direction: Value, dark: Value, pixels: Option<seq<int>>)
    requires WellFormed(s)
    ensures SetItem(s, key, value).Ok? ==> WellFormed(SetItem(s, key, value).value)
    ensures DelItem(s, key).Ok? ==> WellFormed(DelItem(s, key).value)
    ensures SetUpwelling(s, direction).Ok? ==> WellFormed(SetUpwelling(s, direction).value)
    ensures WellFormed(SetDownwelling(s))
    ensures SetDark(s, dark).Ok? ==> WellFormed(SetDark(s, dark).value)
    ensures WellFormed(SetLight(s))
    ensures WellFormed(SetDatetime(s, timestamp))
    ensures WellFormed(SetPixels(s, pixels))
  {
  }

  /** A protected key can be neither overwritten nor deleted through the mapping interface. */
  lemma ProtectedKeysStay(s: Spectrum, key: string, value: Value)
    requires key in ProtectedKeys
    ensures SetItem(s, key, value) == Raise(KeyError)
    ensures DelItem(s, key) == Raise(KeyError)
  {
  }

  /** Writing an unprotected key and reading it back gives the value written; deleting it
      afterwards removes it again. */
  lemma SetThenGetDel(s: Spectrum, key: string, value: Value)
    requires key !in ProtectedKeys
    ensures SetItem(s, key, value).Ok?
    ensures GetItem(SetItem(s, key, value).value, key) == Ok(value)
    ensures DelItem(SetItem(s, key, value).value, key).Ok?
    ensures GetItem(DelItem(SetItem(s, key, value).value, key).value, key) == Raise(KeyError)
    ensures key !in s.meta ==> DelItem(SetItem(s, key, value).value, key).value == s
  {
    if key !in s.meta {
      assert s.meta[key := value] - {key} == s.meta;
    }
  }

  /** The direction setters agree: `setUpwelling(False)` is `setDownwelling()`, and
      `setUpwelling(True)` is `setUpwelling()`. */
  lemma DirectionSetters(s: Spectrum)
    ensures SetUpwelling(s, BoolValue(false)) == Ok(SetDownwelling(s))
    ensures SetUpwelling(s, BoolValue(true)) == SetUpwelling(s, NoneValue)
  {
  }

  /** The dark setters agree: `setDark(False)` is `setLight()` and `setDark(True)` is `setDark()`. */
  lemma DarkSetters(s: Spectrum)
    ensures SetDark(s, BoolValue(false)) == Ok(SetLight(s))
    ensures SetDark(s, BoolValue(true)) == SetDark(s, NoneValue)
  {
  }

  /** Setting pixels and reading them back gives them when there is at least one. */
  lemma PixelsRoundTrip(s: Spectrum, values: seq<int>)
    ensures Pixels(SetPixels(s, Some(values))) == (if |values| > 0 then Ok(values) else Raise(RuntimeError))
    ensures NumberOfPixels(SetPixels(s, Some(values))).Ok? <==> |values| > 0
    ensures |values| > 0 ==> NumberOfPixels(SetPixels(s, Some(values))) == Ok(|values|)
  {
  }

  /** A new spectrum has three metadata keys and no pixels to read. */
  lemma NewSpectrum(timestamp: string)
    ensures Len(New(timestamp)) == 3
    ensures Pixels(New(timestamp)) == Raise(RuntimeError)
  {
    assert New(timestamp).meta.Keys == ProtectedKeys;
    assert |ProtectedKeys| == 3;
  }

  // ---------------------------------------------------------------------------
  // Spectra list

  datatype SpectraList = SpectraList(spectra: seq<Spectrum>, outDir: string, seqNr: int, prefix: Option<string>)

  /** `PiccoloSpectraList(outDir, seqNr, prefix)`: no spectra yet. */
  function NewList(outDir: string, seqNr: int, prefix: Option<string>): (l: SpectraList)
    ensures l.spectra == [] && l.outDir == outDir && l.seqNr == seqNr && l.prefix == prefix
    ensures ListLen(l) == 0
  {
    SpectraList([], outDir, seqNr, prefix)
  }

  /** `spectra[i]`, negative `i` counting from the end. */
  function ListGetItem(l: SpectraList, i: int): (r: Result<Spectrum>)
    ensures r.Ok? <==> -|l.spectra| <= i < |l.spectra|
    ensures r.Raise? ==> r.exception == IndexError
    ensures r.Ok? ==> r.value == l.spectra[if i < 0 then i + |l.spectra| else i]
  {
    match ListIndex(i, |l.spectra|)
    case Some(j) => Ok(l.spectra[j])
    case None => Raise(IndexError)
  }

  /** `spectra[i] = y`. */
  function ListSetItem(l: SpectraList, i: int, y: Spectrum): (r: Result<SpectraList>)
    ensures r.Ok? <==> -|l.spectra| <= i < |l.spectra|
    ensures r.Raise? ==> r.exception == IndexError
    ensures r.Ok? ==> |r.value.spectra| == |l.spectra|
    ensures r.Ok? ==> r.value.spectra[if i < 0 then i + |l.spectra| else i] == y
    ensures r.Ok? ==> forall j :: 0 <= j < |l.spectra| && j != (if i < 0 then i + |l.spectra| else i)
                       ==> r.value.spectra[j] == l.spectra[j]
    ensures r.Ok? ==> r.value.outDir == l.outDir && r.value.seqNr == l.seqNr && r.value.prefix == l.prefix
  {
    match ListIndex(i, |l.spectra|)
    case Some(j) => Ok(l.(spectra := l.spectra[j := y]))
    case None => Raise(IndexError)
  }

  /** `del spectra[i]`: a spectra list never shrinks. */
  function ListDelItem(l: SpectraList, i: int): (r: Result<SpectraList>)
    ensures r == Raise(RuntimeError)
  {
    Raise(RuntimeError)
  }

  /** `len(spectra)`: the valid indices are exactly `-len` to `len - 1`. */
  function ListLen(l: SpectraList): (n: nat)
    ensures forall i :: ListGetItem(l, i).Ok? <==> 0 <= i + n && i < n
  {
    |l.spectra|
  }

  /** `spectra.insert(i, y)`, with `list.insert`'s clamping of the position. */
  function ListInsert(l: SpectraList, i: int, y: Spectrum): (r: SpectraList)
    ensures |r.spectra| == |l.spectra| + 1
    ensures ListLen(r) == ListLen(l) + 1
    ensures multiset(r.spectra) == multiset(l.spectra) + multiset{y}
    ensures r.outDir == l.outDir && r.seqNr == l.seqNr && r.prefix == l.prefix
  {
    var k := InsertPosition(i, |l.spectra|);
    var s := l.spectra;
    assert s == s[..k] + s[k..];
    assert Insert(s, i, y) == s[..k] + [y] + s[k..];
    l.(spectra := Insert(s, i, y))
  }

  /** `spectra.append(y)`: the `MutableSequence` mixin inserts at the end. */
  function ListAppend(l: SpectraList, y: Spectrum): (r: SpectraList)
    ensures r.spectra == l.spectra + [y]
  {
    var r := ListInsert(l, |l.spectra|, y);
    assert r.spectra[..|l.spectra|] == l.spectra;
    r
  }

  /** Every spectrum in the list is well formed. */
  ghost predicate AllWellFormed(l: SpectraList) {
    forall j :: 0 <= j < |l.spectra| ==> WellFormed(l.spectra[j])
  }

  /** Inserting puts `y` at the clamped position and shifts the rest right by one. */
  lemma ListInsertThenGet(l: SpectraList, i: int, y: Spectrum)
    ensures var k := InsertPosition(i, |l.spectra|);
      && ListGetItem(ListInsert(l, i, y), k) == Ok(y)
      && (forall j :: 0 <= j < k ==> ListGetItem(ListInsert(l, i, y), j) == Ok(l.spectra[j]))
      && (forall j :: k <= j < |l.spectra| ==> ListGetItem(ListInsert(l, i, y), j + 1) == Ok(l.spectra[j]))
  {
    var k := InsertPosition(i, |l.spectra|);
    var m := ListInsert(l, i, y);
    var r := m.spectra;
    assert r == Insert(l.spectra, i, y);
    assert ListGetItem(m, k) == Ok(r[k]);
    forall j | 0 <= j < k ensures ListGetItem(m, j) == Ok(l.spectra[j]) {
      assert r[..k][j] == r[j];
    }
    forall j | k <= j < |l.spectra| ensures ListGetItem(m, j + 1) == Ok(l.spectra[j]) {
      assert r[k + 1..][j - k] == r[j + 1];
    }
  }

  /** `spectra[i] = y` then `spectra[i]` gives `y` back. */
  lemma ListSetThenGet(l: SpectraList, i: int, y: Spectrum)
    requires -|l.spectra| <= i < |l.spectra|
    ensures ListGetItem(ListSetItem(l, i, y).value, i) == Ok(y)
  {
  }

  /** Inserting, appending and replacing well-formed spectra keep every spectrum well formed,
      and nothing can remove one: the list only grows. */
  lemma ListOperationsPreserveWellFormed(l: SpectraList, i: int, y: Spectrum)
    requires AllWellFormed(l) && WellFormed(y)
    ensures AllWellFormed(ListInsert(l, i, y))
    ensures AllWellFormed(ListAppend(l, y))
    ensures ListSetItem(l, i, y).Ok? ==> AllWellFormed(ListSetItem(l, i, y).value)
    ensures ListDelItem(l, i).Raise?
  {
    var r := ListInsert(l, i, y).spectra;
    forall j | 0 <= j < |r| ensures WellFormed(r[j]) {
      assert r[j] in multiset(r);
      if r[j] != y {
        assert r[j] in multiset(l.spectra);
      }
    }
  }

  // ---------------------------------------------------------------------------
  // Output name

  /** The `outName` property: "<prefix>_" when there is a prefix, then the sequence number
      zero-padded to six places (the sign, if any, counting as one), then ".pico". */
  function OutName(l: SpectraList): (name: string)
    ensures |name| >= 11 + (match l.prefix case Some(x) => |x| + 1 case None => 0)
    ensures name[|name| - 5..] == ".pico"
    ensures l.prefix.Some? ==> name[..|l.prefix.value| + 1] == l.prefix.value + "_"
  {
    var p := match l.prefix case Some(x) => x + "_" case None => "";
    var field := Numerals.FormatDecimal(l.seqNr, 6);
    assert |field| >= 6;
    assert (p + field + ".pico")[..|p|] == p;
    p + field + ".pico"
  }

  /** The number field of the output name. */
  function NumberField(l: SpectraList): string {
    Numerals.FormatDecimal(l.seqNr, 6)
  }

  /** The output name is the prefix, the number field and ".pico"; the number field is at
      least six characters, exactly six for 0 <= seqNr < 10^6, and reads back as seqNr. */
  lemma OutNameLayout(l: SpectraList)
    ensures var p := match l.prefix case Some(x) => x + "_" case None => "";
      OutName(l) == p + NumberField(l) + ".pico"
    ensures |NumberField(l)| >= 6
    ensures 0 <= l.seqNr < 1_000_000 ==> |NumberField(l)| == 6
    ensures l.seqNr >= 0 ==> Numerals.ParseDigits(NumberField(l), 10) == Ok(l.seqNr)
    ensures l.seqNr < 0 ==> NumberField(l)[0] == '-'
    ensures l.seqNr < 0 ==> Numerals.ParseDigits(NumberField(l)[1..], 10) == Ok(-l.seqNr)
  {
    if l.seqNr >= 0 {
      Numerals.FormatDecimalReadsBack(l.seqNr, 6);
      if l.seqNr < 1_000_000 {
        assert Numerals.Pow(10, 6) == 1_000_000;
        Numerals.ToDigitsLength(l.seqNr, 10, 6);
      }
    } else {
      Numerals.FormatDecimalNegative(l.seqNr, 6);
    }
  }

  /** Lists with the same prefix write to the same name only when their sequence numbers agree. */
  lemma OutNameInjective(l: SpectraList, m: SpectraList)
    requires l.prefix == m.prefix && OutName(l) == OutName(m)
    ensures l.seqNr == m.seqNr
  {
    OutNameLayout(l);
    OutNameLayout(m);
    var p := match l.prefix case Some(x) => x + "_" case None => "";
    StripAffixes(p, NumberField(l), NumberField(m), ".pico");
    NumberFieldInjective(l, m);
  }

  lemma StripAffixes(p: string, a: string, b: string, sfx: string)
    requires p + a + sfx == p + b + sfx
    ensures a == b
  {
    assert |a| == |b|;
    assert (p + a + sfx)[|p|..|p| + |a|] == a;
    assert (p + b + sfx)[|p|..|p| + |b|] == b;
  }

  lemma NumberFieldInjective(l: SpectraList, m: SpectraList)
    ensures NumberField(l) == NumberField(m) ==> l.seqNr == m.seqNr
  {
    OutNameLayout(l);
    OutNameLayout(m);
    if l.seqNr >= 0 && m.seqNr < 0 {
      NotDigitMinus(NumberField(l));
    } else if l.seqNr < 0 && m.seqNr >= 0 {
      NotDigitMinus(NumberField(m));
    }
  }

  /** A numeral that reads back cannot start with a minus sign. */
  lemma NotDigitMinus(s: string)
    requires Numerals.ParseDigits(s, 10).Ok?
    ensures s[0] != '-'
  {
    assert Numerals.IsDigit(s[0], 10);
  }

  /** The file name of the first sequence number with no prefix, and of number 42 with prefix "run". */
  lemma OutNameExample()
    ensures OutName(NewList("", 0, None)) == "000000.pico"
    ensures OutName(NewList("", 42, Some("run"))) == "run_000042.pico"
  {
    FieldZero();
    FieldFortyTwo();
  }

  lemma FieldZero()
    ensures Numerals.FormatDecimal(0, 6) == "000000"
  {
    assert Numerals.ToDigits(0, 10) == "0";
    assert Numerals.Zeros(5) == "00000";
  }

  lemma FieldFortyTwo()
    ensures Numerals.FormatDecimal(42, 6) == "000042"
  {
    assert Numerals.ToDigits(4, 10) == "4";
    assert Numerals.ToDigits(42, 10) == "42";
    assert Numerals.Zeros(4) == "0000";
  }
}
