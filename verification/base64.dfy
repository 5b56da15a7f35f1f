/**
 The base 64 encoding of section 4 of RFC 4648, as `base64.b64encode` writes
 it and `base64.b64decode` reads it: every three bytes become four characters
 of the alphabet A-Z a-z 0-9 + /, and a short final group is padded with '='.
 */
module Base64 {

  import opened Py

  /** The character of the 6-bit value `i` (Table 1 of RFC 4648). */
  function CharOf(i: nat): (c: char)
    requires i < 64
    ensures c != '='
  {
    if i < 26 then ('A' as int + i) as char
    else if i < 52 then ('a' as int + i - 26) as char
    else if i < 62 then ('0' as int + i - 52) as char
    else if i == 62 then '+'
    else '/'
  }

  /** The 6-bit value of an alphabet character; the padding character and
      everything outside the alphabet have none. */
  function IndexOf(c: char): (r: Option<nat>)
    ensures r.Some? ==> r.value < 64
  {
    if 'A' <= c <= 'Z' then Some(c as int - 'A' as int)
    else if 'a' <= c <= 'z' then Some(c as int - 'a' as int + 26)
    else if '0' <= c <= '9' then Some(c as int - '0' as int + 52)
    else if c == '+' then Some(62)
    else if c == '/' then Some(63)
    else None
  }

  lemma IndexOfCharOf(i: nat)
    requires i < 64
    ensures IndexOf(CharOf(i)) == Some(i)
  {
  }

  /** Three bytes as four characters. */
  function EncodeTriple(b0: Byte, b1: Byte, b2: Byte): string {
    [CharOf(b0 / 4), CharOf((b0 % 4) * 16 + b1 / 16), CharOf((b1 % 16) * 4 + b2 / 64), CharOf(b2 % 64)]
  }

  /** `base64.b64encode(data)`. */
  function Encode(data: seq<Byte>): (s: string)
    ensures |s| == 4 * ((|data| + 2) / 3)
    decreases |data|
  {
    if |data| >= 3 then EncodeTriple(data[0], data[1], data[2]) + Encode(data[3..])
    else if |data| == 2 then
      [CharOf(data[0] / 4), CharOf((data[0] % 4) * 16 + data[1] / 16), CharOf((data[1] % 16) * 4), '=']
    else if |data| == 1 then
      [CharOf(data[0] / 4), CharOf((data[0] % 4) * 16), '=', '=']
    else []
  }

  /** Four alphabet characters as three bytes. */
  function DecodeQuad(i0: nat, i1: nat, i2: nat, i3: nat): seq<Byte>
    requires i0 < 64 && i1 < 64 && i2 < 64 && i3 < 64
  {
    [i0 * 4 + i1 / 16, (i1 % 16) * 16 + i2 / 4, (i2 % 4) * 64 + i3]
  }

  /** Decodes one group of four characters; only the last group may end in padding. */
  function DecodeGroup(c0: char, c1: char, c2: char, c3: char, last: bool): (r: Result<seq<Byte>>)
    ensures r.Ok? ==> 1 <= |r.value| <= 3
    ensures r.Raise? ==> r.exception == TypeError
    ensures r.Ok? && !last ==> |r.value| == 3
  {
    var i0, i1, i2, i3 := IndexOf(c0), IndexOf(c1), IndexOf(c2), IndexOf(c3);
    if i0.None? || i1.None? then Raise(TypeError)
    else if i2.Some? && i3.Some? then
      Ok(DecodeQuad(i0.value, i1.value, i2.value, i3.value))
    else if last && i2.Some? && c3 == '=' then
      Ok([i0.value * 4 + i1.value / 16, (i1.value % 16) * 16 + i2.value / 4])
    else if last && c2 == '=' && c3 == '=' then
      Ok([i0.value * 4 + i1.value / 16])
    else Raise(TypeError)
  }

  /** `base64.b64decode(s)` on canonical input: the length is a multiple of four,
      every character is in the alphabet, and '=' appears only as final padding. */
  function Decode(s: string): (r: Result<seq<Byte>>)
    ensures |s| % 4 != 0 ==> r == Raise(TypeError)
    ensures r.Raise? ==> r.exception == TypeError
    decreases |s|
  {
    if |s| % 4 != 0 then Raise(TypeError)
    else if |s| == 0 then Ok([])
    else Concat(DecodeGroup(s[0], s[1], s[2], s[3], |s| == 4), Decode(s[4..]))
  }

  /** The bytes of a group followed by those of the rest; the first failure wins. */
  function Concat(head: Result<seq<Byte>>, tail: Result<seq<Byte>>): (r: Result<seq<Byte>>)
    ensures r.Ok? <==> head.Ok? && tail.Ok?
    ensures r.Ok? ==> r.value == head.value + tail.value
    ensures r.Raise? ==> r.exception == (if head.Raise? then head.exception else tail.exception)
  {
    if head.Raise? then head
    else if tail.Raise? then tail
    else Ok(head.value + tail.value)
  }

  /** `(q*k + r) / k == q` and `(q*k + r) % k == r` for the divisors 4 and 16. */
  lemma SplitJoin(q: nat, r: nat, k: nat)
    requires k == 4 || k == 16
    requires r < k
    ensures (q * k + r) / k == q && (q * k + r) % k == r
  {
  }

  /** Splitting three bytes into four 6-bit values and joining them again gives the bytes back. */
  lemma Recombine(b0: Byte, b1: Byte, b2: Byte)
    ensures (b0 % 4) * 16 + b1 / 16 < 64 && (b1 % 16) * 4 + b2 / 64 < 64
    ensures DecodeQuad(b0 / 4, (b0 % 4) * 16 + b1 / 16, (b1 % 16) * 4 + b2 / 64, b2 % 64) == [b0, b1, b2]
  {
    SplitJoin(b0 % 4, b1 / 16, 16);
    SplitJoin(b1 % 16, b2 / 64, 4);
  }

  /** A full group decodes to the three bytes it encodes, wherever it stands. */
  lemma TripleRoundTrip(b0: Byte, b1: Byte, b2: Byte, last: bool)
    ensures var g := EncodeTriple(b0, b1, b2);
      DecodeGroup(g[0], g[1], g[2], g[3], last) == Ok([b0, b1, b2])
  {
    var c0, c1, c2, c3 := b0 / 4, (b0 % 4) * 16 + b1 / 16, (b1 % 16) * 4 + b2 / 64, b2 % 64;
    Recombine(b0, b1, b2);
    IndexOfCharOf(c0);
    IndexOfCharOf(c1);
    IndexOfCharOf(c2);
    IndexOfCharOf(c3);
  }

  /** The final group of two bytes, with one '=', decodes to them. */
  lemma PairRoundTrip(b0: Byte, b1: Byte)
    ensures var g := Encode([b0, b1]);
      DecodeGroup(g[0], g[1], g[2], g[3], true) == Ok([b0, b1])
  {
    var c1, c2 := (b0 % 4) * 16 + b1 / 16, (b1 % 16) * 4;
    IndexOfCharOf(b0 / 4);
    IndexOfCharOf(c1);
    IndexOfCharOf(c2);
    SplitJoin(b0 % 4, b1 / 16, 16);
    SplitJoin(b1 % 16, 0, 4);
  }

  /** The final group of one byte, with two '=', decodes to it. */
  lemma SingleRoundTrip(b0: Byte)
    ensures var g := Encode([b0]);
      DecodeGroup(g[0], g[1], g[2], g[3], true) == Ok([b0])
  {
    IndexOfCharOf(b0 / 4);
    IndexOfCharOf((b0 % 4) * 16);
    SplitJoin(b0 % 4, 0, 16);
  }

  /** Text of one group decodes to the group's bytes. */
  lemma DecodeLast(s: string, b: seq<Byte>)
    requires |s| == 4 && DecodeGroup(s[0], s[1], s[2], s[3], true) == Ok(b)
    ensures Decode(s) == Ok(b)
  {
    assert s[4..] == [];
    assert b + [] == b;
  }

  lemma DecodeAppend(head: string, rest: string, hb: seq<Byte>, rb: seq<Byte>)
    requires |head| == 4 && |rest| % 4 == 0
    requires DecodeGroup(head[0], head[1], head[2], head[3], |rest| == 0) == Ok(hb)
    requires Decode(rest) == Ok(rb)
    ensures Decode(head + rest) == Ok(hb + rb)
  {
    var s := head + rest;
    assert s[0] == head[0] && s[1] == head[1] && s[2] == head[2] && s[3] == head[3];
    assert s[4..] == rest;
    GroupMore(|rest|);
  }

  lemma {:induction false} EncodeWholeGroups(data: seq<Byte>)
    ensures |Encode(data)| % 4 == 0
    decreases |data|
  {
    if |data| >= 3 {
      EncodeWholeGroups(data[3..]);
      GroupMore(|Encode(data[3..])|);
      assert |Encode(data)| == |Encode(data[3..])| + 4;
    }
  }

  lemma GroupMore(n: nat)
    requires n % 4 == 0
    ensures (n + 4) % 4 == 0
  {
    var k := n / 4;
    assert n == 4 * k;
    assert n + 4 == 4 * (k + 1);
  }

  /** Decoding what `Encode` wrote gives back the bytes (the round trip of section 4 of RFC 4648). */
  lemma {:induction false} DecodeEncode(data: seq<Byte>)
    ensures Decode(Encode(data)) == Ok(data)
    decreases |data|
  {
    if |data| >= 3 {
      DecodeEncode(data[3..]);
      DecodeEncodeStep(data);
    } else if |data| > 0 {
      DecodeEncodeShort(data);
    }
  }

  lemma DecodeEncodeStep(data: seq<Byte>)
    requires |data| >= 3 && Decode(Encode(data[3..])) == Ok(data[3..])
    ensures Decode(Encode(data)) == Ok(data)
  {
    var head, rest := EncodeTriple(data[0], data[1], data[2]), Encode(data[3..]);
    EncodeWholeGroups(data[3..]);
    TripleRoundTrip(data[0], data[1], data[2], |rest| == 0);
    DecodeAppend(head, rest, [data[0], data[1], data[2]], data[3..]);
    assert Encode(data) == head + rest;
    SplitThree(data);
  }

  lemma SplitThree<T>(s: seq<T>)
    requires |s| >= 3
    ensures s == [s[0], s[1], s[2]] + s[3..]
  {
  }

  lemma DecodeEncodeShort(data: seq<Byte>)
    requires 0 < |data| < 3
    ensures Decode(Encode(data)) == Ok(data)
  {
    if |data| == 2 {
      PairRoundTrip(data[0], data[1]);
      assert data == [data[0], data[1]];
    } else {
      SingleRoundTrip(data[0]);
      assert data == [data[0]];
    }
    DecodeLast(Encode(data), data);
  }

  /** Every encoding is made of alphabet characters, with at most two '=' at the end. */
  lemma {:induction false} EncodeAlphabet(data: seq<Byte>)
    ensures forall i :: 0 <= i < |Encode(data)| ==>
      IndexOf(Encode(data)[i]).Some? || (Encode(data)[i] == '=' && i >= |Encode(data)| - 2)
    decreases |data|
  {
    var s := Encode(data);
    if |data| >= 3 {
      var b0, b1, b2 := data[0], data[1], data[2];
      IndexOfCharOf(b0 / 4);
      IndexOfCharOf((b0 % 4) * 16 + b1 / 16);
      IndexOfCharOf((b1 % 16) * 4 + b2 / 64);
      IndexOfCharOf(b2 % 64);
      EncodeAlphabet(data[3..]);
      var head := EncodeTriple(b0, b1, b2);
      assert s == head + Encode(data[3..]);
      forall i | 0 <= i < |s|
        ensures IndexOf(s[i]).Some? || (s[i] == '=' && i >= |s| - 2)
      {
        if i < 4 {
          assert s[i] == head[i];
        } else {
          assert s[i] == Encode(data[3..])[i - 4];
        }
      }
    } else if |data| == 2 {
      IndexOfCharOf(data[0] / 4);
      IndexOfCharOf((data[0] % 4) * 16 + data[1] / 16);
      IndexOfCharOf((data[1] % 16) * 4);
    } else if |data| == 1 {
      IndexOfCharOf(data[0] / 4);
      IndexOfCharOf((data[0] % 4) * 16);
    }
  }
}
