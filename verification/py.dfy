/**
 The slice of Python's run-time behaviour the modelled code relies on:
 raised exceptions as a failure-compatible result, dynamically typed values,
 and the index conventions of Python lists.
 */
module Py {

  datatype Option<+T> = None | Some(value: T)

  /** The exception classes the modelled code can raise. */
  datatype Exception =
    | ValueError       // int() of a malformed string, list.index of a missing item, max() of nothing
    | KeyError         // missing or protected mapping key
    | IndexError       // list or bit-array index out of range
    | AssertionError   // a failed `assert isinstance(...)`
    | RuntimeError     // raised explicitly by the spectrum classes
    | AttributeError   // reading an attribute that does not exist
    | TypeError        // base64.b64decode of malformed text: Python 2 re-raises binascii.Error as TypeError

  /** Either a returned value or a raised exception. */
  datatype Result<+T> = Ok(value: T) | Raise(exception: Exception) {

    predicate IsFailure() {
      Raise?
    }

    function PropagateFailure<U>(): Result<U>
      requires Raise?
    {
      Raise(exception)
    }

    function Extract(): T
      requires Ok?
    {
      value
    }
  }

  /** `int(b)` of a bool: 1 for True, 0 for False. */
  function Bit(b: bool): nat {
    if b then 1 else 0
  }

  /** An element of a Python `bytes` string. */
  type Byte = x: int | 0 <= x < 256

  /** A dynamically typed Python value, as stored in a metadata mapping. */
  datatype Value =
    | NoneValue
    | BoolValue(b: bool)
    | IntValue(i: int)
    | StrValue(s: string)

  /** The position `s[i]` reads in a list of length `n`: negative indices count from the end. */
  function ListIndex(i: int, n: nat): (r: Option<nat>)
    ensures r.Some? <==> 0 <= i + n && i < n
    ensures r.Some? ==> r.value < n && (r.value == i || r.value == i + n)
  {
    var j := if i < 0 then i + n else i;
    if 0 <= j < n then Some(j) else None
  }

  /** The position `list.insert(i, x)` puts `x` at: a negative index counts from the end
      and any index outside the list is clamped to its nearest end. */
  function InsertPosition(i: int, n: nat): (r: nat)
    ensures r <= n
    ensures 0 <= i <= n ==> r == i
    ensures 0 <= i + n && i < 0 ==> r == i + n
    ensures i + n < 0 ==> r == 0
    ensures n < i ==> r == n
  {
    var j := if i < 0 then i + n else i;
    if j < 0 then 0 else if j > n then n else j
  }

  /** `list.insert(i, x)`. */
  function Insert<T>(s: seq<T>, i: int, x: T): (r: seq<T>)
    ensures |r| == |s| + 1
    ensures r[InsertPosition(i, |s|)] == x
    ensures r[..InsertPosition(i, |s|)] == s[..InsertPosition(i, |s|)]
    ensures r[InsertPosition(i, |s|) + 1..] == s[InsertPosition(i, |s|)..]
  {
    var k := InsertPosition(i, |s|);
    s[..k] + [x] + s[k..]
  }
}
