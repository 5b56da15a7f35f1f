# piccolo2-common in Dafny

This project models the shared data layer of the Piccolo spectrometer system. It covers four pieces:

- **The array codec** (`piccolo2/PiccoloCompress.py`). `compressArray` casts an integer array to an unsigned width of 8, 16 or 32 bits. It then lays the array out little-endian, deflates it and base64-encodes it. `decompressArray` inverts this. `compressAsDiff` stores the first differences at a narrow width when every one of them is strictly below that width's maximum. Otherwise it stores the array at a fallback width.
- **The status register** (`PiccoloStatus` in `piccolo2/common/PiccoloStatus.py`). This is a `c_uint32` seen through five one-bit fields: connected, busy, paused, file_incremented and new_message. It is exchanged as a hexadecimal string.
- **The extended status** (`PiccoloExtendedStatus` in the same file). It is a bit vector of `2 + S + N*S` bits, where `N` is the number of spectrometers and `S` the number of shutters. The storage is padded to whole bytes. It holds two global flags, one bit per shutter, and one autointegration result per (spectrometer, shutter) pair. It is exchanged as base64 of its packed bytes.
- **Spectra** (`piccolo2/PiccoloSpectra.py`). A spectrum is a metadata mapping whose keys `Direction`, `Dark` and `Datetime` only the dedicated setters may write. A spectra list is a sequence that can grow but never shrinks, and it names its output file after a sequence number.

`piccolo2/PiccoloStatus.py` is a line-for-line copy of `piccolo2/common/PiccoloStatus.py`. The rows below cite the `common` copy, and the same line numbers hold in the other file.

Modules:

- `Py` (py.dfy): the pieces of Python semantics the code relies on. This covers the exception kinds as a `Result`, list indexing with negative indices, and `list.insert`'s clamping.
- `Numerals` (numerals.dfy): digit strings in a base, `int(s, base)`, and `'{:06d}'` formatting.
- `Ordering` (ordering.dfy): Python string comparison and `list.sort()`.
- `Base64` (base64.dfy): the encoding of section 4 of RFC 4648.
- `FixedWidth` (layout.dfy): numpy's unsigned dtypes and the little-endian layout of `tostring` / `fromstring`.
- `Compress` (compress.dfy): the codec.
- `Status` (status.dfy): `PiccoloFlags` and `PiccoloStatus`.
- `BitArray` (bitarray.dfy): `tobytes` and `frombytes` with the big-endian bit order that `bitarray` uses by default.
- `ExtendedStatus` (extended_status.dfy): `PiccoloExtendedStatus`.
- `Spectra` (spectra.dfy): `PiccoloSpectrum` and `PiccoloSpectraList`.

Python's mutating methods become functions that return the new object. Exceptions become `Raise(kind)` values.

## Model

| member | source | states |
|---|---|---|
| Py.ListIndex | piccolo2/PiccoloSpectra.py:23-24 | an index is accepted exactly when `-n <= i < n`, and a negative one counts from the end |
| Py.Insert | piccolo2/PiccoloSpectra.py:32-34 | `list.insert` grows the list by one, puts the item at the clamped position and shifts the rest right |
| Numerals.ToDigits | piccolo2/common/PiccoloStatus.py:52-53 | the digits of a number are valid digits of the base, and there is exactly one digit when the number is below the base |
| Numerals.ParseDigits | piccolo2/common/PiccoloStatus.py:50 | parsing succeeds exactly on a non-empty string of digits of the base |
| Numerals.ParseToDigits | piccolo2/common/PiccoloStatus.py:50-53 | parsing the digits of a number gives the number back |
| Numerals.FormatDecimalReadsBack | piccolo2/PiccoloSpectra.py:42 | the zero-padded decimal of a non-negative number parses back to it, is at least the width long, and is exactly the width when the digits fit |
| Numerals.FormatDecimalNegative | piccolo2/PiccoloSpectra.py:42 | a negative number is rendered as '-' followed by its zero-padded magnitude, and the sign counts toward the width |
| Numerals.ToDigitsLength | piccolo2/PiccoloSpectra.py:42 | a number below `base^k` has at most `k` digits |
| Ordering.Sort | piccolo2/common/PiccoloStatus.py:73-76 | `list.sort()` returns a sorted permutation of its input |
| Ordering.SortIgnoresOrder | piccolo2/common/PiccoloStatus.py:73-76 | two lists holding the same names sort to the same list |
| Ordering.SortedUnique | piccolo2/common/PiccoloStatus.py:73-76 | there is only one sorted arrangement of a multiset of names |
| Base64.Encode | piccolo2/PiccoloCompress.py:13 | the text has four characters for every started group of three bytes |
| Base64.Decode | piccolo2/PiccoloCompress.py:20 | text whose length is not a multiple of four is rejected with TypeError, as Python 2's `b64decode` reports malformed input |
| Base64.DecodeEncode | piccolo2/PiccoloCompress.py:13-20 | decoding the encoding of any byte string gives it back |
| Base64.EncodeAlphabet | piccolo2/PiccoloCompress.py:13 | every character of the encoding is in the base64 alphabet or is padding |
| Compress.CompressArray | piccolo2/PiccoloCompress.py:4-14 | the text is base64 whose decoding is the deflated little-endian buffer of the array cast to the width |
| Compress.DecompressArray | piccolo2/PiccoloCompress.py:18-23 | malformed base64 raises TypeError; a result has the unsigned dtype, fits it, and serializes back to the inflated buffer |
| Compress.CompressAsDiff | piccolo2/PiccoloCompress.py:26-36 | fewer than two elements raise ValueError; otherwise the flag says whether the payload decodes to the deflated differences at the narrow width or to the deflated array at the fallback width |
| FixedWidth.Wrap | piccolo2/PiccoloCompress.py:9-10 | `astype` to an unsigned width keeps the value modulo 2^w, below 2^w, and leaves values in range alone |
| FixedWidth.FromToLittleEndian | piccolo2/PiccoloCompress.py:11 | the little-endian bytes of a value read back as the value |
| FixedWidth.ToFromLittleEndian | piccolo2/PiccoloCompress.py:22 | every byte string of an element's size is the little-endian form of what it reads as |
| FixedWidth.Serialize | piccolo2/PiccoloCompress.py:11 | the buffer is exactly `len(array) * w/8` bytes |
| FixedWidth.SerializeElement | piccolo2/PiccoloCompress.py:11 | element `i` occupies bytes `i*w/8` to `(i+1)*w/8`, least significant first |
| FixedWidth.Deserialize | piccolo2/PiccoloCompress.py:22 | `fromstring` fails exactly when the buffer is not a whole number of elements; otherwise every element fits the width |
| FixedWidth.DeserializeSerialize | piccolo2/PiccoloCompress.py:11-22 | reading back a serialized array gives its elements |
| FixedWidth.SerializeDeserialize | piccolo2/PiccoloCompress.py:22 | every whole number of elements is the serialization of what it reads back as |
| Compress.AsType | piccolo2/PiccoloCompress.py:9-10 | the cast array has the target dtype and every element reduced modulo 2^w |
| Compress.ToBytes | piccolo2/PiccoloCompress.py:9-11 | the cast array's buffer has `w/8` bytes per element |
| Compress.ToBytesLayout | piccolo2/PiccoloCompress.py:9-11 | each element appears wrapped, little-endian, at its offset |
| Compress.CompressRoundTrip | piccolo2/PiccoloCompress.py:4-23 | `decompressArray(compressArray(a, d), d)` is `a` cast to `d`, for a lossless deflate |
| Compress.CompressRoundTripFits | piccolo2/PiccoloCompress.py:48 | when every value fits `d`, the round trip gives back the same values |
| Compress.DecompressRejectsPartialElement | piccolo2/PiccoloCompress.py:21-22 | a decompressed buffer that is not a whole number of elements raises ValueError |
| Compress.Diff | piccolo2/PiccoloCompress.py:32 | `np.diff` has one element fewer than the array, or none for an empty array, and keeps the dtype |
| Compress.MaxOf | piccolo2/PiccoloCompress.py:33 | `np.max` raises ValueError exactly on an empty sequence, and otherwise returns an element no smaller than any other |
| Compress.CompressAsDiffDecision | piccolo2/PiccoloCompress.py:32-36 | fewer than two elements raise ValueError; otherwise the differences are stored at the narrow width exactly when every absolute difference is strictly below its maximum, and the array at the fallback width otherwise |
| Compress.CompressAsDiffStrict | piccolo2/PiccoloCompress.py:33 | the comparison is strict: a difference of 255 with uint8 already falls back |
| Compress.CompressAsDiffFallback | piccolo2/PiccoloCompress.py:35-36 | the fallback payload decodes to the original array when it fits the fallback width |
| Compress.CompressAsDiffExample | piccolo2/PiccoloCompress.py:26-36 | [100, 105, 103, 2000] falls back to uint16 because of the difference 1897, and the payload decodes to the array |
| Compress.Undiff | piccolo2/PiccoloCompress.py:32 | summing the differences onto a first sample gives one element more, starting with that sample |
| Compress.UndiffDiff | piccolo2/PiccoloCompress.py:32 | summing the differences onto the first sample rebuilds the array, with unsigned sums wrapping as numpy's differences do |
| Compress.CompressAsDiffUnsignedLossless | piccolo2/PiccoloCompress.py:32-34 | for an unsigned array, the delta payload together with the first sample decodes to the array |
| Compress.CompressAsDiffSignedCollision | piccolo2/PiccoloCompress.py:32-34 | for a signed array as written, [1000, 1005] and [1000, 749] produce the same delta payload |
| Compress.CompressAsDiffChecked | piccolo2/PiccoloCompress.py:32-36 | the corrected decision stores the differences exactly when every one is representable in the narrow payload |
| Compress.UnstoreWrap | piccolo2/PiccoloCompress.py:34 | a difference in the two's-complement range of the narrow width is recovered from its wrapped byte form |
| Compress.SignedDeltaLossless | piccolo2/PiccoloCompress.py:32-34 | a signed array whose differences all lie in the narrow two's-complement range is rebuilt from its delta payload and first sample |
| Compress.CompressAsDiffCheckedLossless | piccolo2/PiccoloCompress.py:32-36 | with the corrected decision every payload decodes back to the array, the delta one with the first sample |
| Status.FlagNamed | piccolo2/common/PiccoloStatus.py:30-37 | exactly the five field names denote a field |
| Status.WordOfFieldsOf | piccolo2/common/PiccoloStatus.py:39-44 | the bit-field view and `asBytes` are two views of the same 32 bits, starting from the word |
| Status.FieldsOfWordOf | piccolo2/common/PiccoloStatus.py:39-44 | the bit-field view and `asBytes` are two views of the same 32 bits, starting from the fields |
| Status.New | piccolo2/common/PiccoloStatus.py:47-48 | a register built without a flag string reads false in every field and encodes as "0x0" |
| Status.Get | piccolo2/common/PiccoloStatus.py:61-62 | `__getattr__` succeeds exactly for a field name, raises AttributeError otherwise, and gives the bit of `asBytes` under the field's mask |
| Status.Write | piccolo2/common/PiccoloStatus.py:55-59 | writing a field name changes that field of the bit view only; any other name leaves the register as it is |
| Status.Set | piccolo2/common/PiccoloStatus.py:55-56 | after `set(name)` a field name reads true; any other name changes nothing |
| Status.Unset | piccolo2/common/PiccoloStatus.py:58-59 | after `unset(name)` a field name reads false; any other name changes nothing |
| Status.Encode | piccolo2/common/PiccoloStatus.py:52-53 | the text is "0x" followed by hexadecimal digits that parse back to `asBytes` |
| Status.ParseHex | piccolo2/common/PiccoloStatus.py:50 | `int(s, 16)` fails only with ValueError, needs a non-empty text, gives a negative value only after '-', and reads plain digits and "0x"-prefixed digits as their value |
| Status.WithField | piccolo2/common/PiccoloStatus.py:55-59 | writing one field leaves the other fields and the unnamed bits alone |
| Status.FieldIsMaskedBit | piccolo2/common/PiccoloStatus.py:30-37 | each field is the bit of `asBytes` selected by its mask |
| Status.FlagLayout | piccolo2/common/PiccoloStatus.py:30-37 | setting one field of a clear register gives the values 1, 2, 4, 8 and 16, in declaration order |
| Status.WriteFrame | piccolo2/common/PiccoloStatus.py:55-62 | writing a field makes it read back as written, and changes no other field and none of the 27 unnamed bits |
| Status.SetThenGet | piccolo2/common/PiccoloStatus.py:55-62 | after `set(name)` the field reads true and nothing else changes |
| Status.UnsetThenGet | piccolo2/common/PiccoloStatus.py:58-62 | after `unset(name)` the field reads false and nothing else changes |
| Status.WriteSameValue | piccolo2/common/PiccoloStatus.py:55-59 | writing the value a field already has leaves the register as it is |
| Status.UnknownName | piccolo2/common/PiccoloStatus.py:52-62 | reading a name that is not a field, not one of the methods `encode`, `set`, `unset` and not a ctypes name raises AttributeError, and writing it leaves the register unchanged |
| Status.Assign | piccolo2/common/PiccoloStatus.py:64-69 | assignment succeeds exactly for a bool, and dispatches true to `set` and false to `unset` |
| Status.Decode | piccolo2/common/PiccoloStatus.py:47-50 | construction from a string fails exactly when `int(s, 16)` does, and keeps the parsed number modulo 2^32 |
| Status.DecodeEncode | piccolo2/common/PiccoloStatus.py:47-53 | decoding the encoding of a register restores it |
| Status.EncodeInjective | piccolo2/common/PiccoloStatus.py:52-53 | different registers have different encodings |
| BitArray.FromToBits | piccolo2/common/PiccoloStatus.py:140 | the bits of a byte, most significant first, read back as the byte |
| BitArray.ToFromBits | piccolo2/common/PiccoloStatus.py:137 | any eight bits are the bits of the byte they read as |
| BitArray.Pack | piccolo2/common/PiccoloStatus.py:137 | `tobytes` produces one byte per started group of eight bits |
| BitArray.Unpack | piccolo2/common/PiccoloStatus.py:139-140 | `frombytes` produces eight bits per byte |
| BitArray.UnpackPack | piccolo2/common/PiccoloStatus.py:137-140 | unpacking packed bits gives them back followed by the zero padding of the last byte |
| BitArray.UnpackPackWhole | piccolo2/common/PiccoloStatus.py:137-140 | a whole number of bytes of bits unpacks to itself |
| BitArray.PackUnpack | piccolo2/common/PiccoloStatus.py:137-140 | packing unpacked bytes gives them back |
| ExtendedStatus.Len | piccolo2/common/PiccoloStatus.py:78-85 | `len` covers the two global flags and the shutter bits, and ends exactly at the bit of the last (spectrometer, shutter) pair |
| ExtendedStatus.StorageLength | piccolo2/common/PiccoloStatus.py:81 | the storage is a multiple of eight bits and less than eight bits longer than the logical length |
| ExtendedStatus.New | piccolo2/common/PiccoloStatus.py:72-82 | both lists are sorted permutations of the inputs, the length is `2 + S + N*S`, the storage is whole bytes covering it, and every bit is false |
| ExtendedStatus.Status | piccolo2/common/PiccoloStatus.py:87-89 | `status` is the prefix of the storage of logical length, or all of it when the storage is shorter |
| ExtendedStatus.IndexIn | piccolo2/common/PiccoloStatus.py:98 | `list.index` gives the first position holding the name, and raises ValueError exactly when the name is absent |
| ExtendedStatus.GetBit | piccolo2/common/PiccoloStatus.py:109 | reading a bit fails with IndexError exactly beyond the storage |
| ExtendedStatus.SetBit | piccolo2/common/PiccoloStatus.py:105 | writing a bit changes that bit only, and fails with IndexError beyond the storage |
| ExtendedStatus.ShutterIndex | piccolo2/common/PiccoloStatus.py:97-98 | a shutter has an index exactly when it is known, ValueError otherwise, and the index lies in `[2, 2 + S)` at the shutter's sorted position |
| ExtendedStatus.AutoIndex | piccolo2/common/PiccoloStatus.py:99-102 | a pair has an index exactly when both names are known, ValueError otherwise, and the index lies in `[2 + S, len)` |
| ExtendedStatus.StartAutointegration | piccolo2/common/PiccoloStatus.py:104-105 | succeeds exactly when the storage has bit 0, raises IndexError otherwise, and then `isAutointegrating` reads true |
| ExtendedStatus.IsAutointegrating | piccolo2/common/PiccoloStatus.py:108-109 | reads bit 0, and raises IndexError exactly when the storage is empty |
| ExtendedStatus.StopAutointegration | piccolo2/common/PiccoloStatus.py:106-107 | succeeds exactly when the storage has bit 0, raises IndexError otherwise, and then `isAutointegrating` reads false |
| ExtendedStatus.StartRecording | piccolo2/common/PiccoloStatus.py:111-112 | succeeds exactly when the storage has bit 1, raises IndexError otherwise, and then `isRecording` reads true |
| ExtendedStatus.IsRecording | piccolo2/common/PiccoloStatus.py:115-116 | reads bit 1, and raises IndexError exactly when the storage has fewer than two bits |
| ExtendedStatus.StopRecording | piccolo2/common/PiccoloStatus.py:113-114 | succeeds exactly when the storage has bit 1, raises IndexError otherwise, and then `isRecording` reads false |
| ExtendedStatus.Open | piccolo2/common/PiccoloStatus.py:118-119 | an unknown shutter raises ValueError, a bit beyond the storage IndexError; otherwise the shutter then reads open |
| ExtendedStatus.Close | piccolo2/common/PiccoloStatus.py:120-121 | an unknown shutter raises ValueError, a bit beyond the storage IndexError; otherwise the shutter then reads closed |
| ExtendedStatus.IsOpen | piccolo2/common/PiccoloStatus.py:122-123 | fails as `open` does, and otherwise reads the bit at 2 plus the shutter's sorted position |
| ExtendedStatus.IsClosed | piccolo2/common/PiccoloStatus.py:124-125 | `isClosed` is the negation of `isOpen`, and they fail together with the same exception |
| ExtendedStatus.SetAutointegrationResult | piccolo2/common/PiccoloStatus.py:127-128 | an unknown name raises ValueError, a bit beyond the storage IndexError; otherwise the pair then reads `bool(result)` |
| ExtendedStatus.AutoSuccess | piccolo2/common/PiccoloStatus.py:129-130 | fails as `setAutointegrationResult` does, and otherwise the pair then reads true |
| ExtendedStatus.AutoFail | piccolo2/common/PiccoloStatus.py:131-132 | fails as `setAutointegrationResult` does, and otherwise the pair then reads false |
| ExtendedStatus.IsAutointegrationSuccessful | piccolo2/common/PiccoloStatus.py:133-134 | fails as `setAutointegrationResult` does, and otherwise reads the bit at `2 + S + i*S + j` for the sorted positions `i`, `j` |
| ExtendedStatus.Encode | piccolo2/common/PiccoloStatus.py:136-137 | the text is base64 whose decoding is the packed storage |
| ExtendedStatus.Update | piccolo2/common/PiccoloStatus.py:138-140 | the lists stay; valid base64 makes the storage the unpacked bytes; malformed base64 raises TypeError and leaves the storage empty, because it is cleared before decoding |
| ExtendedStatus.ShutterIndexInjective | piccolo2/common/PiccoloStatus.py:97-98 | different shutters have different bits |
| ExtendedStatus.AutoIndexInjective | piccolo2/common/PiccoloStatus.py:99-102 | different (spectrometer, shutter) pairs have different bits |
| ExtendedStatus.IndicesDisjoint | piccolo2/common/PiccoloStatus.py:97-102 | shutter bits, pair bits and the global flags 0 and 1 never share a position |
| ExtendedStatus.NewIgnoresOrder | piccolo2/common/PiccoloStatus.py:73-76 | the status built from the names does not depend on the order they are given in |
| ExtendedStatus.FlagOperationsSucceed | piccolo2/common/PiccoloStatus.py:104-134 | on a status whose storage covers its bits, every operation on known names succeeds and its query reads back what was written |
| ExtendedStatus.ShutterWriteFrame | piccolo2/common/PiccoloStatus.py:118-121 | `open` and `close` leave the global flags, the other shutters and every pair result unchanged |
| ExtendedStatus.AutoWriteFrame | piccolo2/common/PiccoloStatus.py:127-132 | recording a result leaves the global flags, the shutters and every other pair unchanged |
| ExtendedStatus.GlobalFlagFrame | piccolo2/common/PiccoloStatus.py:104-116 | writing bit 0 or 1 leaves the other global flag, the shutters and the pair results unchanged |
| ExtendedStatus.SetBitKeepsBytes | piccolo2/common/PiccoloStatus.py:81-82 | writing a bit keeps the storage a whole number of bytes that covers the logical length |
| ExtendedStatus.EncodeUpdate | piccolo2/common/PiccoloStatus.py:136-140 | `update(encode())` on a status built from the same lists reproduces the status |
| ExtendedStatus.UpdateUnchecked | piccolo2/common/PiccoloStatus.py:138-140 | `update` accepts any valid base64 and makes the storage exactly its bits, whatever the logical length |
| ExtendedStatus.UpdateEmptyBreaksStatus | piccolo2/common/PiccoloStatus.py:138-140 | updating with an empty payload succeeds and leaves a status whose flag writes raise IndexError |
| ExtendedStatus.UpdateFailureEmpties | piccolo2/common/PiccoloStatus.py:138-140 | after malformed base64, TypeError is raised and the status is left empty: it encodes as "", and every flag write and query raises |
| ExtendedStatus.UpdateMalformedExample | piccolo2/common/PiccoloStatus.py:138-140 | `update("A")` raises TypeError and leaves empty storage that encodes as "" |
| ExtendedStatus.Example | piccolo2/common/PiccoloStatus.py:156-163 | spectrometers sA, sB and shutters up, down give eight bits, 'up' at bit 3 and (sA, down) at bit 4 |
| ExtendedStatus.ExampleEncoding | piccolo2/common/PiccoloStatus.py:162-169 | after opening 'up' and a success for (sA, down), the bits are 00011000 and the encoding is "GA==" |
| ExtendedStatus.SortPair | piccolo2/common/PiccoloStatus.py:73-76 | two names in order sort to that order whichever way they are given |
| Spectra.SetDatetime | piccolo2/PiccoloSpectra.py:130-138 | the time stamp is the ISO text followed by 'Z', and no other key changes |
| Spectra.New | piccolo2/PiccoloSpectra.py:81-86 | a new spectrum has exactly the three protected keys, direction and dark flag missing, and no pixels |
| Spectra.GetItem | piccolo2/PiccoloSpectra.py:88-89 | reading a key fails with KeyError exactly when it is absent |
| Spectra.SetItem | piccolo2/PiccoloSpectra.py:91-94 | writing fails with KeyError exactly for a protected key, and otherwise stores that key only |
| Spectra.DelItem | piccolo2/PiccoloSpectra.py:96-99 | deleting fails with KeyError for a protected or absent key, and otherwise removes that key only |
| Spectra.SetUpwelling | piccolo2/PiccoloSpectra.py:107-118 | no value or true gives 'Upwelling', false gives 'Downwelling', anything else fails the assertion; only the direction changes |
| Spectra.SetDownwelling | piccolo2/PiccoloSpectra.py:117-118 | the direction becomes 'Downwelling', a valid direction, and no other key or the pixels change |
| Spectra.SetDark | piccolo2/PiccoloSpectra.py:120-125 | no value gives true, a bool is stored as given, anything else fails the assertion; only the dark flag changes |
| Spectra.SetLight | piccolo2/PiccoloSpectra.py:127-128 | the dark flag becomes false, and no other key or the pixels change |
| Spectra.Len | piccolo2/PiccoloSpectra.py:104-105 | `len` is the number of metadata keys, at least the three protected ones on a well-formed spectrum |
| Spectra.Pixels | piccolo2/PiccoloSpectra.py:140-146 | the getter fails with RuntimeError exactly when the pixels are unset or empty |
| Spectra.SetPixels | piccolo2/PiccoloSpectra.py:147-149 | setting pixels leaves the metadata alone |
| Spectra.NumberOfPixels | piccolo2/PiccoloSpectra.py:151-152 | the count is the length of the pixels, and it fails exactly when the getter does |
| Spectra.OperationsPreserveWellFormed | piccolo2/PiccoloSpectra.py:91-138 | no operation can remove a protected key or give it a value its setter would not write |
| Spectra.ProtectedKeysStay | piccolo2/PiccoloSpectra.py:13 | writing or deleting 'Direction', 'Dark' or 'Datetime' through the mapping raises KeyError |
| Spectra.SetThenGetDel | piccolo2/PiccoloSpectra.py:88-99 | an unprotected key reads back as written, and deleting it afterwards restores the mapping it was added to |
| Spectra.DirectionSetters | piccolo2/PiccoloSpectra.py:107-118 | `setUpwelling(False)` is `setDownwelling()` and `setUpwelling(True)` is `setUpwelling()` |
| Spectra.DarkSetters | piccolo2/PiccoloSpectra.py:120-128 | `setDark(False)` is `setLight()` and `setDark(True)` is `setDark()` |
| Spectra.PixelsRoundTrip | piccolo2/PiccoloSpectra.py:140-152 | pixels read back as set when there is at least one, and their number is their length |
| Spectra.NewSpectrum | piccolo2/PiccoloSpectra.py:81-86 | a new spectrum has three keys and its pixels cannot be read |
| Spectra.NewList | piccolo2/PiccoloSpectra.py:17-21 | a new spectra list is empty, with `len` zero, and keeps its directory, number and prefix |
| Spectra.ListGetItem | piccolo2/PiccoloSpectra.py:23-24 | reading fails with IndexError exactly outside `[-n, n)` |
| Spectra.ListSetItem | piccolo2/PiccoloSpectra.py:25-27 | replacing fails with IndexError exactly outside `[-n, n)`, and otherwise changes that position only |
| Spectra.ListDelItem | piccolo2/PiccoloSpectra.py:28-29 | deletion always raises RuntimeError |
| Spectra.ListLen | piccolo2/PiccoloSpectra.py:30-31 | `len` bounds the valid indices: reading succeeds exactly for `-len <= i < len` |
| Spectra.ListInsert | piccolo2/PiccoloSpectra.py:32-34 | inserting adds exactly one spectrum and removes none, so `len` grows by one |
| Spectra.ListAppend | piccolo2/PiccoloSpectra.py:32-34 | appending puts the spectrum after all the others |
| Spectra.ListInsertThenGet | piccolo2/PiccoloSpectra.py:32-34 | the inserted spectrum sits at the clamped position, with the ones before it unchanged and the ones after it moved up by one |
| Spectra.ListSetThenGet | piccolo2/PiccoloSpectra.py:23-27 | a replaced position reads back the new spectrum |
| Spectra.ListOperationsPreserveWellFormed | piccolo2/PiccoloSpectra.py:25-34 | inserting, appending and replacing keep every spectrum well formed, and deletion is always refused |
| Spectra.OutName | piccolo2/PiccoloSpectra.py:36-42 | the name starts with `prefix_` when there is a prefix, ends with ".pico", and has room for a six-character number between them |
| Spectra.OutNameLayout | piccolo2/PiccoloSpectra.py:36-42 | the name is the optional `prefix_`, a number field of at least six characters (exactly six for 0 to 999999) that reads back as the sequence number, and ".pico" |
| Spectra.OutNameInjective | piccolo2/PiccoloSpectra.py:36-42 | lists with the same prefix get the same name only when their sequence numbers agree |
| Spectra.OutNameExample | piccolo2/PiccoloSpectra.py:36-42 | sequence number 0 with no prefix gives "000000.pico", and 42 with prefix "run" gives "run_000042.pico" |

## Left out

- zlib is not modelled. `Compress.Zlib` is a parameter: a compressor and a decompressor. The round-trip lemmas require only `Compress.Lossless`, which says the decompressor undoes the compressor.
- Base64.Decode is strict: it accepts only canonical padded text. Python's `b64decode` also discards characters outside the alphabet and tolerates some malformed padding. The strict decoder agrees with it on everything `b64encode` produces.
- Status.ParseHex and Status.Decode, through Numerals.ParseDigits, do not accept the surrounding whitespace that `int(s, 16)` tolerates: `int(" -5", 16)` is -5, while `Status.ParseHex(" -5")` raises ValueError.
- Compress.DType: `Signed` stands for a signed dtype wide enough that no difference overflows, such as int64 holding sensor counts. int64 wrap-around and float arrays are not modelled.
- The random data and the JSON size comparison in the demo at the end of `piccolo2/PiccoloCompress.py` are left out. Only its round-trip assertion is kept, as `Compress.CompressRoundTripFits`.
- Spectra.SetDatetime takes the ISO 8601 text of the time stamp as a parameter. Reading the clock, `datetime.strptime` and `isoformat` are not modelled.
- `serialize`, `write` and `outPath` of the spectra list are not modelled, because they are JSON encoding and file system I/O. Dictionary iteration order is not modelled either.
- Other methods inherited from `MutableMapping` and `MutableSequence`, such as `pop`, `remove`, `extend` and `update`, are not modelled. Among them only `append` is modelled, as `Spectra.ListAppend`.
- Spectra.ListSetItem and Spectra.ListInsert: the `isinstance(y, PiccoloSpectrum)` assertion always holds here, because the model's types already require a spectrum.
- Metadata keys are strings, and metadata values are None, bools, integers or strings (`Py.Value`).
- The worker thread classes and `setup.py` are not part of this model, because they are concurrency and packaging.
- Status.UnknownName and Status.Get: two kinds of name are outside the model. The methods `encode`, `set` and `unset` are found by ordinary attribute lookup, so `status.encode` is a bound method and `__getattr__` never runs for it. Names beginning with '_' that ctypes itself defines on the structure are also outside it: `_fields_` reads as False rather than raising. `Status.UnknownName` therefore requires a name that is neither a method (`Status.MethodName`) nor begins with '_'.
- Status.Write: writing the read-only ctypes member `_b_base_` raises AttributeError, which the model treats as a no-op like any other non-field name. Writing a method name goes through `__setattr__` to the temporary bit view and is a no-op, as modelled.
- Spectra.ListGetItem and Spectra.ListSetItem: only integer indices are modelled. Slice indices are not, so the model does not say that a slice read never raises IndexError.
- Choices where the code's behaviour might be expected to differ, in which the model follows the code:
  - Writing an unknown status flag name is a silent no-op, and reading one raises AttributeError. There is no dedicated unknown-flag error.
  - `update` of the extended status does no length check.
  - The delta payload does not carry the first sample, so `Compress.DecodeDelta` takes it as an argument.
  - Errors are Python's built-in exceptions. For example, a buffer that is not a whole number of elements raises `ValueError` in `numpy.fromstring`.

## Findings

| source | as written | input that shows it | evidently intended | confidence | as-written member | corrected member |
|---|---|---|---|---|---|---|
| piccolo2/PiccoloCompress.py:32-34 | The delta branch is taken whenever `max(abs(diff)) < iinfo(dtype).max`, and then the differences are cast to the unsigned narrow dtype. A negative difference of a signed array wraps, so a difference of -251 is stored as 5. | int64 arrays [1000, 1005] and [1000, 749] with dtype uint8: both give `(True, payload)` with the same payload | the abs test admits negative differences, so they should be stored only when the narrow type can carry them without ambiguity, in its two's-complement range | medium, not executed | Compress.CompressAsDiffSignedCollision | Compress.CompressAsDiffCheckedLossless |
