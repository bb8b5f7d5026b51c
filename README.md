# StringUtils text routines of the Flax engine, in Dafny

This project models the platform-independent text routines of the Flax
engine's `StringUtils` (`Source/Engine/Platform/Base/StringUtilsBase.cpp`)
and proves what they compute:

- **ConvertUTF82UTF16** (module `Utf8`, with `Utf16`). First a validating
  pass walks the UTF-8 bytes and collects code points. Then the code points
  are counted as UTF-16 units and copied into the caller's buffer. The
  decoder is the imperative loop of the source (`CollectCodePoints`,
  `ReadSequence`, `ReadContinuations`), proved against a functional decoder
  `Decode`. Its four rejection cases, its permissive points (overlong forms,
  leads F5-F7) and its round trip with a shortest-form encoder are lemmas.
  The surrogate arithmetic of the copy loop is a separate function with
  round-trip lemmas against a strict UTF-16 decoder.
- **PathRemoveRelativeParts** (module `RelativeParts`). The segment stack
  drops "." and lets ".." cancel an ordinary segment. The stack is proved to
  keep its shape (no ".", the ".." entries form a prefix), and resolving
  twice is resolving once. The rebuild joins with '/' and is rooted exactly
  when the path was.
- **GetDirectoryName, GetFileName, GetFileNameWithoutExtension and
  GetPathWithoutExtension** (module `PathParts`): last-occurrence scans,
  each specified by the separator it cuts at.
- **ToString for int32, int64, uint32 and uint64** (modules `DigitPairs` and
  `IntegerText`): the `digit_pairs` table and the backwards two-digit fill of
  a 15-character buffer, with C++ truncating division. The result is proved
  to be the decimal text of the value. That text reads back as the value,
  has no leading zeros, and carries '-' exactly for negative values.
- **FindIgnoreCase** for `Char` and `char` strings (module `Search`),
  generic over the character type: the leftmost case-insensitive match, or
  null.

`Options` holds the `Option` type that stands for a nullable pointer.

Inputs the model takes as parameters instead of computing them:
- the case fold `upper` stands for ToUpper and CompareIgnoreCase;
- PathRemoveRelativeParts receives the normalized path and its segments;
- ConvertUtf8ToUtf16 receives the bytes as a sequence (`fromLength` is its
  length), the output buffer as an array, and returns `*toLength`.

## Model

| member | source | states |
|---|---|---|
| Search.RunsOut | Source/Engine/Platform/Base/StringUtilsBase.cpp:43 | a case-insensitive comparison that runs past the end of `str` meets its terminator and fails |
| Search.TestAt | Source/Engine/Platform/Base/StringUtilsBase.cpp:40-43 | the scan's test at `i` (case-folded character equals the folded initial, then the rest of `toFind` compares equal) holds exactly when `toFind` occurs at `i` ignoring case; never for an empty `toFind` |
| Search.Scan | Source/Engine/Platform/Base/StringUtilsBase.cpp:27-54 | the scan returns a position where `toFind` matches and no match lies before it; when it returns null there is no match anywhere |
| Search.FindIgnoreCase | Source/Engine/Platform/Base/StringUtilsBase.cpp:19-93 | null when either argument is null; otherwise a position is returned exactly when a match exists, and it is the leftmost match |
| Utf8.Lead | Source/Engine/Platform/Base/StringUtilsBase.cpp:104-135 | a lead byte is rejected exactly when it is in 0x80-0xBF or at least 0xF8; otherwise its payload is below 0x80 and it announces at most three continuation bytes, none exactly for ASCII |
| Utf8.Continue | Source/Engine/Platform/Base/StringUtilsBase.cpp:137-153 | on success the continuation loop ends exactly `todo` bytes further on, inside the input |
| Utf8.DecodeAt | Source/Engine/Platform/Base/StringUtilsBase.cpp:104-159 | a decoded sequence advances the index and yields a Unicode scalar value |
| Utf8.ReadContinuations | Source/Engine/Platform/Base/StringUtilsBase.cpp:137-153 | the imperative continuation loop succeeds exactly when the functional one does, with the same value and end index |
| Utf8.ReadSequence | Source/Engine/Platform/Base/StringUtilsBase.cpp:102-159 | one turn of the validating loop succeeds exactly when DecodeAt does, with the same code point and next index |
| Utf8.CollectCodePoints | Source/Engine/Platform/Base/StringUtilsBase.cpp:97-162 | the validating pass succeeds exactly when Decode does, and then collects exactly Decode's code points |
| Utf8.ConvertUtf8ToUtf16 | Source/Engine/Platform/Base/StringUtilsBase.cpp:95-190 | on failure `toLength` is 0 and `to` is unchanged; on success (every code point at most U+FFFF) `toLength` is the number of code points, `to[..toLength]` is their UTF-16 encoding, and the rest of `to` is unchanged |
| Utf8.Decode | Source/Engine/Platform/Base/StringUtilsBase.cpp:97-162 | when the validating pass succeeds, every collected code point is a Unicode scalar value and there are no more code points than bytes |
| Utf8.DecodeFromScalar | Source/Engine/Platform/Base/StringUtilsBase.cpp:100-162 | the same for the pass started at any index `i`: no more code points than the `|from| - i` bytes left |
| Utf8.DecodeAppend | Source/Engine/Platform/Base/StringUtilsBase.cpp:100-162 | after a well-formed prefix, decoding continues with the rest as if it stood alone |
| Utf8.InvalidLeadFails | Source/Engine/Platform/Base/StringUtilsBase.cpp:111-115 | a lead byte in 0x80-0xBF or at least 0xF8 after a well-formed prefix makes decoding fail with InvalidLead, whatever follows |
| Utf8.TruncatedFails | Source/Engine/Platform/Base/StringUtilsBase.cpp:139-143 | input that ends before the announced continuation bytes fails with Truncated |
| Utf8.InvalidContinuationFails | Source/Engine/Platform/Base/StringUtilsBase.cpp:145-149 | a byte outside 0x80-0xBF where a continuation byte is due fails with InvalidContinuation |
| Utf8.InvalidCodePointFails | Source/Engine/Platform/Base/StringUtilsBase.cpp:155-159 | a complete sequence whose value is a surrogate or above 0x10FFFF fails with InvalidCodePoint |
| Utf8.DecodeSequence | Source/Engine/Platform/Base/StringUtilsBase.cpp:116-161 | a complete sequence decodes to the lead byte's masked payload followed by six bits of each continuation byte, and is rejected exactly when that value is not a scalar value |
| Utf8.ContinueReads | Source/Engine/Platform/Base/StringUtilsBase.cpp:137-153 | reading `n` continuation bytes appends their six-bit groups to the value and advances the index by `n` |
| Utf8.DecodeAscii | Source/Engine/Platform/Base/StringUtilsBase.cpp:106-110 | all-ASCII input decodes to its bytes one to one, so ConvertUtf8ToUtf16 copies it with `toLength == fromLength` |
| Utf8.OverlongAccepted | Source/Engine/Platform/Base/StringUtilsBase.cpp:116-120 | the overlong form C0 80 is accepted and decodes to U+0000, just as 00 does |
| Utf8.F5ToF7Rejected | Source/Engine/Platform/Base/StringUtilsBase.cpp:126-130 | leads F5-F7 pass the lead-byte test and are rejected only by the range check of line 155 |
| Utf8.EncodeScalarDecodes | Source/Engine/Platform/Base/StringUtilsBase.cpp:104-161 | the shortest UTF-8 form of a scalar value is decoded back to that value, whatever follows it |
| Utf8.Utf8RoundTrip | Source/Engine/Platform/Base/StringUtilsBase.cpp:97-162 | decoding the shortest-form encoding of any scalar values gives them back |
| Utf8.SupplementaryOverrunsCount | Source/Engine/Platform/Base/StringUtilsBase.cpp:164-172 | F0 9F 98 80 passes validation as U+1F600, after which the count loop as written reads past the code-point array |
| Utf16.SurrogatePair | Source/Engine/Platform/Base/StringUtilsBase.cpp:185-187 | for a code point 0x10000-0x10FFFF, `((c - 0x10000) >> 10) + 0xD800` is a high surrogate and `((c - 0x10000) & 0x3FF) + 0xDC00` a low one |
| Utf16.CombineSurrogates | Source/Engine/Platform/Base/StringUtilsBase.cpp:185-187 | a high and a low surrogate combine to a scalar value in 0x10000-0x10FFFF |
| Utf16.SplitThenCombine | Source/Engine/Platform/Base/StringUtilsBase.cpp:185-187 | splitting a supplementary code point into its pair and combining the pair gives the code point back |
| Utf16.CombineThenSplit | Source/Engine/Platform/Base/StringUtilsBase.cpp:185-187 | combining a surrogate pair and splitting the result gives the pair back |
| Utf16.SupplementaryCount | Source/Engine/Platform/Base/StringUtilsBase.cpp:166-172 | the number of code points above U+FFFF is at most the number of code points, and zero exactly when all are in the Basic Multilingual Plane |
| Utf16.CountUnitsAsWritten | Source/Engine/Platform/Base/StringUtilsBase.cpp:164-172 | when the count loop as written stays inside the code points, the count it ends with is at least its starting bound `length`, and, once the loop has run at all, at most the number of code points |
| Utf16.EncodeUtf16 | Source/Engine/Platform/Base/StringUtilsBase.cpp:179-187 | the intended emission: one unit per code point at most U+FFFF (lines 179-182) and the surrogate pair of lines 185-187 for each other code point, so one unit per code point plus one per supplementary code point |
| Utf16.EncodeUtf16Bmp | Source/Engine/Platform/Base/StringUtilsBase.cpp:179-182 | in the Basic Multilingual Plane each unit of the intended emission EncodeUtf16 is the code point itself |
| Utf16.Utf16RoundTrip | Source/Engine/Platform/Base/StringUtilsBase.cpp:179-187 | decoding the intended emission EncodeUtf16 (the code point itself, or the pair of lines 185-187) as strict UTF-16 gives the code points back |
| Utf16.CountUnitsAsWrittenOverruns | Source/Engine/Platform/Base/StringUtilsBase.cpp:164-172 | the count loop as written yields the number of code points when all are at most U+FFFF, and otherwise reads past the array |
| Utf16.CountUnits | Source/Engine/Platform/Base/StringUtilsBase.cpp:164-172 | the count loop with its bound fixed gives one unit per code point plus one per supplementary code point, which is the length of the UTF-16 encoding |
| PathParts.FindLast | Source/Engine/Platform/Base/StringUtilsBase.cpp:208-209 | the index of the last occurrence of the character, or -1 when there is none |
| PathParts.GetDirectoryName | Source/Engine/Platform/Base/StringUtilsBase.cpp:206-212 | the prefix before the last '\\' or '/', or the empty string when there is neither |
| PathParts.GetPathWithoutExtension | Source/Engine/Platform/Base/StringUtilsBase.cpp:242-250 | the prefix before the last '.', or the whole path when it has none |
| PathParts.FileName | Source/Engine/Platform/Base/StringUtilsBase.cpp:214-229 | the file name is no longer than the path |
| PathParts.FileNameShape | Source/Engine/Platform/Base/StringUtilsBase.cpp:214-229 | the file name is a suffix of the path without '\\', '/' or ':', and it is the whole path or follows one of them |
| PathParts.FileNameUnique | Source/Engine/Platform/Base/StringUtilsBase.cpp:214-229 | any suffix with those three properties is the file name |
| PathParts.FileNameWithoutSeparators | Source/Engine/Platform/Base/StringUtilsBase.cpp:223-224 | a path without '\\', '/' or ':' is its own file name |
| PathParts.GetFileName | Source/Engine/Platform/Base/StringUtilsBase.cpp:214-229 | the backward do/while scan returns exactly the file name |
| PathParts.GetFileNameWithoutExtension | Source/Engine/Platform/Base/StringUtilsBase.cpp:231-240 | the file name up to its last '.', or the whole file name when it has none |
| PathParts.DirectoryAndFileName | Source/Engine/Platform/Base/StringUtilsBase.cpp:206-229 | a path without ':' but with a directory separator is its directory, that separator and its file name |
| RelativeParts.Resolve | Source/Engine/Platform/Base/StringUtilsBase.cpp:259-286 | the segment loop leaves a stack no longer than the segments it consumed |
| RelativeParts.Step | Source/Engine/Platform/Base/StringUtilsBase.cpp:260-285 | one segment grows the stack by at most one entry |
| RelativeParts.StepCanonical | Source/Engine/Platform/Base/StringUtilsBase.cpp:260-285 | one segment keeps the stack free of "." with its ".." entries as a prefix |
| RelativeParts.ResolveInvariant | Source/Engine/Platform/Base/StringUtilsBase.cpp:259-286 | after any number of segments the stack is free of "." with its ".." entries as a prefix |
| RelativeParts.DotDotCancels | Source/Engine/Platform/Base/StringUtilsBase.cpp:262-266 | a ".." right after an ordinary segment removes that segment |
| RelativeParts.DotDotKept | Source/Engine/Platform/Base/StringUtilsBase.cpp:264-276 | a ".." on an empty stack or after another ".." is kept |
| RelativeParts.DotSkipped | Source/Engine/Platform/Base/StringUtilsBase.cpp:278-281 | a "." leaves the stack unchanged |
| RelativeParts.ResolveCanonical | Source/Engine/Platform/Base/StringUtilsBase.cpp:259-286 | running the segment loop over a stack of that shape returns the same stack |
| RelativeParts.ResolveIdempotent | Source/Engine/Platform/Base/StringUtilsBase.cpp:259-286 | running the segment loop on its own result returns that result |
| RelativeParts.Join | Source/Engine/Platform/Base/StringUtilsBase.cpp:289-291 | the '/'-join of the segments starts with the first segment and ends with the last |
| RelativeParts.Split | Source/Engine/Platform/Base/StringUtilsBase.cpp:289-291 | the reference partner of the join: splitting at '/' yields at least one segment |
| RelativeParts.SplitJoin | Source/Engine/Platform/Base/StringUtilsBase.cpp:289-291 | splitting the '/'-join of segments without '/' gives the segments back, so the rebuild loses nothing |
| RelativeParts.PathRemoveRelativeParts | Source/Engine/Platform/Base/StringUtilsBase.cpp:252-294 | the result is the resolved stack joined with '/', with one '/' in front exactly when the path started with '/' |
| RelativeParts.DotExample | Source/Engine/Platform/Base/StringUtilsBase.cpp:259-291 | the segments of "a/./b" resolve and join to "a/b" |
| RelativeParts.DotDotExample | Source/Engine/Platform/Base/StringUtilsBase.cpp:259-291 | the segments of "a/../b" resolve and join to "b" |
| RelativeParts.LeadingDotDotsExample | Source/Engine/Platform/Base/StringUtilsBase.cpp:259-291 | the segments of "../../a" are kept, joined as "../../a" |
| RelativeParts.RootedExample | Source/Engine/Platform/Base/StringUtilsBase.cpp:259-293 | the segments of "/a/../../b" resolve, join and get the leading '/' back as "/../b" |
| DigitPairs.TableChar | Source/Engine/Platform/Base/StringUtilsBase.cpp:296-307 | every character of the `digit_pairs` table is a decimal digit |
| DigitPairs.DigitPairsAt | Source/Engine/Platform/Base/StringUtilsBase.cpp:296-307 | `digit_pairs[2k]` and `digit_pairs[2k + 1]` are the tens and units digits of `k`, for `0 <= k < 100` |
| IntegerText.TruncDiv | Source/Engine/Platform/Base/StringUtilsBase.cpp:334 | C++ division: the remainder lies in `[0, b)` for a non-negative dividend and in `(-b, 0]` for a negative one |
| IntegerText.Wrap | Source/Engine/Platform/Base/StringUtilsBase.cpp:340 | two's complement wrap-around: the result lies in the signed range of the width, and a value already in that range is kept |
| IntegerText.PairIndex | Source/Engine/Platform/Base/StringUtilsBase.cpp:340 | `value - div * 100` with the product computed in `div`'s signed type and wrapped, and in the unsigned overloads the difference taken modulo 2^32 or 2^64, is still the exact remainder |
| IntegerText.PairIndexExact | Source/Engine/Platform/Base/StringUtilsBase.cpp:340 | for signed widths the product does not wrap; for unsigned widths the wrapped product differs from the true one by at most one modulus, which the unsigned difference removes |
| IntegerText.UnsignedProductOverflows | Source/Engine/Platform/Base/StringUtilsBase.cpp:420-423 | for 4294967295 the int32 product 4294967200 is above the largest int32 (likewise the int64 product for 18446744073709551615), and the wrapped product still gives the indices 95 and 15 |
| IntegerText.CopyPair | Source/Engine/Platform/Base/StringUtilsBase.cpp:340 | the two-character copy from `digit_pairs` writes the two digits of `r` at `at` and changes nothing else |
| IntegerText.UnsignedPairs | Source/Engine/Platform/Base/StringUtilsBase.cpp:338-344 | when the `while (div)` loop ends, the value left is below 100 and the buffer holds the rest of the digits of the original value behind `it + 2` |
| IntegerText.NegativePairs | Source/Engine/Platform/Base/StringUtilsBase.cpp:353-359 | the same for a negative value with truncating division: the value left is in (-100, 0) |
| IntegerText.FormatUnsigned | Source/Engine/Platform/Base/StringUtilsBase.cpp:336-350 | the non-negative branch yields the digits of the value |
| IntegerText.FormatNegative | Source/Engine/Platform/Base/StringUtilsBase.cpp:351-367 | the negative branch yields '-' followed by the digits of `|value|`, the lowest value included |
| IntegerText.FormatSigned | Source/Engine/Platform/Base/StringUtilsBase.cpp:329-370 | the signed body yields the decimal text of any value whose magnitude has fewer digits than the buffer has characters |
| IntegerText.ToStringInt32 | Source/Engine/Platform/Base/StringUtilsBase.cpp:329-370 | every int32 value, the minimum included, becomes its decimal text |
| IntegerText.ToStringInt64 | Source/Engine/Platform/Base/StringUtilsBase.cpp:372-413 | every int64 value of magnitude below 10^14 becomes its decimal text |
| IntegerText.ToStringUInt32 | Source/Engine/Platform/Base/StringUtilsBase.cpp:415-435 | every uint32 value becomes its decimal text |
| IntegerText.ToStringUInt64 | Source/Engine/Platform/Base/StringUtilsBase.cpp:437-457 | every uint64 value below 10^14 becomes its decimal text |
| IntegerText.DecimalTextSign | Source/Engine/Platform/Base/StringUtilsBase.cpp:361-366 | the text starts with '-' exactly for negative values and is digits otherwise |
| IntegerText.DecimalTextReadBack | Source/Engine/Platform/Base/StringUtilsBase.cpp:329-457 | the text reads back as the value, and it has no leading zeros and no "-0" |
| IntegerText.CanonicalTextUnique | Source/Engine/Platform/Base/StringUtilsBase.cpp:329-457 | a decimal text without leading zeros is the text of the value it reads as, so the formatter's output is the only such text |
| IntegerText.DigitsLength | Source/Engine/Platform/Base/StringUtilsBase.cpp:309 | a value has at most `k` digits exactly when it is below 10^k |
| IntegerText.LastPair | Source/Engine/Platform/Base/StringUtilsBase.cpp:346-349 | the last pair is both digits for 10-99, and a '0' that is skipped for 0-9 |
| IntegerText.PairLoop | Source/Engine/Platform/Base/StringUtilsBase.cpp:338-344 | the loop as written leaves a value below 100 |
| IntegerText.LowestWrite | Source/Engine/Platform/Base/StringUtilsBase.cpp:332-366 | the lowest buffer index written is at or below the first pair's position `size - 2` |
| IntegerText.PairLoopShape | Source/Engine/Platform/Base/StringUtilsBase.cpp:338-346 | the loop moves `it` back two places per pair beyond the first, and the last pair has two digits exactly when the digit count is even |
| IntegerText.LowestWriteInBuffer | Source/Engine/Platform/Base/StringUtilsBase.cpp:309 | every write stays inside an odd-sized buffer exactly when `|value|` has fewer digits than the buffer has characters |
| IntegerText.Int64OverflowsBuffer | Source/Engine/Platform/Base/StringUtilsBase.cpp:372-413 | for 10^14, a valid int64 and uint64 value, the last pair is written at `buf[-1]` |
| IntegerText.ToStringInt64Wide | Source/Engine/Platform/Base/StringUtilsBase.cpp:372-413 | with a 21-character buffer every int64 value becomes its decimal text |
| IntegerText.ToStringUInt64Wide | Source/Engine/Platform/Base/StringUtilsBase.cpp:437-457 | with a 21-character buffer every uint64 value becomes its decimal text |

## Left out

- `Parse(const Char*, float*)` (lines 311-327) and `ToString(float)` / `ToString(double)` (lines 459-467) are left out: they are floating-point conversions done by `wcstof` and `String::Format`.
- `RemoveLongPathPrefix` (lines 192-204) is left out: it is a platform long-path helper, and its last two statements overwrite whatever its branches computed.
- The `LOG(Error, ...)` diagnostics are not modelled: a failure is the error value of `Decode` and a zero `toLength`.
- FileSystem::NormalizePath, String::Split and String::operator/= are not part of this model. `PathRemoveRelativeParts` takes the normalized path and its segments as inputs and joins with a plain '/'. `RelativeParts.Split` is a reference partner for the join, not the engine's String::Split.
- ToUpper and CompareIgnoreCase are not part of this model: the case fold is the parameter `upper`, and CompareIgnoreCase is equality of the folded characters. The fold is required to map the terminator, and only the terminator, to itself.
- Platform::MemoryCopy is modelled as the two-character write `CopyPair`.
- ConvertUtf8ToUtf16: the emission is modelled only when every decoded code point is at most U+FFFF, and the buffer `to` must hold them. Above U+FFFF the source's count loop reads past `unicode` (see Findings). After that, the copy loop uses one index both for `unicode` and for `to` and adds the surrogates with `+=` into the buffer. So the units it writes are not the code point's surrogate pair, and that behaviour is not modelled. The surrogate formula of lines 185-187 is modelled and proved by itself (`Utf16.SurrogatePair`).
- IntegerText.ToStringInt64: requires `|value| < 10^14`, because larger values make the source write before the start of its 15-character buffer (see Findings).
- IntegerText.ToStringUInt64: requires `value < 10^14`, for the same reason.
- Integer widths (`int32`, `int64`, `uint32`, `uint64`, the 8-bit bytes and the 16-bit `Char`) are range preconditions and subset types. The one product that can leave its type is `div * 100` in the unsigned overloads, modelled by `IntegerText.PairIndex`.
- IntegerText.ToStringUInt32: line 420 declares `int32 div`, so `div * 100` at line 423 leaves the int32 range for values of at least 2147483700. Signed overflow is undefined in C++; the model takes it to wrap in two's complement (`IntegerText.Wrap`) and proves that the index is still the exact remainder. Under any other reading of that overflow the contract is not promised for those values.
- IntegerText.ToStringUInt64Wide: the same holds for `int64 div` at line 442 and the product at line 445, for values of at least 9223372036854775900. IntegerText.ToStringUInt64 does not reach them, because it requires `value < 10^14`.
- RelativeParts.DotExample, RelativeParts.DotDotExample, RelativeParts.LeadingDotDotsExample and RelativeParts.RootedExample take each path's segments without empty ones, as if String::Split dropped them. That is not modelled: `RelativeParts.Split` keeps empty segments (`Split("/a") == ["", "a"]`).
- Pointers are indices: a returned `const Char*` is the index of the match in `str`, and the null pointer is `None`.

## Findings

| source | as written | input that shows it | evidently intended | confidence | as-written member | corrected member |
|---|---|---|---|---|---|---|
| Source/Engine/Platform/Base/StringUtilsBase.cpp:164-172 | the loop bound `length` starts at the number of code points and grows by one for each code point above U+FFFF, while `i` keeps indexing `unicode` | the bytes F0 9F 98 80 (U+1F600) decode to one code point, and the loop then reads `unicode[1]` | count the units with the loop bound fixed at the number of code points: one unit per code point plus one per supplementary code point | not executed | Utf16.CountUnitsAsWrittenOverruns | Utf16.CountUnits |
| Source/Engine/Platform/Base/StringUtilsBase.cpp:309 | the 64-bit overloads share the 15-character buffer, which holds at most 14 digits, while int64 and uint64 values have up to 19 and 20 digits | ToString(int64) or ToString(uint64) of 100000000000000 (10^14) writes its last pair at `buf[-1]` | a buffer of at least 21 characters, enough for every 64-bit value and its sign | not executed | IntegerText.Int64OverflowsBuffer | IntegerText.ToStringInt64Wide |
