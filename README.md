# Irrigation-tank firmware: verified model of its sequential core

This project is a Dafny model of three self-contained pieces of logic from an
ESP32 firmware for an irrigation water tank. It proves properties of each.

- **`FlashMonotonicCounter`** is a persistent counter.
  - Each step clears one more bit of a flash partition, in allocation order. Bit `b` is mask `1 << (b % 8)` of byte `b / 8`.
  - A base value is kept in NVS under a key derived from the FNV-1a hash of the partition label.
  - When the partition is full, a two-phase rollover runs:
    1. persist `(base + used, pending = 1)`;
    2. erase the partition;
    3. persist `(base, pending = 0)`.
  - `init` either replays an interrupted rollover or counts the cleared bits.
  - Files: `common.dfy` (shared vocabulary), `bits.dfy` (bit addressing and the clear-range specification), `key_derivation.dfy` (hash and keys), `flash_storage.dfy` (the partition and the NVS namespace as in-memory collaborators), `flash_counter.dfy` (the counter class).
- **`TrimmedMean<BufferSize, TrimCount>`** is a noise filter.
  - The last `BufferSize` samples are kept sorted between two sentinels. Each sample carries an insertion-order tag.
  - `insert` overwrites the oldest sample and bubbles it into place.
  - `getValue` is the integer mean of the samples left after trimming `TrimCount` from each end.
  - File: `trimmed_mean.dfy`.
- **The config web app's text and validation helpers**:
  - HTML escaping;
  - hex digits;
  - `application/x-www-form-urlencoded` decoding: `+` as a space and `%XY` as one byte, as in section 5.1 of the WHATWG URL Standard (the form parser itself is a simplified version of that section; see Left out);
  - the form-body parser and the checkbox parser;
  - integer clamping and string truncation;
  - the key validation of `config_webapp_start`, `find_item`, `config_webapp_set_i32`, `config_webapp_set_string` and `save_form_to_nvs`.
  - Files: `web_form.dfy` (pure text functions and their loops) and `config_webapp.dfy` (the item table, the value rules and a `ConfigWebApp` class holding `s_items_storage` and `s_ctx`).

How the model is built:

- **Code that changes state is imperative Dafny.** Classes with `modifies` clauses update the fields the C++ updates. The trimmed-mean buffer and the 256-byte scan and write buffers are arrays. Each loop carries its invariant, and every method is proved against a specification function.
- **The properties are lemmas about those functions.** Examples: every bit-clearing step keeps the crash-recovery invariant. The buffer is always the sorted window of the last `BufferSize` samples. Decoding undoes the browser's encoding.
- **Storage failures are nondeterministic.** Any flash or NVS call may fail, and a failed call changes nothing.
- **NVS has two maps.** `staged` is what `nvs_get_*` sees. `committed` is what survives a power cycle. The model assumes that a set is not in flash until `nvs_commit`; the ESP-IDF store does not promise that (see `FlashStorage.Nvs.Set` under Left out).

Strings are `seq<char>`. A C `char` is one byte, so text from the browser is a sequence of characters below 256. A C string that may be null is an `Option<string>`.

## Model

| member | source | states |
|---|---|---|
| Bits.MaskBit | main/flash_monotonic_counter.cpp:305-307 | two single-bit masks share a bit exactly when they are the same bit |
| Bits.ClearBitsFromBit | main/flash_monotonic_counter.cpp:305-307 | after the inner loop clears bits `lo..k-1` of a byte, bit `j` is set iff it was set and `j` is outside `lo..k-1` |
| Bits.ClearedByteAt | main/flash_monotonic_counter.cpp:299-308 | byte `i` of the clear is the inner loop over `[max(start, 8i), min(end, 8i+8))` relative to the byte's first bit, or the byte unchanged when that window is empty |
| Bits.ClearedByteBit | main/flash_monotonic_counter.cpp:299-308 | bit `k` of cleared byte `i` is set iff it was set and bit `8i+k` lies outside `[start, end)` (bit-mask locality) |
| Bits.ClearRange | main/flash_monotonic_counter.cpp:274-320 | the image after clearing `[start, end)` has the image's length |
| Bits.ClearRangeBit | main/flash_monotonic_counter.cpp:274-320 | after the clear, bit `b` of the image is set iff it was set before and `b` is outside `[start, end)` |
| Bits.ClearRangeNeverSets | main/flash_monotonic_counter.cpp:299-310 | every cleared byte is a sub-mask of the old byte: clearing never sets a bit |
| Bits.ClearedByteIdempotent | main/flash_monotonic_counter.cpp:299-308 | clearing the same bits of a byte twice gives the same byte as once |
| Bits.ClearRangeIdempotent | main/flash_monotonic_counter.cpp:274-320 | repeating a clear (a retried write) gives the same image |
| Bits.ClearRangeEmpty | main/flash_monotonic_counter.cpp:276-278 | an empty range changes nothing |
| Bits.ClearRangeOutside | main/flash_monotonic_counter.cpp:284-287 | bytes outside `[start/8, ceil(end/8))` are untouched |
| Bits.Popcount | main/flash_monotonic_counter.cpp:265 | `__builtin_popcount` of one byte, at most 8 (the bound is a proof helper for `ZeroBits`) |
| Bits.ZeroBits | main/flash_monotonic_counter.cpp:264-266 | the cleared-bit count of an image is at most its bit count, so `used_bits_ <= total_bits_` after a scan |
| Bits.ZeroBitsSnoc | main/flash_monotonic_counter.cpp:264-266 | the count grows by `popcount(~byte & 0xFF)` per byte scanned |
| Bits.Erased | main/flash_monotonic_counter.cpp:79 | an erased region of length `n` is `n` bytes of 0xFF |
| Bits.ZeroBitsErased | main/flash_monotonic_counter.cpp:79-84 | an erased image has no cleared bits, so `used_bits_ = 0` matches the flash |
| Bits.ErasedIsPrefixCleared | main/flash_monotonic_counter.cpp:369-375 | an erased image holds exactly zero cleared bits in allocation order |
| Bits.ZeroBitsOfPrefixCleared | main/flash_monotonic_counter.cpp:251-272 | when exactly the first `n` bits are cleared, counting zero bits yields `n` |
| Bits.PrefixClearedGrow | main/flash_monotonic_counter.cpp:143-148 | clearing the `c` bits after the first `n` cleared ones leaves exactly the first `n + c` cleared |
| KeyDerivation.ByteOf | main/flash_monotonic_counter.cpp:23 | `static_cast<uint8_t>` of a character is below 256 |
| KeyDerivation.Pow2Of32 | main/flash_monotonic_counter.cpp:21-24 | proof helper: 2 to the 32 is the `uint32_t` modulus the hash arithmetic reduces by |
| KeyDerivation.XorBits | main/flash_monotonic_counter.cpp:23 | the exclusive or of the low `n` bits fits in `n` bits |
| KeyDerivation.Xor32 | main/flash_monotonic_counter.cpp:23 | `hash ^= byte` stays a 32-bit word |
| KeyDerivation.FnvStep | main/flash_monotonic_counter.cpp:23-24 | one round, xor then multiply by 16777619 modulo 2^32, stays a 32-bit word |
| KeyDerivation.Fnv1a | main/flash_monotonic_counter.cpp:19-28 | the hash, from offset basis 2166136261 folded over the bytes, is a 32-bit word |
| KeyDerivation.Fnv1a32 | main/flash_monotonic_counter.cpp:19-28 | the loop over the label computes `Fnv1a` of the label |
| KeyDerivation.XorBitsInjective | main/flash_monotonic_counter.cpp:23 | xor with a fixed word is injective on `n`-bit words |
| KeyDerivation.XorBitsCommutes | main/flash_monotonic_counter.cpp:23 | proof helper for the injectivity lemmas: the arithmetic xor is commutative |
| KeyDerivation.XorInjective | main/flash_monotonic_counter.cpp:23 | `hash ^ byte` determines the byte given the hash, and the hash given the byte |
| KeyDerivation.ModWord | main/flash_monotonic_counter.cpp:24 | reduction modulo 2^32 drops whole multiples of 2^32 |
| KeyDerivation.UndoMulPrime | main/flash_monotonic_counter.cpp:24 | multiplying by 16777619 modulo 2^32 is undone by multiplying by 899433627 |
| KeyDerivation.MulPrimeInjective | main/flash_monotonic_counter.cpp:24 | multiplying by the FNV prime is injective on 32-bit words |
| KeyDerivation.FnvStepInjective | main/flash_monotonic_counter.cpp:22-26 | one round is injective in the byte for a fixed hash, and in the hash for a fixed byte |
| KeyDerivation.SingleSubstitutionDistinct | main/flash_monotonic_counter.cpp:19-28 | two labels of equal length that differ in one byte never share a hash, so never share NVS keys |
| KeyDerivation.Pow16 | main/flash_monotonic_counter.cpp:107 | proof helper for the `%08lx` round trip: the hex place values are positive |
| KeyDerivation.HexDigitValue | main/flash_monotonic_counter.cpp:107 | reading a lowercase hex digit gives a value below 16 |
| KeyDerivation.HexN | main/flash_monotonic_counter.cpp:104-113 | `%0<n>lx` produces exactly `n` digits |
| KeyDerivation.ParseHexN | main/flash_monotonic_counter.cpp:104-113 | reading the `n` digits back gives the value whenever it is below 16^n: the formatting loses nothing |
| KeyDerivation.Hex8 | main/flash_monotonic_counter.cpp:107 | `%08lx` produces 8 characters |
| KeyDerivation.BaseKey | main/flash_monotonic_counter.cpp:104-108 | the base key is `"b_"` plus 8 hex digits: 10 characters, which fits the 16-byte buffer |
| KeyDerivation.PendingKey | main/flash_monotonic_counter.cpp:109-113 | the pending key is `"p_"` plus 8 hex digits: 10 characters, which fits the 16-byte buffer |
| KeyDerivation.BaseAndPendingKeysDiffer | main/flash_monotonic_counter.cpp:104-113 | no base key equals any pending key, so the base and the flag never overwrite each other |
| KeyDerivation.KeysDetermineHash | main/flash_monotonic_counter.cpp:100-113 | two labels share a base key (and a pending key) exactly when their hashes coincide |
| FlashStorage.AndInto | main/flash_monotonic_counter.cpp:310 | a flash write ANDs the data into the covered bytes and leaves every other byte alone |
| FlashStorage.Partition.constructor | main/flash_monotonic_counter.cpp:52-65 | the model's partition holds its image; its precondition (non-empty, bit count below 2^32) is an assumption of the model that lines 52-65 do not check (see Left out) |
| FlashStorage.Partition.Read | main/flash_monotonic_counter.cpp:259 | on success the first `n` buffer cells hold the image bytes from `offset`; nothing else changes |
| FlashStorage.Partition.Write | main/flash_monotonic_counter.cpp:310 | on success the image is the AND of the written bytes into it; on failure it is unchanged |
| FlashStorage.Partition.EraseAll | main/flash_monotonic_counter.cpp:369 | on success every byte is 0xFF; on failure the image is unchanged |
| FlashStorage.Nvs.constructor | main/flash_monotonic_counter.cpp:181 | at boot what is visible is what was committed |
| FlashStorage.Nvs.Open | main/flash_monotonic_counter.cpp:181-184 | `nvs_open` either succeeds or reports a storage error |
| FlashStorage.Nvs.GetI64 | main/flash_monotonic_counter.cpp:187-188 | found means an `int64` is stored under the key; not-found means none is |
| FlashStorage.Nvs.GetU8 | main/flash_monotonic_counter.cpp:217-218 | found means a `uint8` is stored under the key; not-found means none is |
| FlashStorage.Nvs.Set | main/flash_monotonic_counter.cpp:239-241 | a set is staged, and is not durable before a commit |
| FlashStorage.Nvs.Commit | main/flash_monotonic_counter.cpp:243-245 | a commit makes every staged set durable at once, or nothing |
| FlashStorage.Nvs.Restart | main/flash_monotonic_counter.cpp:46-98 | a power cycle keeps exactly the committed state |
| FlashCounter.ClampedValue | main/flash_monotonic_counter.cpp:167-171 | `value()` is the signed value when it is positive and 0 otherwise, and never below the signed value |
| FlashCounter.LoadedStore | main/flash_monotonic_counter.cpp:186-194 | after loading, the base key holds an `int64` (0 when it was missing), and every other key is as before |
| FlashCounter.LoadedStoreKeeps | main/flash_monotonic_counter.cpp:186-194 | storing the missing base as 0 changes neither the stored base, nor the flag, nor the recovered value |
| FlashCounter.ReplayConverges | main/flash_monotonic_counter.cpp:78-94 | crash replay keeps the recovered value and the partition size, leaves no rollover pending, leaves a tidy image after a pending rollover or from a tidy one, and replaying twice is replaying once |
| FlashCounter.ClearRangeCheck | main/flash_monotonic_counter.cpp:276-292 | the argument checks in order: `INVALID_ARG` iff a non-empty range leaves the partition; `INVALID_SIZE` iff a non-empty range fits but spans more than 256 bytes |
| FlashCounter.BlockBitsAsWritten | main/flash_monotonic_counter.cpp:140-141 | the block as written is positive, at most the remaining steps, and within the free bits |
| FlashCounter.AsWrittenBlockRejected | main/flash_monotonic_counter.cpp:284-292 | from an unaligned `used_bits_`, a full 2048-bit block as written is refused with `INVALID_SIZE` |
| FlashCounter.AsWrittenBlockExample | main/flash_monotonic_counter.cpp:284-292 | with 3 bits used on a 300-byte partition, `increment(2048)` asks for a block spanning 257 bytes, which is refused |
| FlashCounter.BlockBits | main/flash_monotonic_counter.cpp:140-141 | the corrected block is positive, within the remaining steps and the free bits, always passes the checks, and is maximal (all remaining, all free, or a full buffer ending on a byte boundary) |
| FlashCounter.ResetAsWrittenCounterexample | main/flash_monotonic_counter.cpp:161-162 | as written, after base 256 and 44 bits used, `reset` then `increment(5)` reads 0, and a second reset brings back 300 |
| FlashCounter.ResetBase | main/flash_monotonic_counter.cpp:161-162 | the corrected base makes the signed value exactly 0 |
| FlashCounter.ResetThenCount | main/flash_monotonic_counter.cpp:155-165 | after the corrected reset, `n` further steps read as exactly `n` |
| FlashCounter.WriteOfClearedBytes | main/flash_monotonic_counter.cpp:294-313 | writing back the masked covering bytes clears exactly `[start, end)` in flash |
| FlashCounter.ClearBitsInByte | main/flash_monotonic_counter.cpp:300-308 | one pass of the byte loop turns the buffer byte into the cleared byte `i`, and no other cell changes |
| FlashCounter.ClearBits | main/flash_monotonic_counter.cpp:305-307 | the inner loop clears bits `from..to-1` of the byte, one mask at a time |
| FlashCounter.ClearBitsInBuffer | main/flash_monotonic_counter.cpp:299-308 | after the byte loop, each of the `n` buffer bytes is the corresponding image byte with its range bits cleared |
| FlashCounter.RewriteBytes | main/flash_monotonic_counter.cpp:289-313 | the read-modify-write clears exactly `[start, end)` in flash on success and changes nothing on a read or write failure |
| FlashCounter.CountChunkZeros | main/flash_monotonic_counter.cpp:264-266 | after a chunk, the running count equals the cleared-bit count of the image up to the chunk's end |
| FlashCounter.ClearKeepsDurable | main/flash_monotonic_counter.cpp:143-148 | with no rollover pending, clearing the next `block` bits of a recoverable state gives a recoverable state whose recovered value is `block` higher |
| FlashCounter.FlashMonotonicCounter.Value | main/flash_monotonic_counter.cpp:167-176 | `value()` is `max(0, base_value_ + used_bits_)` |
| FlashCounter.FlashMonotonicCounter.constructor | main/flash_monotonic_counter.cpp:35-44 | the counter starts uninitialized, with no partition, zero counts and empty keys |
| FlashCounter.FlashMonotonicCounter.Init | main/flash_monotonic_counter.cpp:46-98 | see the list below the table |
| FlashCounter.FlashMonotonicCounter.Restore | main/flash_monotonic_counter.cpp:67-94 | the steps of `init` after the keys: loaded base, used bits by pending flag, unchanged recovered value, exactly the replayed persisted state, and a recoverable state |
| FlashCounter.FlashMonotonicCounter.CompleteRollover | main/flash_monotonic_counter.cpp:78-89 | on success the image is erased, `used_bits_ = 0`, and base and `pending = 0` are committed; a failure commits nothing |
| FlashCounter.FlashMonotonicCounter.DeriveNvsKeys | main/flash_monotonic_counter.cpp:100-123 | the keys are `BaseKey`/`PendingKey` of the label; the size checks never fail |
| FlashCounter.FlashMonotonicCounter.LoadBase | main/flash_monotonic_counter.cpp:178-202 | on success `base_value_` is the stored base (0 when missing, which is then committed); on failure `base_value_` is untouched |
| FlashCounter.FlashMonotonicCounter.LoadPending | main/flash_monotonic_counter.cpp:204-229 | on success the flag is the stored `uint8` being non-zero, false when missing |
| FlashCounter.FlashMonotonicCounter.SaveRolloverState | main/flash_monotonic_counter.cpp:231-249 | on success base and flag are committed together; on failure nothing new is committed |
| FlashCounter.FlashMonotonicCounter.CountZeroBits | main/flash_monotonic_counter.cpp:251-272 | on success `used_bits_` is the number of cleared bits of the whole image, never above its bit count |
| FlashCounter.FlashMonotonicCounter.ClearBitsRange | main/flash_monotonic_counter.cpp:274-320 | returns the check's error, and otherwise clears exactly the range on success or leaves the image unchanged on a storage error |
| FlashCounter.FlashMonotonicCounter.ClearedStaysDurable | main/flash_monotonic_counter.cpp:143-148 | a counter whose image and count are the clear of a durable state is durable |
| FlashCounter.FlashMonotonicCounter.ClearNextBlock | main/flash_monotonic_counter.cpp:140-148 | one block: `used_bits_` grows by the block on success and is unchanged on a storage error; with no rollover pending, a durable counter stays durable |
| FlashCounter.FlashMonotonicCounter.Rollover | main/flash_monotonic_counter.cpp:360-383 | see the list below the table |
| FlashCounter.FlashMonotonicCounter.Increment | main/flash_monotonic_counter.cpp:125-153 | `INVALID_STATE` before `init`; the signed value grows by exactly `steps` on success and by at most `steps` always; `value()` never decreases; durability is kept |
| FlashCounter.FlashMonotonicCounter.Reset | main/flash_monotonic_counter.cpp:155-165 | `INVALID_STATE` before `init`; otherwise `value()` is 0, `(base, pending = 0)` is committed on success, and a failure commits nothing |
| TrimmedMeanFilter.WindowSlides | main/trimmed_mean.hpp:59-101 | overwriting tag `c` and advancing to `c + 1` slides the window: oldest dropped, new sample last |
| TrimmedMeanFilter.NextTag | main/trimmed_mean.hpp:101 | tag arithmetic modulo `BufferSize`: the window after the slide is the old one shifted by one |
| TrimmedMeanFilter.Swapped | main/trimmed_mean.hpp:81-91 | the swap exchanges two slots |
| TrimmedMeanFilter.SwapKeepsTags | main/trimmed_mean.hpp:78-93 | swapping two interior slots keeps the tags a bijection and each tag's sample |
| TrimmedMeanFilter.SwapKeepsSamples | main/trimmed_mean.hpp:78-93 | swapping two interior slots keeps the multiset of interior samples |
| TrimmedMeanFilter.TaggingPermutes | main/trimmed_mean.hpp:41-45 | when the interior tags are a permutation of `0..BufferSize-1`, the interior samples are a permutation of the samples by tag |
| TrimmedMeanFilter.DropLastTag | main/trimmed_mean.hpp:41-45 | dropping the slot of the last tag leaves a tagging of the rest |
| TrimmedMeanFilter.AscendingHeadLeast | main/trimmed_mean.hpp:76-98 | the first of an ascending run is its least element |
| TrimmedMeanFilter.AscendingTail | main/trimmed_mean.hpp:76-98 | the tail of an ascending run is ascending and holds one copy fewer of the head |
| TrimmedMeanFilter.AscendingUnique | main/trimmed_mean.hpp:76-98 | two ascending runs with the same multiset are equal |
| TrimmedMeanFilter.SortedPermutationUnique | main/trimmed_mean.hpp:76-98 | the sorted buffer is the only ascending arrangement of the window |
| TrimmedMeanFilter.StepLeft | main/trimmed_mean.hpp:78-85 | a left swap happens only away from the low sentinel and keeps the bubble invariant |
| TrimmedMeanFilter.StepRight | main/trimmed_mean.hpp:86-93 | a right swap happens only away from the high sentinel and keeps the bubble invariant |
| TrimmedMeanFilter.Settled | main/trimmed_mean.hpp:94-97 | when the entry sits between its neighbours the whole buffer is sorted |
| TrimmedMeanFilter.OverwriteByTag | main/trimmed_mean.hpp:73 | overwriting a slot's sample changes only that tag's sample |
| TrimmedMeanFilter.WindowIsRotation | main/trimmed_mean.hpp:62-70 | the window from the oldest tag is a rotation of the samples by tag, with the same multiset |
| TrimmedMeanFilter.SumBounds | main/trimmed_mean.hpp:111-117 | a sum of samples lies between the count times the least and the count times the largest |
| TrimmedMeanFilter.DivBounds | main/trimmed_mean.hpp:119 | integer division by a positive count keeps those bounds |
| TrimmedMeanFilter.MeanBounds | main/trimmed_mean.hpp:109-120 | the integer mean of a run lies between its first and its last sample |
| TrimmedMeanFilter.Bubble | main/trimmed_mean.hpp:76-98 | the bubble loop terminates with the sentinels in place, the buffer sorted, the tags a bijection and every tag's sample unchanged |
| TrimmedMeanFilter.SwapLeft | main/trimmed_mean.hpp:78-85 | the swap with the left neighbour keeps the bubble invariant with the entry one slot left |
| TrimmedMeanFilter.SwapRight | main/trimmed_mean.hpp:86-93 | the swap with the right neighbour keeps the bubble invariant with the entry one slot right |
| TrimmedMeanFilter.Swap | main/trimmed_mean.hpp:81-83 | the array becomes the swapped slots, with the tag map updated |
| TrimmedMeanFilter.SumSlots | main/trimmed_mean.hpp:111-117 | the loop sums the samples of slots `1+T .. BufferSize-T` |
| TrimmedMeanFilter.TrimmedMeanBounds | main/trimmed_mean.hpp:109-120 | in a sorted buffer the trimmed mean lies between the least and the largest sample kept |
| TrimmedMeanFilter.TrimmedMean.BufferSortsSamples | main/trimmed_mean.hpp:59-102 | the interior of the buffer is the window of the last `BufferSize` samples, sorted |
| TrimmedMeanFilter.TrimmedMean.Samples | main/trimmed_mean.hpp:31-32 | the window holds `BufferSize` samples |
| TrimmedMeanFilter.TrimmedMean.constructor | main/trimmed_mean.hpp:38-52 | sentinels 0 and UINT32_MAX with tag -1, a window of `BufferSize` zeros, oldest tag 0 |
| TrimmedMeanFilter.TrimmedMean.FindOldest | main/trimmed_mean.hpp:62-70 | the search always finds a slot in `1..BufferSize`: the one whose tag is `current_order` |
| TrimmedMeanFilter.TrimmedMean.Insert | main/trimmed_mean.hpp:59-102 | the window loses its oldest sample and gains `value` last; the buffer stays sorted with sentinels and a tag bijection; `current_order` advances modulo `BufferSize` |
| TrimmedMeanFilter.TrimmedMean.GetValue | main/trimmed_mean.hpp:109-120 | the result is the sum of the kept samples divided by `BufferSize - 2*TrimCount`, and lies between the least and the largest kept sample |
| TrimmedMeanFilter.TrimmedMean.GetBufferSize | main/trimmed_mean.hpp:127-130 | the buffer size is the number of samples in the window |
| WebForm.EscapeChar | components/config_webapp/config_webapp.cpp:65-71 | each markup character becomes an entity starting with `&`; every other character is copied unchanged |
| WebForm.EscapedAppend | components/config_webapp/config_webapp.cpp:64-73 | escaping one more character appends its replacement |
| WebForm.HtmlEscape | components/config_webapp/config_webapp.cpp:60-75 | the loop computes the character-by-character escape of its input |
| WebForm.EscapedIsInert | components/config_webapp/config_webapp.cpp:60-75 | escaped text contains no raw `<`, `>`, `"` or `'` |
| WebForm.UnescapeOne | components/config_webapp/config_webapp.cpp:65-71 | reading back one replacement gives its character |
| WebForm.UnescapeEscaped | components/config_webapp/config_webapp.cpp:60-75 | a browser reading the escaped text sees the original text: escaping loses nothing |
| WebForm.HexToInt | components/config_webapp/config_webapp.cpp:77-87 | the value is in `-1..15`, and is `-1` exactly for characters that are not hex digits of either case |
| WebForm.HexToIntDigits | components/config_webapp/config_webapp.cpp:77-87 | both the lowercase and the uppercase digit of `d` read as `d`, and nothing else does |
| WebForm.EscapedByte | components/config_webapp/config_webapp.cpp:99-102 | a `%XY` escape stands for one byte, `high * 16 + low` |
| WebForm.DecodedNotLonger | components/config_webapp/config_webapp.cpp:89-110 | the decoded text is never longer than the input |
| WebForm.DecodedPlain | components/config_webapp/config_webapp.cpp:89-110 | text with no `+` and no `%` decodes to itself |
| WebForm.DecodeAt | components/config_webapp/config_webapp.cpp:93-108 | one step of the loop: `+` is a space; `%` with two hex digits inside the string is their byte, consuming three characters; anything else, a stray `%` included, is copied |
| WebForm.UrlDecode | components/config_webapp/config_webapp.cpp:89-110 | the loop computes the decoding of its input |
| WebForm.DecodeOne | components/config_webapp/config_webapp.cpp:93-108 | decoding reads back one byte as the form serializer of section 5.2 of the WHATWG URL Standard sends it (letters, digits and `*-._` as is, space as `+`, the rest as `%XY`) |
| WebForm.DecodeEncoded | components/config_webapp/config_webapp.cpp:89-110 | decoding undoes that serializer's encoding of any byte string |
| WebForm.IndexOf | components/config_webapp/config_webapp.cpp:117-120 | `find`: the first position of the character, or the length for `npos` |
| WebForm.FormOfSnoc | components/config_webapp/config_webapp.cpp:122-130 | storing one more piece updates the map at that piece's key only |
| WebForm.FormOfKeys | components/config_webapp/config_webapp.cpp:112-135 | a key is in the parsed map exactly when some piece has it as its key |
| WebForm.FormOfLastWins | components/config_webapp/config_webapp.cpp:127-129 | a later duplicate key overwrites an earlier one: the map holds the value of the last piece with that key |
| WebForm.FormOfEmptyBody | components/config_webapp/config_webapp.cpp:115-116 | an empty body gives an empty map |
| WebForm.FieldPiece | components/config_webapp/config_webapp.cpp:123-130 | the piece of one encoded field splits at its `=` back into the field's key and value |
| WebForm.PiecesOne | components/config_webapp/config_webapp.cpp:116-120 | a body with no `&` is a single piece |
| WebForm.PiecesCons | components/config_webapp/config_webapp.cpp:116-132 | a piece followed by `&` is split off the front |
| WebForm.PiecesOfFormText | components/config_webapp/config_webapp.cpp:116-132 | splitting a submitted body on `&` gives back the fields' texts, one per field |
| WebForm.FormOfFields | components/config_webapp/config_webapp.cpp:112-135 | the pieces of any prefix of the fields build the map of that prefix |
| WebForm.ParseFormText | components/config_webapp/config_webapp.cpp:112-135 | parsing what a browser submits for a list of fields gives the fields' map, later duplicates winning |
| WebForm.Find | components/config_webapp/config_webapp.cpp:117-120 | `body.find('&', start)` is the first `&` from `start`, or the length |
| WebForm.IndexOfIs | components/config_webapp/config_webapp.cpp:117-120 | a position with the character and none before it is the `find` result |
| WebForm.PiecesFromStep | components/config_webapp/config_webapp.cpp:116-132 | the pieces from `start` are the piece up to the next `&` followed by the pieces after it |
| WebForm.PiecesStep | components/config_webapp/config_webapp.cpp:116-132 | one loop step moves one piece from the remaining pieces to the visited ones |
| WebForm.ParsingStep | components/config_webapp/config_webapp.cpp:116-132 | one loop step keeps the map equal to the map of the visited pieces |
| WebForm.StorePair | components/config_webapp/config_webapp.cpp:122-130 | a piece is stored at its decoded key: the text before its first `=`, or the whole piece with value `""` |
| WebForm.ParseFormEncoded | components/config_webapp/config_webapp.cpp:112-135 | the loop builds the map of the body's pieces, stored in order |
| WebForm.BoolText | components/config_webapp/config_webapp.cpp:258 | a stored bool is rendered as one character |
| WebForm.ParseBoolText | components/config_webapp/config_webapp.cpp:355-361 | `parse_bool_value` reads back the rendered bool; `""`, `"0"`, `"off"` and `"false"` read as false |
| ConfigWebApp.ClampInt | components/config_webapp/config_webapp.cpp:720 | the clamp lies in `[min_int, max_int]` when that range is non-empty, is `v` when `v` is in range, `max_int` above a non-empty range, and `min_int` below the range or when the range is empty |
| ConfigWebApp.ClampNearest | components/config_webapp/config_webapp.cpp:720 | for a non-empty range the clamp is the value of the range nearest to `v`, and clamping twice changes nothing |
| ConfigWebApp.Truncate | components/config_webapp/config_webapp.cpp:799-802 | the stored string is a prefix of the value: of length `max_string_len` when that is non-zero and the value is longer, the whole value otherwise |
| ConfigWebApp.CString | components/config_webapp/config_webapp.cpp:799 | the text a `const char *` holds is the prefix before the first NUL, with no NUL in it |
| ConfigWebApp.TruncateCString | components/config_webapp/config_webapp.cpp:391-395 | cutting to length then at the NUL (as `save_form_to_nvs` does) equals cutting at the NUL then to length (as `set_string` does); both steps are idempotent |
| ConfigWebApp.KeysValidPrefix | components/config_webapp/config_webapp.cpp:519-537 | a prefix of a valid item list is valid |
| ConfigWebApp.KeysValidSnoc | components/config_webapp/config_webapp.cpp:523-538 | one more item keeps the list valid exactly when its key is non-null, non-empty, at most 15 characters and not yet in the key set; the key set then gains it |
| ConfigWebApp.FlattenPrefix | components/config_webapp/config_webapp.cpp:519-540 | the items of the first groups come first in the collected list |
| ConfigWebApp.FlattenSnoc | components/config_webapp/config_webapp.cpp:519-540 | one more group appends its items |
| ConfigWebApp.StartCheck | components/config_webapp/config_webapp.cpp:495-540 | the checks give `OK`, `INVALID_ARG` or `INVALID_STATE`, and `OK` only for a present namespace of at most 15 characters and groups whose keys are all valid and distinct |
| ConfigWebApp.CheckGroups | components/config_webapp/config_webapp.cpp:505-513 | passes iff every group has items, and then counts all of them |
| ConfigWebApp.CollectGroup | components/config_webapp/config_webapp.cpp:521-539 | the key loop over one group passes iff all keys so far stay valid and distinct, and then appends the group's items |
| ConfigWebApp.CollectKeys | components/config_webapp/config_webapp.cpp:515-540 | passes iff every key of every group is valid and no key repeats across groups; the storage is then all items in order |
| ConfigWebApp.FindIn | components/config_webapp/config_webapp.cpp:43-49 | the index of the first item with the key, or the item count when there is none |
| ConfigWebApp.FindInUnique | components/config_webapp/config_webapp.cpp:43-49 | with distinct keys, looking up an item's key finds that item |
| ConfigWebApp.SaveActionOf | components/config_webapp/config_webapp.cpp:371-428 | see the list below the table |
| ConfigWebApp.SavedBools | components/config_webapp/config_webapp.cpp:375-383 | after a save, every bool item holds the submitted checkbox state, false when absent |
| ConfigWebApp.SavedKeeps | components/config_webapp/config_webapp.cpp:371-428 | saving items with other keys leaves a key's stored value alone |
| ConfigWebApp.ConfigWebApp.constructor | components/config_webapp/config_webapp.cpp:21-30 | the statics start empty, with the context not ready and no server |
| ConfigWebApp.ConfigWebApp.Lookup | components/config_webapp/config_webapp.cpp:37-50 | a found index holds the key; nothing is found when the context is not ready, the key is null, or no item has the key |
| ConfigWebApp.ConfigWebApp.LookupFindsItem | components/config_webapp/config_webapp.cpp:37-50 | in a started context every item is found under its own key |
| ConfigWebApp.ConfigWebApp.FindItem | components/config_webapp/config_webapp.cpp:37-50 | the loop returns the first item with the key, or none |
| ConfigWebApp.ConfigWebApp.Start | components/config_webapp/config_webapp.cpp:490-593 | see the list below the table |
| ConfigWebApp.ConfigWebApp.TypedItem | components/config_webapp/config_webapp.cpp:715-718 | a returned item has the requested type and key |
| ConfigWebApp.ConfigWebApp.SetI32 | components/config_webapp/config_webapp.cpp:709-734 | `INVALID_ARG` exactly for a null key, a key no item has (or a context that is not ready), or a non-integer item; on success the clamped value is committed; otherwise nothing new is committed |
| ConfigWebApp.ConfigWebApp.SetString | components/config_webapp/config_webapp.cpp:788-816 | `INVALID_ARG` exactly for a null key or value, a key no item has (or a context that is not ready), or a non-string item; on success the value, up to its NUL and cut to the maximum length, is committed; otherwise nothing new is committed |
| ConfigWebApp.ConfigWebApp.SaveForm | components/config_webapp/config_webapp.cpp:363-433 | see the list below the table |

Contracts too long for one cell:

- `FlashCounter.FlashMonotonicCounter.Init`:
  - null or empty label gives `INVALID_ARG`;
  - an unknown label gives `NOT_FOUND`;
  - on success the derived keys and the stored base are in place, and `used_bits_` is 0 after a pending rollover or the cleared-bit count otherwise;
  - starting with nothing uncommitted in NVS, on every exit the value a power cycle recovers is unchanged;
  - a successful init persists the crash-replayed state;
  - it leaves a durable counter when a rollover was pending, or when the image had its cleared bits in allocation order (as the counter itself writes them).
- `FlashCounter.FlashMonotonicCounter.Rollover`:
  - the signed value never changes;
  - on success `used_bits_ = 0`, the new base is the old signed value, the image is erased and `pending = 0` is committed;
  - on failure either nothing in memory changed, or the erase happened with `pending = 1` and the new base committed;
  - durability is kept on every exit.
- `ConfigWebApp.SaveActionOf`:
  - a bool item always writes the checkbox state;
  - another item missing from the form is skipped;
  - a stored string is a prefix of the submitted text, no longer than its maximum length when that is non-zero;
  - a stored integer lies within its range when the range is non-empty;
  - an integer or float text that does not parse is rejected.
- `ConfigWebApp.ConfigWebApp.Start`:
  - a failed check returns its code and leaves the context alone, and a key error also empties the item storage;
  - otherwise the storage and the context hold all items and the namespace, and the start succeeds exactly when the server runs.
- `ConfigWebApp.ConfigWebApp.SaveForm`:
  - on success the committed store is exactly the result of saving every item in turn;
  - `INVALID_ARG` only when some item is rejected, and a form with a rejected item never succeeds;
  - the result is always `OK`, `INVALID_ARG` or a storage error;
  - nothing new becomes durable unless every item is saved and the commit succeeds.

## Left out

- `verify_written_bytes_`, `main/flash_monotonic_counter.cpp:322-358`. It is compiled out by default (lines 31-33 and 315-319) and is a read-back `memcmp` plus logging.
- The ESP-IDF partition and NVS APIs. They are foreign code.
  - They are modelled as the `Partition` and `Nvs` collaborators of `flash_storage.dfy`: an AND-only write, an erase to 0xFF, and a staged map with an atomic commit.
  - Their distinct error codes are folded into one `StorageError`.
  - `nvs_close` and the namespace name are not modelled.
  - `esp_partition_find_first` is a lookup in a table of partitions by label.
- `load_rollover_pending_from_nvs_` returns `INVALID_ARG` for a null `pending` pointer. The model returns the flag as an out-parameter, so that case cannot arise.
- FlashCounter.FlashMonotonicCounter.Init: requires a counter that is not yet initialized.
  - A second `init` on a ready counter is not modelled.
  - In the source, a second `init` that fails leaves `initialized_` true with a different or null partition.
- FlashCounter.FlashMonotonicCounter.Increment: the signed value is unbounded, so 64-bit overflow of `base_value_ + used_bits_` is not modelled. `steps` is a `uint32_t`, and `total_bits_` fits a `uint32_t` because a partition's bit count does.
- FlashCounter.FlashMonotonicCounter.Increment: it uses the corrected block size (see Findings). Durability is stated only from a state with no rollover pending in NVS. A successful `init` leaves such a state, but a `rollover_` that fails at its final save (lines 377-380) does not: the counter stays initialized with `pending = 1` committed and `used_bits_ = 0`, so later increments clear bits that the next `init` erases (lines 78-89). The source loses those steps, and the model promises nothing for them.
- FlashCounter.FlashMonotonicCounter.Reset: it uses the corrected base (see Findings). Durability is stated for the successful path only: a failed save leaves the in-memory value 0 while NVS still holds the old base.
- A power cycle in the middle of an NVS commit. Commits are atomic in the model, so a half-written commit is not modelled.
- FlashStorage.Nvs.Set: a set is assumed to stay out of flash until `nvs_commit`, and uncommitted sets are assumed lost at a power cycle. `nvs_commit` does not promise this, and the stock ESP-IDF NVS writes each `nvs_set_*` through. The durability and "a failure commits nothing" statements of `SaveRolloverState`, `CompleteRollover`, `Rollover`, `Init`, `Restore`, `Reset`, `SetI32`, `SetString` and `SaveForm` all rest on this assumption.
  - Under write-through, a power cut between lines 239 and 241 during the first save of `rollover_` (line 364) leaves the new base `base + used`, `pending = 0` and a full partition. `init` (lines 90-93) then counts those used bits a second time.
  - Under write-through, bools set before a rejected integer field (config_webapp.cpp:375-383 and 404-406) are already in flash when `save_form_to_nvs` returns `INVALID_ARG`.
- FlashStorage.Partition.constructor: the model requires a non-empty partition whose bit count fits a `uint32_t`. The source checks only for a missing partition (lines 52-56) and computes `partition_->size * 8` in `uint32_t` with no check (line 65), so a partition of 512 MiB or more wraps `total_bits_`. The model's `increment` loop terminates because the block is positive on a non-empty partition. On a zero-size partition the source's `increment` (lines 133-150) never ends: each round `rollover_` erases 0 bytes and rewrites NVS, the block is 0, and `clear_bits_range_` returns `ESP_OK` for the empty range (lines 276-278).
- TrimmedMeanFilter.TrimmedMean.GetValue:
  - The `uint64_t` sum is unbounded here. With at most 2^32 samples of 32 bits each it cannot overflow 64 bits.
  - The template parameters are constructor arguments, with the `static_assert` as the constructor's precondition.
  - The `uint32_t` return is the mean, which the contract bounds by two samples.
- The HTTP side of the config web app is not modelled, because it is network I/O. That covers `config_get_handler`, `config_save_handler` (request reading and the restart task), `build_config_page_html` (only its bool rendering, `BoolText`, is modelled), the `config_webapp_get_*` wrappers, `config_webapp_set_float` and `config_webapp_set_bool`.
- `ensure_defaults_in_nvs`, `httpd_start` and the two `httpd_register_uri_handler` calls. Each is a nondeterministic failure in `ConfigWebApp.ConfigWebApp.Start`. A handler-registration failure stops the server, which the model represents as the server not running.
- ConfigWebApp.SaveActionOf: `strtol` and `strtof` are C library behaviour. They are the `Parsers` parameter: the `int32` parser includes the end check and the cast to `int32_t`, and `floatOk` decides only whether the text parses.
- ConfigWebApp.SaveActionOf: a float item whose text parses is a `Skip`, because floating point is not modelled. The source clamps the float and stores it as a blob.
- ConfigWebApp.ConfigWebApp.Start: `s_ctx.items` points into `s_items_storage`. The model keeps the context's items as a value, so it does not capture that a later start failing on a key error leaves that pointer dangling.
- WebForm.ParseFormEncoded: the parser is the source's, which is simpler than section 5.1 of the WHATWG URL Standard in two ways. An empty piece (as in `a&&b`, or the body `&`) is stored under the empty key with value `""`, where the standard skips it. A name keeps only its last value (`std::map` assignment), where the standard returns the list of every pair. The model follows the source: `FormOfKeys` and `FormOfLastWins` state both behaviours.
- `find_item` compares keys with `strcmp`. The model compares whole strings: a key given as a C string never contains NUL, and the stored keys come from C strings too.
- `main/prutokomer.cpp`, the sensor demos, WiFi, the LCD, the state manager, `main/app-config.cpp` and `main/restart_info.cpp`. They are RTOS tasks, hardware access, floating-point conversions or constant tables, and none of them is part of this model.

## Findings

| source | as written | input that shows it | evidently intended | confidence | as-written member | corrected member |
|---|---|---|---|---|---|---|
| main/flash_monotonic_counter.cpp:161-162 | `reset` stores `base = -(base + used)`, so the signed value becomes `-base`. It is 0 only while the base is 0. | After a rollover (base 256, 44 bits used), `reset` then `increment(5)` reads 0. A second `reset` brings back 300. | `value()` is 0 right after `reset` and counts from there. That needs `base = -used`. | not executed | FlashCounter.ResetAsWrittenCounterexample | FlashCounter.ResetBase |
| main/flash_monotonic_counter.cpp:141 | The block is `min(remaining, free, 2048)`. When `used_bits_` is not byte-aligned, a 2048-bit block spans 257 bytes, and `clear_bits_range_` (lines 289-292) refuses it with `INVALID_SIZE`. Every later `increment` with 2048 or more steps fails the same way. | 3 bits used on a 300-byte partition, then `increment(2048)`. | The block never spans more than the 256-byte buffer: `min(remaining, free, 2048 - used % 8)`. | not executed | FlashCounter.AsWrittenBlockRejected | FlashCounter.BlockBits |
