/**
 * `FlashMonotonicCounter`: a persistent counter whose low part is the number
 * of cleared bits of a flash partition (one bit per step, so flash is written
 * without erasing) and whose high part is a base value kept in NVS under a
 * key derived from the partition label.
 *
 *   value = max(0, base + used_bits)
 *
 * When every bit is used, a rollover moves the count into the base: it
 * persists `(base + used, pending = 1)`, erases the partition, and persists
 * `(base, pending = 0)`. On start-up a set pending flag means the erase may
 * not have completed, so it is replayed.
 *
 * The durability invariant `Durable()` says that what a power cycle followed by
 * `init` would recover (`RecoveredValue` of the committed NVS state and the
 * flash image) equals the in-memory value, and that the image holds exactly
 * `used_bits` cleared bits in allocation order.
 */
module FlashCounter {
  import opened Common
  import opened Bits
  import opened KeyDerivation
  import opened FlashStorage

  const SCAN_CHUNK_SIZE: nat := 256
  const WRITE_CHUNK_SIZE: nat := 256

  /** `value()`: the signed count as an unsigned value, negative counts read as 0. */
  function ClampedValue(signed: int): (v: nat)
    ensures v >= signed
    ensures signed >= 0 ==> v == signed
    ensures signed <= 0 ==> v == 0
  {
    if signed <= 0 then 0 else signed
  }

  /** The value `init` recovers from a committed NVS state and a flash image. */
  function RecoveredValue(store: map<string, NvsValue>, baseKey: string, pendingKey: string, image: seq<bv8>): int
  {
    StoredBase(store, baseKey) + (if StoredPending(store, pendingKey) then 0 else ZeroBits(image))
  }

  /** The store once `load_base_from_nvs_` has succeeded: a missing base is stored as 0. */
  function LoadedStore(store: map<string, NvsValue>, baseKey: string): (r: map<string, NvsValue>)
    ensures baseKey in r && r[baseKey].I64?
    ensures forall k :: k in store && k != baseKey ==> k in r && r[k] == store[k]
  {
    if baseKey in store && store[baseKey].I64? then store else store[baseKey := I64(0)]
  }

  /** Loading the base changes neither the base, nor the flag, nor the value a power cycle recovers. */
  lemma LoadedStoreKeeps(store: map<string, NvsValue>, baseKey: string, pendingKey: string, image: seq<bv8>)
    requires baseKey != pendingKey
    ensures StoredBase(LoadedStore(store, baseKey), baseKey) == StoredBase(store, baseKey)
    ensures StoredPending(LoadedStore(store, baseKey), pendingKey) == StoredPending(store, pendingKey)
    ensures RecoveredValue(LoadedStore(store, baseKey), baseKey, pendingKey, image)
         == RecoveredValue(store, baseKey, pendingKey, image)
  {
  }

  /** Everything the counter leaves behind across a power cycle. */
  datatype Persisted = Persisted(store: map<string, NvsValue>, image: seq<bv8>)

  /**
   * The persisted state after a successful `init`: a missing base is stored
   * as 0, and a pending rollover is completed by erasing the image and
   * clearing the flag.
   */
  function Replay(p: Persisted, baseKey: string, pendingKey: string): Persisted
  {
    var store := LoadedStore(p.store, baseKey);
    if StoredPending(store, pendingKey) then
      Persisted(store[baseKey := I64(StoredBase(store, baseKey))][pendingKey := U8(0)], Erased(|p.image|))
    else
      Persisted(store, p.image)
  }

  /**
   * Crash-replay convergence: replaying never changes the recovered value,
   * leaves no rollover pending, leaves a tidy image whenever a rollover was
   * pending or the image was tidy, and replaying twice is replaying once.
   */
  lemma ReplayConverges(p: Persisted, baseKey: string, pendingKey: string)
    requires baseKey != pendingKey
    ensures RecoveredValue(Replay(p, baseKey, pendingKey).store, baseKey, pendingKey, Replay(p, baseKey, pendingKey).image)
         == RecoveredValue(p.store, baseKey, pendingKey, p.image)
    ensures !StoredPending(Replay(p, baseKey, pendingKey).store, pendingKey)
    ensures |Replay(p, baseKey, pendingKey).image| == |p.image|
    ensures StoredPending(p.store, pendingKey) || Tidy(p.image) ==> Tidy(Replay(p, baseKey, pendingKey).image)
    ensures Replay(Replay(p, baseKey, pendingKey), baseKey, pendingKey) == Replay(p, baseKey, pendingKey)
  {
    ZeroBitsErased(|p.image|);
    ErasedIsPrefixCleared(|p.image|);
  }

  /** The number of bytes `clear_bits_range_(start, count)` reads and rewrites. */
  function CoveringBytes(start: nat, count: nat): nat
  {
    (start + count + 7) / 8 - start / 8
  }

  /** The argument checks of `clear_bits_range_`, in the order the source makes them. */
  function ClearRangeCheck(totalBits: nat, start: nat, count: nat): (r: Status)
    ensures r == Ok || r == InvalidArg || r == InvalidSize
    ensures r == InvalidArg <==> count > 0 && start + count > totalBits
    ensures r == InvalidSize <==> count > 0 && start + count <= totalBits && CoveringBytes(start, count) > WRITE_CHUNK_SIZE
  {
    if count == 0 then Ok
    else if start >= totalBits || count > totalBits - start then InvalidArg
    else if CoveringBytes(start, count) > WRITE_CHUNK_SIZE then InvalidSize
    else Ok
  }

  /**
   * The block `increment` clears in one write, as written: at most the
   * remaining steps, the free bits and `WRITE_CHUNK_SIZE * 8` bits.
   */
  function BlockBitsAsWritten(remaining: nat, used: nat, totalBits: nat): (b: nat)
    requires used < totalBits && remaining > 0
    ensures 0 < b <= remaining && used + b <= totalBits
  {
    Min(remaining, Min(totalBits - used, WRITE_CHUNK_SIZE * 8))
  }

  /**
   * When the next free bit is not byte aligned, a full-size block as written
   * spans 257 bytes and `clear_bits_range_` refuses it.
   */
  lemma AsWrittenBlockRejected(remaining: nat, used: nat, totalBits: nat)
    requires used < totalBits && used % 8 != 0
    requires remaining >= WRITE_CHUNK_SIZE * 8 && totalBits - used >= WRITE_CHUNK_SIZE * 8
    ensures ClearRangeCheck(totalBits, used, BlockBitsAsWritten(remaining, used, totalBits)) == InvalidSize
  {
    var q, k := used / 8, used % 8;
    assert used + 2048 + 7 == 8 * (q + 257) + (k - 1);
    assert (used + 2048 + 7) / 8 == q + 257;
  }

  /** A concrete instance: 3 bits used on a 300-byte partition, then `increment(2048)`. */
  lemma AsWrittenBlockExample()
    ensures BlockBitsAsWritten(2048, 3, 2400) == 2048
    ensures CoveringBytes(3, 2048) == 257
    ensures ClearRangeCheck(2400, 3, BlockBitsAsWritten(2048, 3, 2400)) == InvalidSize
  {
    AsWrittenBlockRejected(2048, 3, 2400);
  }

  /**
   * The block `increment` clears in one write, corrected so that it never
   * spans more than `WRITE_CHUNK_SIZE` bytes: it is always accepted and it is
   * as large as it can be (all remaining steps, all free bits, or a full
   * buffer ending on a byte boundary).
   */
  function BlockBits(remaining: nat, used: nat, totalBits: nat): (b: nat)
    requires used < totalBits && remaining > 0
    ensures 0 < b <= remaining && used + b <= totalBits
    ensures ClearRangeCheck(totalBits, used, b) == Ok
    ensures b == remaining || used + b == totalBits
         || ((used + b) % 8 == 0 && CoveringBytes(used, b) == WRITE_CHUNK_SIZE)
  {
    var q, k := used / 8, used % 8;
    var b := Min(remaining, Min(totalBits - used, WRITE_CHUNK_SIZE * 8 - k));
    assert used + b + 7 <= 8 * (q + 256) + 7;
    assert b == WRITE_CHUNK_SIZE * 8 - k ==> used + b == 8 * (q + 256);
    b
  }

  /** The base `reset` stores, as written: the negated signed value. */
  function ResetBaseAsWritten(base: int, used: nat): int
  {
    -(base + used)
  }

  /**
   * As written, the signed value after `reset` is `-base`, not 0: after a
   * rollover (base 256, 44 bits used) a reset followed by `increment(5)` reads
   * 0 instead of 5, and a second reset brings back 300.
   */
  lemma ResetAsWrittenCounterexample()
    ensures ResetBaseAsWritten(256, 44) + 44 == -256
    ensures ClampedValue(ResetBaseAsWritten(256, 44) + 44 + 5) == 0
    ensures ClampedValue(ResetBaseAsWritten(ResetBaseAsWritten(256, 44), 44) + 44) == 300
  {
  }

  /** The base `reset` stores, corrected: the bits already used count from zero. */
  function ResetBase(used: nat): (base: int)
    ensures base + used == 0
  {
    -(used as int)
  }

  /** After the corrected reset, `n` further steps read as exactly `n`. */
  lemma ResetThenCount(used: nat, n: nat)
    ensures ClampedValue(ResetBase(used) + used + n) == n
  {
  }

  /** Writing back the covering bytes of a cleared range clears exactly that range in flash. */
  lemma WriteOfClearedBytes(s: seq<bv8>, start: nat, end: nat, first: nat, data: seq<bv8>)
    requires start < end && (end + 7) / 8 <= |s| && first == start / 8
    requires |data| == (end + 7) / 8 - first
    requires forall j :: 0 <= j < |data| ==> data[j] == ClearedByte(s[first + j], first + j, start, end)
    ensures AndInto(s, first, data) == ClearRange(s, start, end)
  {
    var r := AndInto(s, first, data);
    forall i | 0 <= i < |s| ensures r[i] == ClearRange(s, start, end)[i] {
      if first <= i < first + |data| {
        ClearedByteSubMask(s[i], i, start, end);
      } else {
        ClearRangeOutside(s, start, end, i);
      }
    }
  }

  /**
   * One pass of the byte loop of `clear_bits_range_`: byte `i` of the image,
   * held in `buffer[off]`, loses the bits of `[start, end)` that fall into it,
   * cleared one at a time from `max(start, 8 * i)` up to `min(end, 8 * i + 8)`.
   */
  method ClearBitsInByte(buffer: array<bv8>, off: nat, i: nat, start: nat, end: nat)
    requires off < buffer.Length
    modifies buffer
    ensures buffer[off] == ClearedByte(old(buffer[off]), i, start, end)
    ensures forall j :: 0 <= j < buffer.Length && j != off ==> buffer[j] == old(buffer[j])
  {
    var first := 8 * i;
    var clearFrom := Max(start, first);
    var clearTo := Min(end, first + 8);
    ClearedByteAt(buffer[off], i, start, end, clearFrom - first, clearTo - first);
    if clearFrom < clearTo {
      ClearBits(buffer, off, first, clearFrom, clearTo);
    } else if clearFrom == clearTo {
      assert ClearBitsFrom(buffer[off], clearFrom - first, clearTo - first) == buffer[off];
    }
  }

  /** The inner loop of `clear_bits_range_`: clears bits `from - first` up to `to - first` of `buffer[off]`, one at a time. */
  method ClearBits(buffer: array<bv8>, off: nat, first: nat, from: nat, to: nat)
    requires off < buffer.Length && first <= from <= to <= first + 8
    modifies buffer
    ensures buffer[off] == ClearBitsFrom(old(buffer[off]), from - first, to - first)
    ensures forall j :: 0 <= j < buffer.Length && j != off ==> buffer[j] == old(buffer[j])
  {
    ghost var x := buffer[off];
    var bit := from;
    while bit < to
      invariant from <= bit <= to
      invariant buffer[off] == ClearBitsFrom(x, from - first, bit - first)
      invariant forall j :: 0 <= j < buffer.Length && j != off ==> buffer[j] == old(buffer[j])
    {
      buffer[off] := buffer[off] & !Mask(bit - first);
      bit := bit + 1;
    }
  }

  /**
   * The byte loop of `clear_bits_range_`: every byte of `buffer[..n]`, which
   * holds the image from byte `startByte` on, loses the bits of
   * `[start, end)` that fall into it.
   */
  method ClearBitsInBuffer(buffer: array<bv8>, n: nat, ghost image: seq<bv8>, startByte: nat, start: nat, end: nat)
    requires n <= buffer.Length && startByte + n <= |image|
    requires forall j :: 0 <= j < n ==> buffer[j] == image[startByte + j]
    modifies buffer
    ensures forall j :: 0 <= j < n ==> buffer[j] == ClearedByte(image[startByte + j], startByte + j, start, end)
  {
    var off := 0;
    while off < n
      invariant off <= n
      invariant forall j :: 0 <= j < off ==> buffer[j] == ClearedByte(image[startByte + j], startByte + j, start, end)
      invariant forall j :: off <= j < n ==> buffer[j] == image[startByte + j]
    {
      ClearBitsInByte(buffer, off, startByte + off, start, end);
      off := off + 1;
    }
  }

  /**
   * The read-modify-write of `clear_bits_range_`: reads the `n` covering
   * bytes from `startByte` into a 256-byte buffer, clears the bits of
   * `[start, end)` in it and writes it back.
   */
  method RewriteBytes(p: Partition, startByte: nat, n: nat, start: nat, end: nat) returns (r: Status)
    requires start < end && startByte == start / 8 && n == (end + 7) / 8 - startByte
    requires n <= WRITE_CHUNK_SIZE && (end + 7) / 8 <= |p.bytes|
    modifies p
    ensures r == Ok || r == StorageError
    ensures r == Ok ==> p.bytes == ClearRange(old(p.bytes), start, end)
    ensures r != Ok ==> p.bytes == old(p.bytes)
  {
    var buffer := new bv8[WRITE_CHUNK_SIZE](_ => 0);
    r := p.Read(startByte, buffer, n);
    if r != Ok {
      return;
    }
    ghost var orig := p.bytes;
    ClearBitsInBuffer(buffer, n, orig, startByte, start, end);
    r := p.Write(startByte, buffer, n);
    if r != Ok {
      return;
    }
    ghost var data := buffer[..n];
    assert forall j :: 0 <= j < n ==> data[j] == buffer[j];
    WriteOfClearedBytes(orig, start, end, startByte, data);
  }

  /**
   * The inner loop of `count_zero_bits_in_partition_`: adds the cleared bits
   * of the chunk `buffer[..n]`, read from byte `offset` of `image`, to the
   * running count of the bytes before it.
   */
  method CountChunkZeros(buffer: array<bv8>, n: nat, ghost image: seq<bv8>, offset: nat, acc: nat) returns (total: nat)
    requires n <= buffer.Length && offset + n <= |image|
    requires forall j :: 0 <= j < n ==> buffer[j] == image[offset + j]
    requires acc == ZeroBits(image[..offset])
    ensures total == ZeroBits(image[..offset + n])
  {
    total := acc;
    var i := 0;
    while i < n
      invariant i <= n
      invariant total == ZeroBits(image[..offset + i])
    {
      ZeroBitsSnoc(image, offset + i);
      total := total + Popcount(!buffer[i]);
      i := i + 1;
    }
  }

  /**
   * Crash safety of one state: the image has exactly `used` cleared bits in
   * allocation order, and a power cycle followed by `init` recovers `signed`.
   */
  ghost predicate Recoverable(image: seq<bv8>, used: nat, store: map<string, NvsValue>,
                              baseKey: string, pendingKey: string, signed: int)
  {
    PrefixCleared(image, used) && RecoveredValue(store, baseKey, pendingKey, image) == signed
  }

  /**
   * Clearing the next `block` bits keeps a tidy image tidy and, with no
   * rollover pending, raises the value a power cycle would recover by `block`.
   */
  lemma ClearKeepsDurable(image: seq<bv8>, used: nat, block: nat, store: map<string, NvsValue>,
                           baseKey: string, pendingKey: string, signed: int)
    requires Recoverable(image, used, store, baseKey, pendingKey, signed) && used + block <= 8 * |image|
    requires !StoredPending(store, pendingKey)
    ensures Recoverable(ClearRange(image, used, used + block), used + block, store, baseKey, pendingKey, signed + block)
  {
    PrefixClearedGrow(image, used, block);
    ZeroBitsOfPrefixCleared(image, used);
    ZeroBitsOfPrefixCleared(ClearRange(image, used, used + block), used + block);
  }

  class FlashMonotonicCounter {
    const nvs: Nvs
    var partition: Partition?
    var baseKey: string
    var pendingKey: string
    var baseValue: int
    var usedBits: nat
    var totalBits: nat
    var initialized: bool

    /** An initialized counter has a valid partition, the bit count of that partition, a used count within it and two distinct keys. */
    ghost predicate Valid()
      reads this, partition
    {
      initialized ==>
        partition != null && partition.Valid()
        && totalBits == 8 * |partition.bytes|
        && usedBits <= totalBits
        && baseKey != pendingKey
    }

    /**
     * Crash safety: a power cycle now followed by `init` recovers the
     * in-memory value, and the image holds exactly `usedBits` cleared bits
     * in allocation order.
     */
    ghost predicate Durable()
      reads this, partition, nvs
    {
      Valid() && initialized
      && Recoverable(partition.bytes, usedBits, nvs.committed, baseKey, pendingKey, SignedValue())
    }

    /** `signed_value_()`. */
    function SignedValue(): int
      reads this
    {
      baseValue + usedBits
    }

    /** `value()`. */
    function Value(): (v: nat)
      reads this
      ensures v == ClampedValue(SignedValue())
    {
      ClampedValue(baseValue + usedBits)
    }

    constructor (store: Nvs)
      ensures nvs == store && partition == null && !initialized
      ensures baseValue == 0 && usedBits == 0 && totalBits == 0
      ensures baseKey == [] && pendingKey == []
    {
      nvs := store;
      partition := null;
      baseKey, pendingKey := [], [];
      baseValue, usedBits, totalBits := 0, 0, 0;
      initialized := false;
    }

    /**
     * `init(partition_label)`: finds the partition, derives the keys, loads
     * the base (storing 0 the first time), then either completes a pending
     * rollover or scans the image for cleared bits.
     */
    method Init(labelArg: Option<string>, table: map<string, Partition>) returns (r: Status)
      requires !initialized
      requires forall p :: p in table.Values ==> p.Valid()
      modifies this, nvs, table.Values
      ensures Valid()
      ensures initialized <==> r == Ok
      ensures labelArg.None? || labelArg.value == [] ==> r == InvalidArg && partition == old(partition)
      ensures labelArg.Some? && labelArg.value != [] && labelArg.value !in table ==> r == NotFound && partition == null
      ensures labelArg.Some? && labelArg.value != [] && labelArg.value in table ==> r != InvalidArg && r != NotFound
      ensures r == Ok ==>
        (labelArg.Some? && labelArg.value in table && partition == table[labelArg.value]
         && baseKey == BaseKey(labelArg.value) && pendingKey == PendingKey(labelArg.value)
         && baseValue == StoredBase(old(nvs.staged), baseKey)
         && usedBits == (if StoredPending(old(nvs.staged), pendingKey) then 0
                         else ZeroBits(old(table[labelArg.value].bytes))))
      // Crash safety of start-up: on every exit the value a power cycle would recover is unchanged.
      ensures labelArg.Some? && labelArg.value in table && old(nvs.staged) == old(nvs.committed) ==>
        RecoveredValue(nvs.committed, BaseKey(labelArg.value), PendingKey(labelArg.value), table[labelArg.value].bytes)
        == RecoveredValue(old(nvs.committed), BaseKey(labelArg.value), PendingKey(labelArg.value), old(table[labelArg.value].bytes))
      // A successful start-up persists exactly the replayed state.
      ensures r == Ok && old(nvs.staged) == old(nvs.committed) ==>
        (nvs.staged == nvs.committed
         && Persisted(nvs.committed, partition.bytes)
            == Replay(Persisted(old(nvs.committed), old(table[labelArg.value].bytes)), baseKey, pendingKey))
      ensures r == Ok && old(nvs.staged) == old(nvs.committed)
              && (StoredPending(old(nvs.committed), pendingKey) || Tidy(old(table[labelArg.value].bytes)))
              ==> Durable()
    {
      if labelArg.None? || labelArg.value == [] {
        return InvalidArg;
      }
      var name := labelArg.value;
      if name !in table {
        partition := null;
        return NotFound;
      }
      var p := table[name];
      partition := p;
      r := DeriveNvsKeys(name);
      BaseAndPendingKeysDiffer(name, name);
      totalBits := 8 * p.Size();

      r := Restore();
      if r == Ok {
        initialized := true;
      }
    }

    /**
     * The start-up steps of `init` after the keys are known: load the base,
     * load the pending flag, then complete a pending rollover or scan.
     */
    method Restore() returns (r: Status)
      requires partition != null && partition.Valid()
      requires totalBits == 8 * |partition.bytes| && baseKey != pendingKey
      modifies this`baseValue, this`usedBits, nvs, partition
      ensures r == Ok || r == StorageError
      ensures partition.Valid() && |partition.bytes| == |old(partition.bytes)|
      ensures r == Ok ==> usedBits <= totalBits
      ensures r == Ok ==>
        (baseValue == StoredBase(old(nvs.staged), baseKey)
         && usedBits == (if StoredPending(old(nvs.staged), pendingKey) then 0 else ZeroBits(old(partition.bytes))))
      ensures old(nvs.staged) == old(nvs.committed) ==>
        RecoveredValue(nvs.committed, baseKey, pendingKey, partition.bytes)
        == RecoveredValue(old(nvs.committed), baseKey, pendingKey, old(partition.bytes))
      ensures r == Ok && old(nvs.staged) == old(nvs.committed) ==>
        (nvs.staged == nvs.committed
         && Persisted(nvs.committed, partition.bytes) == Replay(Persisted(old(nvs.committed), old(partition.bytes)), baseKey, pendingKey))
      ensures r == Ok && old(nvs.staged) == old(nvs.committed)
              && (StoredPending(old(nvs.committed), pendingKey) || Tidy(old(partition.bytes))) ==>
        (PrefixCleared(partition.bytes, usedBits)
         && RecoveredValue(nvs.committed, baseKey, pendingKey, partition.bytes) == SignedValue())
    {
      ghost var store0, image0 := nvs.staged, partition.bytes;
      LoadedStoreKeeps(store0, baseKey, pendingKey, image0);
      r := LoadBase();
      if r != Ok {
        return;
      }
      ghost var store1 := nvs.staged;
      assert store1 == LoadedStore(store0, baseKey);
      var pending: bool;
      r, pending := LoadPending();
      if r != Ok {
        return;
      }
      assert pending == StoredPending(store0, pendingKey);
      if pending {
        r := CompleteRollover();
        if r != Ok {
          return;
        }
        assert nvs.committed == store1[baseKey := I64(baseValue)][pendingKey := U8(0)];
      } else {
        r := CountZeroBits();
        if r != Ok {
          return;
        }
        assert partition.bytes == image0 && usedBits == ZeroBits(image0);
      }
      r := Ok;
    }

    /** The pending branch of `init`: erase the image, then store the base with the flag cleared. */
    method CompleteRollover() returns (r: Status)
      requires partition != null && partition.Valid() && baseKey != pendingKey
      modifies this`usedBits, nvs, partition
      ensures r == Ok || r == StorageError
      ensures partition.Valid() && |partition.bytes| == |old(partition.bytes)|
      ensures partition.bytes == old(partition.bytes) || partition.bytes == Erased(|old(partition.bytes)|)
      ensures r == Ok ==>
        (usedBits == 0 && partition.bytes == Erased(|old(partition.bytes)|)
         && PrefixCleared(partition.bytes, 0) && ZeroBits(partition.bytes) == 0
         && nvs.committed == nvs.staged
         && nvs.staged == old(nvs.staged)[baseKey := I64(baseValue)][pendingKey := U8(0)])
      ensures r != Ok ==> nvs.committed == old(nvs.committed)
    {
      r := partition.EraseAll();
      if r != Ok {
        return;
      }
      usedBits := 0;
      r := SaveRolloverState(baseValue, false);
      if r != Ok {
        return;
      }
      ZeroBitsErased(|partition.bytes|);
      ErasedIsPrefixCleared(|partition.bytes|);
    }

    /**
     * `derive_nvs_keys_from_partition_label_`: both keys always fit the
     * 16-byte buffers, so the size checks never fail.
     */
    method DeriveNvsKeys(name: string) returns (r: Status)
      modifies this`baseKey, this`pendingKey
      ensures r == Ok
      ensures baseKey == BaseKey(name) && pendingKey == PendingKey(name)
      ensures |baseKey| < KEY_BUFFER_SIZE && |pendingKey| < KEY_BUFFER_SIZE
    {
      var hash := Fnv1a32(name);
      baseKey := "b_" + Hex8(hash);
      pendingKey := "p_" + Hex8(hash);
      r := if |baseKey| >= KEY_BUFFER_SIZE || |pendingKey| >= KEY_BUFFER_SIZE then InvalidSize else Ok;
    }

    /** `load_base_from_nvs_`: reads the base; a missing base is stored and committed as 0. */
    method LoadBase() returns (r: Status)
      modifies this`baseValue, nvs
      ensures r == Ok || r == StorageError
      ensures r == Ok ==> baseValue == StoredBase(old(nvs.staged), baseKey) && nvs.staged == LoadedStore(old(nvs.staged), baseKey)
      ensures r != Ok ==> baseValue == old(baseValue)
      ensures nvs.staged == old(nvs.staged) || nvs.staged == LoadedStore(old(nvs.staged), baseKey)
      ensures nvs.committed == old(nvs.committed) || nvs.committed == LoadedStore(old(nvs.staged), baseKey)
      ensures r == Ok && old(nvs.staged) == old(nvs.committed) ==> nvs.committed == nvs.staged
    {
      r := nvs.Open();
      if r != Ok {
        return;
      }
      var got := nvs.GetI64(baseKey);
      var base := 0;
      match got {
        case Found(v) =>
          base := v;
          r := Ok;
        case Missing =>
          base := 0;
          r := nvs.Set(baseKey, I64(base));
          if r == Ok {
            r := nvs.Commit();
          }
        case Failed =>
          r := StorageError;
      }
      if r == Ok {
        baseValue := base;
      }
    }

    /** `load_rollover_pending_from_nvs_`: a missing flag reads as false. */
    method LoadPending() returns (r: Status, pending: bool)
      ensures r == Ok || r == StorageError
      ensures r == Ok ==> pending == StoredPending(nvs.staged, pendingKey)
    {
      pending := false;
      r := nvs.Open();
      if r != Ok {
        return;
      }
      var got := nvs.GetU8(pendingKey);
      match got {
        case Found(v) =>
          pending := v != 0;
          r := Ok;
        case Missing =>
          pending := false;
          r := Ok;
        case Failed =>
          r := StorageError;
      }
    }

    /** `save_rollover_state_to_nvs_`: sets the base and the flag, then commits both at once. */
    method SaveRolloverState(base: int, pending: bool) returns (r: Status)
      requires baseKey != pendingKey
      modifies nvs
      ensures r == Ok || r == StorageError
      ensures r == Ok ==>
        (nvs.committed == nvs.staged
         && nvs.staged == old(nvs.staged)[baseKey := I64(base)][pendingKey := U8(if pending then 1 else 0)])
      ensures r == Ok ==> StoredBase(nvs.committed, baseKey) == base && (StoredPending(nvs.committed, pendingKey) <==> pending)
      ensures r != Ok ==> nvs.committed == old(nvs.committed)
    {
      r := nvs.Open();
      if r != Ok {
        return;
      }
      r := nvs.Set(baseKey, I64(base));
      if r == Ok {
        r := nvs.Set(pendingKey, U8(if pending then 1 else 0));
      }
      if r == Ok {
        r := nvs.Commit();
      }
    }

    /** `count_zero_bits_in_partition_`: scans the image in 256-byte chunks. */
    method CountZeroBits() returns (r: Status)
      requires partition != null && partition.Valid()
      modifies this`usedBits
      ensures r == Ok || r == StorageError
      ensures r == Ok ==> usedBits == ZeroBits(partition.bytes)
      ensures usedBits <= 8 * |partition.bytes|
    {
      var buffer := new bv8[SCAN_CHUNK_SIZE](_ => 0);
      var p := partition;
      usedBits := 0;
      var offset := 0;
      while offset < p.Size()
        invariant offset <= |p.bytes|
        invariant usedBits == ZeroBits(p.bytes[..offset])
      {
        var n := Min(buffer.Length, p.Size() - offset);
        r := p.Read(offset, buffer, n);
        if r != Ok {
          return;
        }
        usedBits := CountChunkZeros(buffer, n, p.bytes, offset, usedBits);
        offset := offset + n;
      }
      assert p.bytes[..offset] == p.bytes;
      r := Ok;
    }

    /**
     * `clear_bits_range_(start, count)`: reads the covering bytes into a
     * 256-byte buffer, clears the bits of `[start, start + count)` one by
     * one, and writes the buffer back.
     */
    method ClearBitsRange(start: nat, count: nat) returns (r: Status)
      requires Valid() && initialized
      modifies partition
      ensures ClearRangeCheck(totalBits, start, count) != Ok ==> r == ClearRangeCheck(totalBits, start, count)
      ensures ClearRangeCheck(totalBits, start, count) == Ok ==> r == Ok || r == StorageError
      ensures r == Ok ==> partition.bytes == ClearRange(old(partition.bytes), start, start + count)
      ensures r != Ok ==> partition.bytes == old(partition.bytes)
    {
      if count == 0 {
        ClearRangeEmpty(partition.bytes, start, start + count);
        return Ok;
      }
      if start >= totalBits || count > totalBits - start {
        return InvalidArg;
      }
      var startByte := start / 8;
      var endBit := start + count;
      var endByte := (endBit + 7) / 8;
      var n := endByte - startByte;
      if n > WRITE_CHUNK_SIZE {
        return InvalidSize;
      }
      r := RewriteBytes(partition, startByte, n, start, endBit);
    }

    /** Clearing the next `block` bits from a durable state, with no rollover pending, leaves a durable state. */
    lemma ClearedStaysDurable(bytes0: seq<bv8>, used0: nat, signed0: int, block: nat)
      requires Valid() && initialized && !StoredPending(nvs.committed, pendingKey)
      requires Recoverable(bytes0, used0, nvs.committed, baseKey, pendingKey, signed0) && used0 + block <= 8 * |bytes0|
      requires partition.bytes == ClearRange(bytes0, used0, used0 + block)
      requires usedBits == used0 + block && SignedValue() == signed0 + block
      ensures Durable()
    {
      ClearKeepsDurable(bytes0, used0, block, nvs.committed, baseKey, pendingKey, signed0);
    }

    /**
     * One block of `increment`: clears the `block` bits after the used ones
     * and counts them as used.
     */
    method ClearNextBlock(block: nat) returns (r: Status)
      requires Valid() && initialized
      requires usedBits < totalBits && ClearRangeCheck(totalBits, usedBits, block) == Ok && usedBits + block <= totalBits
      modifies this`usedBits, partition
      ensures Valid()
      ensures r == Ok || r == StorageError
      ensures usedBits == if r == Ok then old(usedBits) + block else old(usedBits)
      ensures old(Durable()) && !StoredPending(nvs.committed, pendingKey) ==> Durable()
    {
      ghost var bytes0, used0, signed0 := partition.bytes, usedBits, SignedValue();
      ghost var durable0 := Durable();
      r := ClearBitsRange(usedBits, block);
      if r == Ok {
        usedBits := usedBits + block;
        if durable0 && !StoredPending(nvs.committed, pendingKey) {
          ClearedStaysDurable(bytes0, used0, signed0, block);
        }
      }
    }

    /**
     * `rollover_`: moves the used bits into the base with the
     * persist-erase-persist protocol. The signed value never changes, and
     * every exit leaves a state whose recovery yields the same value.
     */
    method Rollover() returns (r: Status)
      requires Valid() && initialized
      modifies this`baseValue, this`usedBits, partition, nvs
      ensures Valid()
      ensures SignedValue() == old(SignedValue())
      ensures r == Ok || r == StorageError
      ensures r == Ok ==>
        (usedBits == 0 && baseValue == old(SignedValue())
         && partition.bytes == Erased(|old(partition.bytes)|)
         && nvs.committed == nvs.staged
         && nvs.staged == old(nvs.staged)[baseKey := I64(baseValue)][pendingKey := U8(0)])
      ensures r != Ok ==>
        (baseValue == old(baseValue) && usedBits == old(usedBits) && partition.bytes == old(partition.bytes))
        || (usedBits == 0 && partition.bytes == Erased(|old(partition.bytes)|)
            && StoredPending(nvs.committed, pendingKey) && StoredBase(nvs.committed, baseKey) == baseValue)
      ensures old(Durable()) ==> Durable()
    {
      var newBase := SignedValue();
      r := SaveRolloverState(newBase, true);
      if r != Ok {
        return;
      }
      r := partition.EraseAll();
      if r != Ok {
        return;
      }
      baseValue := newBase;
      usedBits := 0;
      ZeroBitsErased(|partition.bytes|);
      ErasedIsPrefixCleared(|partition.bytes|);
      r := SaveRolloverState(baseValue, false);
    }

    /**
     * `increment(steps)`: clears `steps` further bits in blocks, rolling over
     * whenever the partition is full. The signed value grows by exactly
     * `steps` on success and never by more, and an error never comes from the
     * argument checks of `clear_bits_range_`.
     */
    method Increment(steps: nat) returns (r: Status)
      requires Valid() && steps < U32_LIMIT
      modifies this`baseValue, this`usedBits, partition, nvs
      ensures Valid()
      ensures !old(initialized) ==> r == InvalidState && baseValue == old(baseValue) && usedBits == old(usedBits)
      ensures r == Ok || r == InvalidState || r == StorageError
      ensures old(SignedValue()) <= SignedValue() <= old(SignedValue()) + steps
      ensures r == Ok ==> SignedValue() == old(SignedValue()) + steps
      ensures old(Value()) <= Value()
      ensures old(Durable()) && !old(StoredPending(nvs.committed, pendingKey)) ==> Durable()
    {
      if !initialized {
        return InvalidState;
      }
      var remaining: nat := steps;
      while remaining > 0
        invariant Valid() && initialized
        invariant remaining <= steps
        invariant SignedValue() + remaining == old(SignedValue()) + steps
        invariant old(Durable()) && !old(StoredPending(nvs.committed, pendingKey)) ==>
          Durable() && !StoredPending(nvs.committed, pendingKey)
      {
        if usedBits >= totalBits {
          r := Rollover();
          if r != Ok {
            return;
          }
        }
        var block := BlockBits(remaining, usedBits, totalBits);
        r := ClearNextBlock(block);
        if r != Ok {
          return;
        }
        remaining := remaining - block;
      }
      r := Ok;
    }

    /**
     * `reset()`, corrected: the value becomes 0 in memory and, on success,
     * in NVS; the flash image is left as it is.
     */
    method Reset() returns (r: Status)
      requires Valid()
      modifies this`baseValue, nvs
      ensures Valid()
      ensures !old(initialized) ==> r == InvalidState && baseValue == old(baseValue) && nvs.committed == old(nvs.committed)
      ensures old(initialized) ==> (r == Ok || r == StorageError) && SignedValue() == 0 && Value() == 0
      ensures r == Ok ==>
        (nvs.committed == nvs.staged
         && nvs.staged == old(nvs.staged)[baseKey := I64(baseValue)][pendingKey := U8(0)])
      ensures r != Ok ==> nvs.committed == old(nvs.committed)
      ensures r == Ok && old(Durable()) ==> Durable()
    {
      if !initialized {
        return InvalidState;
      }
      baseValue := ResetBase(usedBits);
      r := SaveRolloverState(baseValue, false);
      if r == Ok && PrefixCleared(partition.bytes, usedBits) {
        ZeroBitsOfPrefixCleared(partition.bytes, usedBits);
      }
    }
  }
}
