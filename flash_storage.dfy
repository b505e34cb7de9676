/**
 * The two storage services the flash monotonic counter and the config web app
 * depend on, modelled as in-memory collaborators:
 *
 *  - `Partition`: an erase-block region whose write can only clear bits
 *    (the stored byte becomes `old & written`) and whose erase resets every
 *    byte to 0xFF (`esp_partition_read/write/erase_range`);
 *  - `Nvs`: the key-value store of one namespace
 *    (`nvs_get_*`, `nvs_set_*`, `nvs_commit`). Sets are staged and become
 *    durable only on a successful commit; a power cycle keeps what was
 *    committed and nothing else.
 *
 * Every storage call may fail; which one fails is not determined by the
 * model (a nondeterministic choice), and a failed call changes nothing.
 */
module FlashStorage {
  import opened Common
  import opened Bits

  /** The image `s` after writing `data` at `offset` to NOR flash: bits can only go from 1 to 0. */
  function AndInto(s: seq<bv8>, offset: nat, data: seq<bv8>): (r: seq<bv8>)
    requires offset + |data| <= |s|
    ensures |r| == |s|
    ensures forall i :: 0 <= i < |s| && !(offset <= i < offset + |data|) ==> r[i] == s[i]
    ensures forall i :: offset <= i < offset + |data| ==> r[i] == s[i] & data[i - offset]
  {
    seq(|s|, i requires 0 <= i < |s| =>
      if offset <= i < offset + |data| then s[i] & data[i - offset] else s[i])
  }

  class Partition {
    var bytes: seq<bv8>

    /** A real partition is non-empty and its size in bits fits a `uint32_t`. */
    ghost predicate Valid()
      reads this
    {
      0 < |bytes| && 8 * |bytes| < U32_LIMIT
    }

    constructor (image: seq<bv8>)
      requires 0 < |image| && 8 * |image| < U32_LIMIT
      ensures Valid() && bytes == image
    {
      bytes := image;
    }

    /** `partition_->size`. */
    function Size(): nat
      reads this
    {
      |bytes|
    }

    /** `esp_partition_read(partition, offset, buf, n)`. */
    method Read(offset: nat, buf: array<bv8>, n: nat) returns (r: Status)
      requires offset + n <= |bytes| && n <= buf.Length
      modifies buf
      ensures r == Ok || r == StorageError
      ensures r == Ok ==> forall i :: 0 <= i < n ==> buf[i] == bytes[offset + i]
      ensures r != Ok ==> forall i :: 0 <= i < buf.Length ==> buf[i] == old(buf[i])
      ensures forall i :: n <= i < buf.Length ==> buf[i] == old(buf[i])
    {
      var fail: bool :| true;
      if fail {
        return StorageError;
      }
      var i := 0;
      while i < n
        invariant i <= n
        invariant forall j :: 0 <= j < i ==> buf[j] == bytes[offset + j]
        invariant forall j :: i <= j < buf.Length ==> buf[j] == old(buf[j])
      {
        buf[i] := bytes[offset + i];
        i := i + 1;
      }
      r := Ok;
    }

    /** `esp_partition_write(partition, offset, buf, n)`: an AND of the written bytes into flash. */
    method Write(offset: nat, buf: array<bv8>, n: nat) returns (r: Status)
      requires offset + n <= |bytes| && n <= buf.Length
      modifies this
      ensures r == Ok || r == StorageError
      ensures r == Ok ==> bytes == AndInto(old(bytes), offset, buf[..n])
      ensures r != Ok ==> bytes == old(bytes)
    {
      var fail: bool :| true;
      if fail {
        return StorageError;
      }
      bytes := AndInto(bytes, offset, buf[..n]);
      r := Ok;
    }

    /** `esp_partition_erase_range(partition, 0, partition->size)`. */
    method EraseAll() returns (r: Status)
      modifies this
      ensures r == Ok || r == StorageError
      ensures r == Ok ==> bytes == Erased(|old(bytes)|)
      ensures r != Ok ==> bytes == old(bytes)
    {
      var fail: bool :| true;
      if fail {
        return StorageError;
      }
      bytes := Erased(|bytes|);
      r := Ok;
    }
  }

  /** The typed values kept in NVS: the counter's base and flag, and the config web app's items. */
  datatype NvsValue = I64(i: int) | U8(u: nat) | I32(n: int) | Str(s: string)

  /** The outcome of an `nvs_get_*`: a value, `ESP_ERR_NVS_NOT_FOUND`, or another error. */
  datatype Lookup<T> = Found(value: T) | Missing | Failed

  /** The base value stored under `key`, or 0 when there is none (the first-ever open). */
  function StoredBase(store: map<string, NvsValue>, key: string): int
  {
    if key in store && store[key].I64? then store[key].i else 0
  }

  /** The rollover-pending flag stored under `key`; a missing flag means false. */
  predicate StoredPending(store: map<string, NvsValue>, key: string)
  {
    key in store && store[key].U8? && store[key].u != 0
  }

  class Nvs {
    /** What `nvs_get_*` sees: every successful set since boot. */
    var staged: map<string, NvsValue>
    /** What survives a power cycle: the state at the last successful commit. */
    var committed: map<string, NvsValue>

    constructor (persisted: map<string, NvsValue>)
      ensures staged == persisted && committed == persisted
    {
      staged, committed := persisted, persisted;
    }

    /** `nvs_open` on the counter's namespace. */
    method Open() returns (r: Status)
      ensures r == Ok || r == StorageError
    {
      var fail: bool :| true;
      r := if fail then StorageError else Ok;
    }

    method GetI64(key: string) returns (r: Lookup<int>)
      ensures r.Found? ==> key in staged && staged[key] == I64(r.value)
      ensures r.Missing? ==> !(key in staged && staged[key].I64?)
      ensures key in staged && staged[key].I64? ==> !r.Missing?
    {
      var fail: bool :| true;
      if fail {
        r := Failed;
      } else if key in staged && staged[key].I64? {
        r := Found(staged[key].i);
      } else {
        r := Missing;
      }
    }

    method GetU8(key: string) returns (r: Lookup<nat>)
      ensures r.Found? ==> key in staged && staged[key] == U8(r.value)
      ensures r.Missing? ==> !(key in staged && staged[key].U8?)
      ensures key in staged && staged[key].U8? ==> !r.Missing?
    {
      var fail: bool :| true;
      if fail {
        r := Failed;
      } else if key in staged && staged[key].U8? {
        r := Found(staged[key].u);
      } else {
        r := Missing;
      }
    }

    /** `nvs_set_i64`, `nvs_set_i32`, `nvs_set_u8` or `nvs_set_str`, by the kind of `v`. */
    method Set(key: string, v: NvsValue) returns (r: Status)
      modifies this
      ensures r == Ok || r == StorageError
      ensures committed == old(committed)
      ensures staged == if r == Ok then old(staged)[key := v] else old(staged)
    {
      var fail: bool :| true;
      if fail {
        return StorageError;
      }
      staged := staged[key := v];
      r := Ok;
    }

    /** `nvs_commit`: atomically makes every staged set durable. */
    method Commit() returns (r: Status)
      modifies this
      ensures r == Ok || r == StorageError
      ensures staged == old(staged)
      ensures committed == if r == Ok then staged else old(committed)
    {
      var fail: bool :| true;
      if fail {
        return StorageError;
      }
      committed := staged;
      r := Ok;
    }

    /** A power cycle: whatever was not committed is lost. */
    method Restart()
      modifies this
      ensures staged == old(committed) && committed == old(committed)
    {
      staged := committed;
    }
  }
}
