/**
 * The bit-level view of a flash partition used by the monotonic counter.
 *
 * Bit `b` of a partition image is mask `1 << (b % 8)` of byte `b / 8`; a set
 * bit (1) is still erased, a cleared bit (0) has been consumed. The counter
 * consumes bits in allocation order, so in a tidy image exactly the first
 * `n` bits are cleared (`PrefixCleared`).
 */
module Bits {
  import opened Common

  /** An erased flash byte. */
  const ERASED: bv8 := 0xFF

  /** The mask of bit `k` within a byte. */
  function Mask(k: nat): bv8
    requires k < 8
  {
    (1 as bv8) << k
  }

  /** True when bit `b` of the image `s` is still erased (1). */
  predicate BitSet(s: seq<bv8>, b: nat)
    requires b < 8 * |s|
  {
    s[b / 8] & Mask(b % 8) != 0
  }

  /** Distinct bit positions have disjoint masks. */
  lemma MaskBit(j: nat, k: nat)
    requires j < 8 && k < 8
    ensures (Mask(j) & Mask(k) != 0) <==> j == k
  {
  }

  /** The byte `x` with the bits `lo .. k-1` cleared one at a time, lowest first. */
  function ClearBitsFrom(x: bv8, lo: nat, k: nat): bv8
    requires lo <= k <= 8
    decreases k
  {
    if k == lo then x else ClearBitsFrom(x, lo, k - 1) & !Mask(k - 1)
  }

  /**
   * Byte `i` of an image after the bits of `[start, end)` that fall into it
   * have been cleared one at a time, as the inner loop of `clear_bits_range_`
   * does.
   */
  function ClearedByte(x: bv8, i: nat, start: nat, end: nat): bv8
  {
    var lo, hi := Max(start, 8 * i) - 8 * i, Min(end, 8 * i + 8) - 8 * i;
    if 0 <= lo <= hi <= 8 then ClearBitsFrom(x, lo, hi) else x
  }

  /** `ClearedByte` unfolded at given bounds, for callers that have computed them. */
  lemma ClearedByteAt(x: bv8, i: nat, start: nat, end: nat, lo: int, hi: int)
    requires lo == Max(start, 8 * i) - 8 * i && hi == Min(end, 8 * i + 8) - 8 * i
    ensures ClearedByte(x, i, start, end) == if 0 <= lo <= hi <= 8 then ClearBitsFrom(x, lo, hi) else x
  {
  }

  /**
   * The image `s` with the bits `[start, end)` cleared: the specification of
   * the read-modify-write in `clear_bits_range_`.
   */
  function ClearRange(s: seq<bv8>, start: nat, end: nat): (r: seq<bv8>)
    ensures |r| == |s|
  {
    seq(|s|, i requires 0 <= i < |s| => ClearedByte(s[i], i, start, end))
  }

  /** Bit `j` survives the clearing of bits `lo .. k-1` exactly when it was set and lies outside them. */
  lemma {:induction false} ClearBitsFromBit(x: bv8, lo: nat, k: nat, j: nat)
    requires lo <= k <= 8 && j < 8
    ensures (ClearBitsFrom(x, lo, k) & Mask(j) != 0) <==> (x & Mask(j) != 0) && !(lo <= j < k)
    decreases k
  {
    if k > lo {
      ClearBitsFromBit(x, lo, k - 1, j);
      MaskBit(j, k - 1);
      AndNotBit(ClearBitsFrom(x, lo, k - 1), Mask(k - 1), j);
    }
  }

  /** Clearing bits one at a time only ever turns bits off. */
  lemma {:induction false} ClearBitsFromSubMask(x: bv8, lo: nat, k: nat)
    requires lo <= k <= 8
    ensures x & ClearBitsFrom(x, lo, k) == ClearBitsFrom(x, lo, k)
    decreases k
  {
    if k > lo {
      ClearBitsFromSubMask(x, lo, k - 1);
      AndNotKeepsSubMask(x, ClearBitsFrom(x, lo, k - 1), Mask(k - 1));
    }
  }

  lemma AndNotKeepsSubMask(x: bv8, c: bv8, m: bv8)
    requires x & c == c
    ensures x & (c & !m) == c & !m
  {
  }

  /** The bits `lo .. hi-1` that `ClearedByte` clears in byte `i` are the byte's part of `[start, end)`. */
  lemma ByteWindow(i: nat, start: nat, end: nat, k: nat)
    requires k < 8
    ensures var lo, hi := Max(start, 8 * i) - 8 * i, Min(end, 8 * i + 8) - 8 * i;
      if 0 <= lo <= hi <= 8 then ((lo <= k < hi) <==> (start <= 8 * i + k < end))
      else !(start <= 8 * i + k < end)
  {
  }

  /** Bit `k` of byte `i` survives exactly when it was set and its global index `8 * i + k` lies outside `[start, end)`. */
  lemma ClearedByteBit(x: bv8, i: nat, start: nat, end: nat, k: nat)
    requires k < 8
    ensures (ClearedByte(x, i, start, end) & Mask(k) != 0) <==> (x & Mask(k) != 0) && !(start <= 8 * i + k < end)
  {
    var lo, hi := Max(start, 8 * i) - 8 * i, Min(end, 8 * i + 8) - 8 * i;
    ByteWindow(i, start, end, k);
    if 0 <= lo <= hi <= 8 {
      ClearBitsFromBit(x, lo, hi, k);
    }
  }

  /** A cleared byte is a sub-mask of the byte it came from. */
  lemma ClearedByteSubMask(x: bv8, i: nat, start: nat, end: nat)
    ensures x & ClearedByte(x, i, start, end) == ClearedByte(x, i, start, end)
  {
    var lo, hi := Max(start, 8 * i) - 8 * i, Min(end, 8 * i + 8) - 8 * i;
    if 0 <= lo <= hi <= 8 {
      ClearBitsFromSubMask(x, lo, hi);
    }
  }

  /** Bit-mask locality: exactly the bits of `[start, end)` become 0, every other bit keeps its value. */
  lemma ClearRangeBit(s: seq<bv8>, start: nat, end: nat, b: nat)
    requires b < 8 * |s|
    ensures BitSet(ClearRange(s, start, end), b) <==> BitSet(s, b) && !(start <= b < end)
  {
    var i, k := b / 8, b % 8;
    assert 8 * i + k == b;
    ClearedByteBit(s[i], i, start, end, k);
  }

  lemma AndNotBit(x: bv8, m: bv8, k: nat)
    requires k < 8
    ensures (x & !m & Mask(k) != 0) <==> (x & Mask(k) != 0) && (m & Mask(k) == 0)
  {
  }

  /** Clearing never sets a bit: every byte of the result is a sub-mask of the old byte. */
  lemma ClearRangeNeverSets(s: seq<bv8>, start: nat, end: nat)
    ensures forall i :: 0 <= i < |s| ==> ClearRange(s, start, end)[i] & s[i] == ClearRange(s, start, end)[i]
  {
    forall i | 0 <= i < |s| ensures ClearRange(s, start, end)[i] & s[i] == ClearRange(s, start, end)[i] {
      ClearedByteSubMask(s[i], i, start, end);
    }
  }

  /** Clearing the same bits of one byte twice clears them once. */
  lemma ClearedByteIdempotent(x: bv8, i: nat, start: nat, end: nat)
    ensures ClearedByte(ClearedByte(x, i, start, end), i, start, end) == ClearedByte(x, i, start, end)
  {
    var y := ClearedByte(x, i, start, end);
    forall k | 0 <= k < 8
      ensures (ClearedByte(y, i, start, end) & Mask(k) != 0) <==> (y & Mask(k) != 0)
    {
      ClearedByteBit(x, i, start, end, k);
      ClearedByteBit(y, i, start, end, k);
    }
    ByteExt(ClearedByte(y, i, start, end), y);
  }

  /** Repeating the same clear (a retried write after a crash) produces the same bytes. */
  lemma ClearRangeIdempotent(s: seq<bv8>, start: nat, end: nat)
    ensures ClearRange(ClearRange(s, start, end), start, end) == ClearRange(s, start, end)
  {
    var r := ClearRange(s, start, end);
    forall i | 0 <= i < |s| ensures ClearRange(r, start, end)[i] == r[i] {
      ClearedByteIdempotent(s[i], i, start, end);
    }
  }

  /** Clearing an empty range changes nothing. */
  lemma ClearRangeEmpty(s: seq<bv8>, start: nat, end: nat)
    requires end <= start
    ensures ClearRange(s, start, end) == s
  {
    forall i | 0 <= i < |s| ensures ClearRange(s, start, end)[i] == s[i] {
      assert Min(end, 8 * i + 8) <= Max(start, 8 * i);
    }
  }

  /** Bytes outside the covering range `[start/8, ceil(end/8))` are untouched. */
  lemma ClearRangeOutside(s: seq<bv8>, start: nat, end: nat, i: nat)
    requires i < |s| && start <= end
    requires i < start / 8 || i >= (end + 7) / 8
    ensures ClearRange(s, start, end)[i] == s[i]
  {
  }

  /** 1 when the bits of `m` meet `x`, else 0. */
  function BitValue(x: bv8, m: bv8): (r: nat)
    ensures r <= 1
  {
    if x & m != 0 then 1 else 0
  }

  /** `__builtin_popcount` on a byte. */
  function Popcount(x: bv8): (r: nat)
    ensures r <= 8
  {
    BitValue(x, 0x01) + BitValue(x, 0x02) + BitValue(x, 0x04) + BitValue(x, 0x08)
      + BitValue(x, 0x10) + BitValue(x, 0x20) + BitValue(x, 0x40) + BitValue(x, 0x80)
  }

  /** The number of cleared bits of an image: `sum popcount(~byte & 0xFF)`. */
  function ZeroBits(s: seq<bv8>): (r: nat)
    ensures r <= 8 * |s|
  {
    if s == [] then 0 else ZeroBits(s[..|s| - 1]) + Popcount(!s[|s| - 1])
  }

  /** The scan adds one byte at a time. */
  lemma ZeroBitsSnoc(s: seq<bv8>, k: nat)
    requires k < |s|
    ensures ZeroBits(s[..k + 1]) == ZeroBits(s[..k]) + Popcount(!s[k])
  {
    assert s[..k + 1][..k] == s[..k];
  }

  /** Exactly the first `n` bits of `s` are cleared and all others are still erased. */
  ghost predicate PrefixCleared(s: seq<bv8>, n: nat)
  {
    n <= 8 * |s| && forall b :: 0 <= b < 8 * |s| ==> (BitSet(s, b) <==> n <= b)
  }

  /** An image in allocation order: its cleared bits are a prefix. */
  ghost predicate Tidy(s: seq<bv8>)
  {
    PrefixCleared(s, ZeroBits(s))
  }

  /** A freshly erased image of `n` bytes. */
  function Erased(n: nat): (r: seq<bv8>)
    ensures |r| == n && forall i :: 0 <= i < n ==> r[i] == ERASED
  {
    seq(n, _ => ERASED)
  }

  lemma ErasedIsPrefixCleared(n: nat)
    ensures PrefixCleared(Erased(n), 0)
  {
    var s := Erased(n);
    forall b | 0 <= b < 8 * n ensures BitSet(s, b) {
      assert s[b / 8] == ERASED;
    }
  }

  lemma {:induction false} ZeroBitsErased(n: nat)
    ensures ZeroBits(Erased(n)) == 0
  {
    if n > 0 {
      assert Erased(n)[..n - 1] == Erased(n - 1);
      ZeroBitsErased(n - 1);
    }
  }

  /** Two bytes with the same eight bits are equal. */
  lemma ByteExt(x: bv8, y: bv8)
    requires forall k :: 0 <= k < 8 ==> ((x & Mask(k) != 0) <==> (y & Mask(k) != 0))
    ensures x == y
  {
    assert (x & Mask(0) != 0) <==> (y & Mask(0) != 0);
    assert (x & Mask(1) != 0) <==> (y & Mask(1) != 0);
    assert (x & Mask(2) != 0) <==> (y & Mask(2) != 0);
    assert (x & Mask(3) != 0) <==> (y & Mask(3) != 0);
    assert (x & Mask(4) != 0) <==> (y & Mask(4) != 0);
    assert (x & Mask(5) != 0) <==> (y & Mask(5) != 0);
    assert (x & Mask(6) != 0) <==> (y & Mask(6) != 0);
    assert (x & Mask(7) != 0) <==> (y & Mask(7) != 0);
  }

  /** Bit `k` of `!x` counts 1 exactly when bit `k` of `x` is cleared. */
  lemma NotBitValue(x: bv8, k: nat)
    requires k < 8
    ensures BitValue(!x, Mask(k)) == if x & Mask(k) != 0 then 0 else 1
  {
  }

  /** A byte whose bits below `j` are cleared and the rest erased has `j` cleared bits. */
  lemma ShapedByteZeros(x: bv8, j: nat)
    requires j <= 8
    requires forall k :: 0 <= k < 8 ==> ((x & Mask(k) != 0) <==> j <= k)
    ensures Popcount(!x) == j
  {
    NotBitValue(x, 0);
    NotBitValue(x, 1);
    NotBitValue(x, 2);
    NotBitValue(x, 3);
    NotBitValue(x, 4);
    NotBitValue(x, 5);
    NotBitValue(x, 6);
    NotBitValue(x, 7);
    assert Mask(0) == 0x01 && Mask(1) == 0x02 && Mask(2) == 0x04 && Mask(3) == 0x08;
    assert Mask(4) == 0x10 && Mask(5) == 0x20 && Mask(6) == 0x40 && Mask(7) == 0x80;
  }

  /** The cleared bits of the last byte of an image with `n` cleared bits in allocation order. */
  function LastByteZeros(s: seq<bv8>, n: nat): nat
    requires s != []
  {
    if n <= 8 * (|s| - 1) then 0 else n - 8 * (|s| - 1)
  }

  /** The prefix of an image in allocation order keeps all the cleared bits that lie before its last byte. */
  lemma PrefixClearedDropLast(s: seq<bv8>, n: nat)
    requires PrefixCleared(s, n) && s != []
    ensures PrefixCleared(s[..|s| - 1], n - LastByteZeros(s, n))
  {
    var m := |s| - 1;
    forall b | 0 <= b < 8 * m ensures BitSet(s[..m], b) <==> BitSet(s, b) {
      assert s[..m][b / 8] == s[b / 8];
    }
  }

  /** The last byte of an image in allocation order is shaped: its low bits are cleared, the rest erased. */
  lemma PrefixClearedLastByte(s: seq<bv8>, n: nat)
    requires PrefixCleared(s, n) && s != []
    ensures LastByteZeros(s, n) <= 8
    ensures forall k :: 0 <= k < 8 ==> ((s[|s| - 1] & Mask(k) != 0) <==> LastByteZeros(s, n) <= k)
  {
    var m := |s| - 1;
    forall k | 0 <= k < 8 ensures (s[m] & Mask(k) != 0) <==> LastByteZeros(s, n) <= k {
      var b := 8 * m + k;
      assert b / 8 == m && b % 8 == k;
      assert BitSet(s, b) <==> n <= b;
    }
  }

  /** Recovery scan ground truth: a tidy image with `n` cleared bits scans back to `n`. */
  lemma {:induction false} ZeroBitsOfPrefixCleared(s: seq<bv8>, n: nat)
    requires PrefixCleared(s, n)
    ensures ZeroBits(s) == n
  {
    if s != [] {
      var j := LastByteZeros(s, n);
      PrefixClearedLastByte(s, n);
      ShapedByteZeros(s[|s| - 1], j);
      PrefixClearedDropLast(s, n);
      ZeroBitsOfPrefixCleared(s[..|s| - 1], n - j);
    }
  }

  /** Clearing the next `c` bits of a tidy image with `n` cleared bits gives one with `n + c`. */
  lemma PrefixClearedGrow(s: seq<bv8>, n: nat, c: nat)
    requires PrefixCleared(s, n) && n + c <= 8 * |s|
    ensures PrefixCleared(ClearRange(s, n, n + c), n + c)
  {
    var r := ClearRange(s, n, n + c);
    forall b | 0 <= b < 8 * |r| ensures BitSet(r, b) <==> n + c <= b {
      ClearRangeBit(s, n, n + c, b);
    }
  }
}
