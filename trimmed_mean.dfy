/**
 * `TrimmedMean<BufferSize, TrimCount>`: a noise filter over the last
 * `BufferSize` samples. The samples live in an array that is kept sorted by
 * value between two sentinels (0 at the front, UINT32_MAX at the back); each
 * entry carries the insertion-order tag that identifies the oldest sample.
 * `insert` overwrites the oldest sample and bubbles it into place;
 * `getValue` averages the samples that remain after dropping the
 * `TrimCount` smallest and the `TrimCount` largest.
 */
module TrimmedMeanFilter {
  import opened Common

  /** One slot of the buffer: its insertion-order tag and its sample. */
  datatype Entry = Entry(order: int, value: u32)

  const LOW_SENTINEL: Entry := Entry(-1, 0)
  const HIGH_SENTINEL: Entry := Entry(-1, UINT32_MAX as u32)

  /** The slots are in ascending order of value. */
  predicate Ordered(s: seq<Entry>)
  {
    forall i, j :: 0 <= i <= j < |s| ==> s[i].value <= s[j].value
  }

  /** The slots are in ascending order once slot `h` is left out. */
  predicate OrderedExcept(s: seq<Entry>, h: int)
  {
    forall i, j :: 0 <= i <= j < |s| && i != h && j != h ==> s[i].value <= s[j].value
  }

  /**
   * The interior slots `1 .. |pos|` carry the tags `0 .. |pos|-1`, one each,
   * and `pos` maps every tag to its slot.
   */
  predicate Tagging(s: seq<Entry>, pos: seq<int>)
  {
    |s| == |pos| + 2
    && (forall k :: 0 <= k < |pos| ==> 1 <= pos[k] <= |pos| && s[pos[k]].order == k)
    && (forall i :: 1 <= i <= |pos| ==> 0 <= s[i].order < |pos| && pos[s[i].order] == i)
  }

  /** The sample of every tag. */
  function ByTag(s: seq<Entry>, pos: seq<int>): (r: seq<u32>)
    requires Tagging(s, pos)
    ensures |r| == |pos|
  {
    seq(|pos|, k requires 0 <= k < |pos| => s[pos[k]].value)
  }

  /** The samples in insertion order, oldest first, when the oldest carries tag `c`. */
  function Window(s: seq<Entry>, pos: seq<int>, c: int): (r: seq<u32>)
    requires Tagging(s, pos) && 0 <= c < |pos|
    ensures |r| == |pos|
  {
    seq(|pos|, k requires 0 <= k < |pos| => ByTag(s, pos)[(c + k) % |pos|])
  }

  /** The interior samples in slot order (ascending when `Ordered`). */
  function Interior(s: seq<Entry>): (r: seq<u32>)
    requires |s| >= 2
    ensures |r| == |s| - 2
  {
    seq(|s| - 2, i requires 0 <= i < |s| - 2 => s[i + 1].value)
  }

  /** The sum of a sequence of samples. */
  function Sum(s: seq<u32>): int
  {
    if s == [] then 0 else Sum(s[..|s| - 1]) + s[|s| - 1] as int
  }

  /**
   * Overwriting the oldest sample and moving on to the next tag slides the
   * window by one: the oldest sample drops out and the new one comes last.
   */
  lemma WindowSlides(s0: seq<Entry>, pos0: seq<int>, s1: seq<Entry>, pos1: seq<int>, c: int, v: u32)
    requires Tagging(s0, pos0) && Tagging(s1, pos1) && |pos0| == |pos1| && 0 <= c < |pos0|
    requires ByTag(s1, pos1) == ByTag(s0, pos0)[c := v]
    ensures Window(s1, pos1, (c + 1) % |pos1|) == Window(s0, pos0, c)[1..] + [v]
  {
    var n := |pos0|;
    var t0, t1 := ByTag(s0, pos0), ByTag(s1, pos1);
    var w0, w1 := Window(s0, pos0, c), Window(s1, pos1, (c + 1) % n);
    forall k | 0 <= k < n ensures w1[k] == (w0[1..] + [v])[k] {
      NextTag(c, k, n);
      if k < n - 1 {
        assert w1[k] == t1[(c + k + 1) % n] == t0[(c + k + 1) % n] == w0[k + 1];
      } else {
        assert w1[k] == t1[c] == v;
      }
    }
  }

  /** Tag arithmetic: position `k` after the slide is position `k + 1` before it, and only the last position is tag `c`. */
  lemma NextTag(c: int, k: int, n: int)
    requires 0 <= c < n && 0 <= k < n
    ensures ((c + 1) % n + k) % n == (c + k + 1) % n
    ensures (c + k + 1) % n == c <==> k == n - 1
  {
    if c + 1 < n {
      ModSmall(c + 1, n);
    } else {
      ModWrap(c + 1, n);
    }
    var a := (c + 1) % n;
    if a + k < n {
      ModSmall(a + k, n);
    } else {
      ModWrap(a + k, n);
    }
    if c + k + 1 < n {
      ModSmall(c + k + 1, n);
    } else {
      ModWrap(c + k + 1, n);
    }
  }

  lemma ModSmall(x: int, n: int)
    requires 0 <= x < n
    ensures x % n == x
  {
  }

  lemma ModWrap(x: int, n: int)
    requires n <= x < 2 * n
    ensures x % n == x - n
  {
    assert x == n * 1 + (x - n);
  }

  /** `s` with slots `i` and `j` exchanged. */
  function Swapped(s: seq<Entry>, i: int, j: int): (r: seq<Entry>)
    requires 0 <= i < |s| && 0 <= j < |s|
    ensures |r| == |s| && r[i] == s[j] && r[j] == s[i]
  {
    s[i := s[j]][j := s[i]]
  }

  /** The tag map after exchanging slots `i` and `j` of `s`. */
  function SwappedTags(s: seq<Entry>, pos: seq<int>, i: int, j: int): (r: seq<int>)
    requires Tagging(s, pos) && 1 <= i <= |pos| && 1 <= j <= |pos|
    ensures |r| == |pos|
  {
    pos[s[i].order := j][s[j].order := i]
  }

  /** Exchanging two interior slots, tags and samples together, keeps the tagging and the sample of every tag. */
  lemma SwapKeepsTags(s: seq<Entry>, pos: seq<int>, i: int, j: int)
    requires Tagging(s, pos) && 1 <= i <= |pos| && 1 <= j <= |pos| && i != j
    ensures Tagging(Swapped(s, i, j), SwappedTags(s, pos, i, j))
    ensures ByTag(Swapped(s, i, j), SwappedTags(s, pos, i, j)) == ByTag(s, pos)
  {
  }

  /** Exchanging two interior slots leaves the multiset of interior samples as it was. */
  lemma SwapKeepsSamples(s: seq<Entry>, i: int, j: int)
    requires 1 <= i <= |s| - 2 && 1 <= j <= |s| - 2
    ensures multiset(Interior(Swapped(s, i, j))) == multiset(Interior(s))
  {
    var x := Interior(s);
    assert Interior(Swapped(s, i, j)) == x[i - 1 := x[j - 1]][j - 1 := x[i - 1]];
  }

  /**
   * The tagging is a bijection between tags and interior slots, so the
   * interior samples are a permutation of the samples by tag. By induction
   * on the number of tags: move the slot of the last tag to the last
   * interior position and drop it.
   */
  lemma {:induction false} TaggingPermutes(s: seq<Entry>, pos: seq<int>)
    requires Tagging(s, pos)
    ensures multiset(Interior(s)) == multiset(ByTag(s, pos))
    decreases |pos|
  {
    var n := |pos|;
    if n > 0 {
      var p := pos[n - 1];
      var s1, pos1 := s, pos;
      if p != n {
        SwapKeepsTags(s, pos, p, n);
        SwapKeepsSamples(s, p, n);
        s1, pos1 := Swapped(s, p, n), SwappedTags(s, pos, p, n);
      }
      var s2, pos2 := s1[..n] + [s1[n + 1]], pos1[..n - 1];
      DropLastTag(s1, pos1, s2, pos2);
      TaggingPermutes(s2, pos2);
    }
  }

  /** Dropping the last interior slot when it carries the last tag keeps a tagging of the rest. */
  lemma DropLastTag(s: seq<Entry>, pos: seq<int>, s2: seq<Entry>, pos2: seq<int>)
    requires Tagging(s, pos) && |pos| > 0 && pos[|pos| - 1] == |pos|
    requires s2 == s[..|pos|] + [s[|pos| + 1]] && pos2 == pos[..|pos| - 1]
    ensures Tagging(s2, pos2)
    ensures Interior(s) == Interior(s2) + [s[|pos|].value]
    ensures ByTag(s, pos) == ByTag(s2, pos2) + [s[|pos|].value]
  {
  }

  /** `x` is in ascending order. */
  predicate Ascending(x: seq<u32>)
  {
    forall i, j :: 0 <= i <= j < |x| ==> x[i] <= x[j]
  }

  /** `x` holds the samples of `w`, in ascending order. */
  predicate SortedPermutationOf(x: seq<u32>, w: seq<u32>)
  {
    Ascending(x) && multiset(x) == multiset(w)
  }

  /** The first of an ascending sequence is its least element. */
  lemma AscendingHeadLeast(x: seq<u32>, v: u32)
    requires Ascending(x) && v in multiset(x)
    ensures x[0] <= v
  {
    assert v in x;
    var j :| 0 <= j < |x| && x[j] == v;
  }

  /** Dropping the first element keeps a sequence ascending and removes one copy of it. */
  lemma AscendingTail(x: seq<u32>)
    requires Ascending(x) && x != []
    ensures Ascending(x[1..]) && multiset(x[1..]) == multiset(x) - multiset{x[0]}
  {
    assert x == [x[0]] + x[1..];
  }

  /** Two ascending sequences with the same elements are equal. */
  lemma {:induction false} AscendingUnique(x: seq<u32>, y: seq<u32>)
    requires Ascending(x) && Ascending(y) && multiset(x) == multiset(y)
    ensures x == y
    decreases |x|
  {
    assert |x| == |multiset(x)| == |multiset(y)| == |y|;
    if x != [] {
      assert x[0] in multiset(x) && y[0] in multiset(y);
      AscendingHeadLeast(y, x[0]);
      AscendingHeadLeast(x, y[0]);
      var v := x[0];
      assert multiset(x[1..]) == multiset(y[1..]) by {
        AscendingTail(x);
        AscendingTail(y);
        assert y[0] == v;
      }
      AscendingTail(x);
      AscendingTail(y);
      AscendingUnique(x[1..], y[1..]);
      assert x == [x[0]] + x[1..] && y == [y[0]] + y[1..];
    }
  }

  /** There is only one ascending arrangement of a multiset of samples. */
  lemma SortedPermutationUnique(x: seq<u32>, y: seq<u32>, w: seq<u32>)
    requires SortedPermutationOf(x, w) && SortedPermutationOf(y, w)
    ensures x == y
  {
    AscendingUnique(x, y);
  }

  /**
   * The state of the bubble loop of `insert`: the sentinels are in place,
   * the moving entry sits at `index`, every other slot is sorted, the tags
   * still give the samples `tags`, and once the entry has moved (`dir` is
   * -1 for left, 1 for right) it is strictly on the right side of the
   * neighbour it came from.
   */
  ghost predicate Bubbling(s: seq<Entry>, pos: seq<int>, tags: seq<u32>, n: int,
                           index0: int, index: int, moving: Entry, dir: int)
  {
    |s| == n + 2 && |pos| == n && 1 <= index0 <= n && 1 <= index <= n
    && s[0] == LOW_SENTINEL && s[n + 1] == HIGH_SENTINEL && s[index] == moving
    && OrderedExcept(s, index) && Tagging(s, pos) && ByTag(s, pos) == tags
    && -1 <= dir <= 1
    && (dir == 0 ==> index == index0)
    && (dir == -1 ==> index < index0 && moving.value < s[index + 1].value)
    && (dir == 1 ==> index0 < index && s[index - 1].value < moving.value)
  }

  /**
   * A step to the left: the moving sample is below its left neighbour, which
   * is therefore not the low sentinel, and it has not been moving right.
   */
  lemma StepLeft(s: seq<Entry>, pos: seq<int>, tags: seq<u32>, n: int,
                 index0: int, index: int, moving: Entry, dir: int)
    requires Bubbling(s, pos, tags, n, index0, index, moving, dir)
    requires s[index].value < s[index - 1].value
    ensures 1 < index && dir != 1
    ensures Bubbling(Swapped(s, index, index - 1), SwappedTags(s, pos, index, index - 1), tags, n,
                     index0, index - 1, moving, -1)
  {
    SwapKeepsTags(s, pos, index, index - 1);
  }

  /** A step to the right, the mirror image of `StepLeft`. */
  lemma StepRight(s: seq<Entry>, pos: seq<int>, tags: seq<u32>, n: int,
                  index0: int, index: int, moving: Entry, dir: int)
    requires Bubbling(s, pos, tags, n, index0, index, moving, dir)
    requires s[index].value > s[index + 1].value
    ensures index < n && dir != -1
    ensures Bubbling(Swapped(s, index, index + 1), SwappedTags(s, pos, index, index + 1), tags, n,
                     index0, index + 1, moving, 1)
  {
    SwapKeepsTags(s, pos, index, index + 1);
  }

  /** The bubble loop stops once the moving sample sits between its neighbours: then all is sorted. */
  lemma Settled(s: seq<Entry>, pos: seq<int>, tags: seq<u32>, n: int,
                index0: int, index: int, moving: Entry, dir: int)
    requires Bubbling(s, pos, tags, n, index0, index, moving, dir)
    requires s[index - 1].value <= s[index].value <= s[index + 1].value
    ensures Ordered(s)
  {
    forall i, j | 0 <= i <= j < |s| ensures s[i].value <= s[j].value {
      if i == index && j != index {
        assert s[index + 1].value <= s[j].value;
      } else if j == index && i != index {
        assert s[i].value <= s[index - 1].value;
      }
    }
  }

  /** Overwriting a sample in place keeps the tags and changes the sample of that tag only. */
  lemma OverwriteByTag(s: seq<Entry>, pos: seq<int>, i: int, v: u32)
    requires Tagging(s, pos) && 1 <= i <= |pos|
    ensures Tagging(s[i := s[i].(value := v)], pos)
    ensures ByTag(s[i := s[i].(value := v)], pos) == ByTag(s, pos)[s[i].order := v]
  {
  }

  /** The window is a rotation of the samples by tag, so the two hold the same samples. */
  lemma WindowIsRotation(s: seq<Entry>, pos: seq<int>, c: int)
    requires Tagging(s, pos) && 0 <= c < |pos|
    ensures Window(s, pos, c) == ByTag(s, pos)[c..] + ByTag(s, pos)[..c]
    ensures multiset(Window(s, pos, c)) == multiset(ByTag(s, pos))
  {
    var n, t := |pos|, ByTag(s, pos);
    forall k | 0 <= k < n ensures Window(s, pos, c)[k] == (t[c..] + t[..c])[k] {
      if c + k < n {
        ModSmall(c + k, n);
      } else {
        ModWrap(c + k, n);
      }
    }
    assert t == t[..c] + t[c..];
  }

  /** A sum of samples lies between `|s|` times the smallest and `|s|` times the largest. */
  lemma {:induction false} SumBounds(s: seq<u32>, lo: int, hi: int)
    requires forall i :: 0 <= i < |s| ==> lo <= s[i] as int <= hi
    ensures |s| * lo <= Sum(s) <= |s| * hi
  {
    if s != [] {
      var n := |s| - 1;
      SumBounds(s[..n], lo, hi);
      assert Sum(s) == Sum(s[..n]) + s[n] as int;
      assert lo <= s[n] as int <= hi;
      assert |s| * lo == n * lo + lo && |s| * hi == n * hi + hi;
    }
  }

  lemma DivBounds(x: int, n: int, lo: int, hi: int)
    requires n > 0 && n * lo <= x <= n * hi
    ensures lo <= x / n <= hi
  {
    var q, r := x / n, x % n;
    assert x == n * q + r && 0 <= r < n;
    assert n * lo < n * (q + 1);
    MulCancelLess(n, lo, q + 1);
    assert n * q <= n * hi;
    MulCancelLessEq(n, q, hi);
  }

  lemma MulCancelLess(n: int, a: int, b: int)
    requires n > 0 && n * a < n * b
    ensures a < b
  {
    if a >= b {
      MulMonotone(n, b, a);
    }
  }

  lemma MulCancelLessEq(n: int, a: int, b: int)
    requires n > 0 && n * a <= n * b
    ensures a <= b
  {
    if a > b {
      MulMonotone(n, b + 1, a);
    }
  }

  lemma MulMonotone(n: int, a: int, b: int)
    requires n > 0 && a <= b
    ensures n * a <= n * b
  {
    assert n * b == n * a + n * (b - a);
  }

  /**
   * The integer mean of a run of samples lies between its smallest and its
   * largest; for an ascending run, between its first and its last sample.
   */
  lemma MeanBounds(s: seq<u32>)
    requires s != [] && forall i :: 0 <= i < |s| ==> s[0] <= s[i] <= s[|s| - 1]
    ensures s[0] as int <= Sum(s) / |s| <= s[|s| - 1] as int
  {
    SumBounds(s, s[0] as int, s[|s| - 1] as int);
    DivBounds(Sum(s), |s|, s[0] as int, s[|s| - 1] as int);
  }

  /**
   * The bubble loop of `insert`: the entry at `index0` (the overwritten one)
   * is swapped with a neighbour until both neighbours are in order. It
   * never moves a sentinel, since no sample is below 0 or above UINT32_MAX.
   * `pos0` and `pos` are the tag maps before and after.
   */
  method Bubble(a: array<Entry>, n: int, index0: int, ghost pos0: seq<int>) returns (ghost pos: seq<int>)
    requires 1 <= index0 <= n && a.Length == n + 2 && |pos0| == n
    requires a[0] == LOW_SENTINEL && a[n + 1] == HIGH_SENTINEL
    requires OrderedExcept(a[..], index0) && Tagging(a[..], pos0)
    modifies a
    ensures a[0] == LOW_SENTINEL && a[n + 1] == HIGH_SENTINEL
    ensures Ordered(a[..]) && Tagging(a[..], pos) && |pos| == n
    ensures ByTag(a[..], pos) == ByTag(old(a[..]), pos0)
  {
    pos := pos0;
    ghost var tags := ByTag(a[..], pos);
    var index := index0;
    ghost var dir := 0;
    ghost var moving := a[index];
    while true
      invariant Bubbling(a[..], pos, tags, n, index0, index, moving, dir)
      decreases n + 2 - (if dir == -1 then index0 - index else if dir == 1 then index - index0 else 0),
        if dir == 0 then 1 else 0
    {
      if a[index].value < a[index - 1].value {
        pos := SwapLeft(a, n, index0, index, pos, tags, moving, dir);
        index := index - 1;
        dir := -1;
      } else if a[index].value > a[index + 1].value {
        pos := SwapRight(a, n, index0, index, pos, tags, moving, dir);
        index := index + 1;
        dir := 1;
      } else {
        Settled(a[..], pos, tags, n, index0, index, moving, dir);
        break;
      }
    }
  }

  /** The swap with the left neighbour in the bubble loop, exchanging `buffer[index]` and `buffer[index - 1]`. */
  method SwapLeft(a: array<Entry>, n: int, index0: int, index: int, ghost pos0: seq<int>,
                  ghost tags: seq<u32>, ghost moving: Entry, ghost dir: int) returns (ghost pos: seq<int>)
    requires Bubbling(a[..], pos0, tags, n, index0, index, moving, dir)
    requires a[index].value < a[index - 1].value
    modifies a
    ensures 1 < index && dir != 1
    ensures Bubbling(a[..], pos, tags, n, index0, index - 1, moving, -1)
  {
    StepLeft(a[..], pos0, tags, n, index0, index, moving, dir);
    pos := Swap(a, index, index - 1, pos0);
  }

  /** The swap with the right neighbour in the bubble loop, exchanging `buffer[index]` and `buffer[index + 1]`. */
  method SwapRight(a: array<Entry>, n: int, index0: int, index: int, ghost pos0: seq<int>,
                   ghost tags: seq<u32>, ghost moving: Entry, ghost dir: int) returns (ghost pos: seq<int>)
    requires Bubbling(a[..], pos0, tags, n, index0, index, moving, dir)
    requires a[index].value > a[index + 1].value
    modifies a
    ensures index < n && dir != -1
    ensures Bubbling(a[..], pos, tags, n, index0, index + 1, moving, 1)
  {
    StepRight(a[..], pos0, tags, n, index0, index, moving, dir);
    pos := Swap(a, index, index + 1, pos0);
  }

  /** Exchanges two interior slots, entries and tags together. */
  method Swap(a: array<Entry>, i: int, j: int, ghost pos0: seq<int>) returns (ghost pos: seq<int>)
    requires Tagging(a[..], pos0) && 1 <= i <= |pos0| && 1 <= j <= |pos0|
    modifies a
    ensures a[..] == Swapped(old(a[..]), i, j)
    ensures pos == SwappedTags(old(a[..]), pos0, i, j)
  {
    pos := SwappedTags(a[..], pos0, i, j);
    var temp := a[i];
    a[i] := a[j];
    a[j] := temp;
  }

  /** The summing loop of `getValue`: the samples of slots `1 + t .. n - t`, inclusive. */
  method SumSlots(a: array<Entry>, n: int, t: int) returns (sum: int)
    requires a.Length == n + 2 && 0 <= t <= n - t
    ensures sum == Sum(Interior(a[..])[t..n - t])
  {
    ghost var middle := Interior(a[..])[t..n - t];
    sum := 0;
    var i := 1 + t;
    while i <= n - t
      invariant 1 + t <= i <= n - t + 1
      invariant sum == Sum(middle[..i - 1 - t])
    {
      assert middle[..i - t] == middle[..i - 1 - t] + [middle[i - 1 - t]];
      sum := sum + a[i].value as int;
      i := i + 1;
    }
    assert middle[..i - 1 - t] == middle;
  }

  /**
   * In a sorted buffer, the mean of the samples left after trimming `t`
   * from each end lies between the smallest and the largest sample kept.
   */
  lemma TrimmedMeanBounds(s: seq<Entry>, n: int, t: int)
    requires |s| == n + 2 && 0 <= t < n / 2 && Ordered(s)
    ensures Interior(s)[t] as int <= Sum(Interior(s)[t..n - t]) / (n - 2 * t) <= Interior(s)[n - t - 1] as int
  {
    var middle := Interior(s)[t..n - t];
    forall m | 0 <= m < |middle| ensures middle[0] <= middle[m] <= middle[|middle| - 1] {
      assert s[1 + t].value <= s[1 + t + m].value <= s[n - t].value;
    }
    MeanBounds(middle);
  }

  class TrimmedMean {
    /** `BufferSize`. */
    const N: nat
    /** `TrimCount`. */
    const T: nat
    /** The slots: sentinel, `N` samples in ascending order, sentinel. */
    const buffer: array<Entry>
    /** The tag of the oldest sample, the next one to be overwritten. */
    var currentOrder: int
    /** Where each tag sits: the sample with tag `k` is `buffer[pos[k]]`. */
    ghost var pos: seq<int>

    /**
     * The class invariant: the sentinels are in place, the whole array is
     * sorted by value, and the interior tags are exactly `0 .. N-1`.
     */
    ghost predicate Valid()
      reads this, buffer
    {
      0 < N && T < N / 2 && buffer.Length == N + 2 && |pos| == N
      && buffer[0] == LOW_SENTINEL && buffer[N + 1] == HIGH_SENTINEL
      && 0 <= currentOrder < N
      && Ordered(buffer[..]) && Tagging(buffer[..], pos)
    }

    /** The interior of the buffer is the window of samples, sorted. */
    lemma BufferSortsSamples()
      requires Valid()
      ensures SortedPermutationOf(Interior(buffer[..]), Samples())
    {
      TaggingPermutes(buffer[..], pos);
      WindowIsRotation(buffer[..], pos, currentOrder);
    }

    /** The window of the last `N` samples, oldest first. */
    ghost function Samples(): (s: seq<u32>)
      reads this, buffer
      requires Valid()
      ensures |s| == N
    {
      Window(buffer[..], pos, currentOrder)
    }

    /**
     * The constructor: sentinels at both ends, `N` zero samples with tags
     * `0 .. N-1` in between, the oldest being tag 0.
     */
    constructor (bufferSize: nat, trimCount: nat)
      requires 0 < bufferSize && trimCount < bufferSize / 2
      ensures N == bufferSize && T == trimCount
      ensures Valid() && fresh(buffer)
      ensures currentOrder == 0
      ensures Samples() == seq(bufferSize, _ => 0 as u32)
    {
      N, T := bufferSize, trimCount;
      var a := new Entry[bufferSize + 2];
      var i := 0;
      while i < bufferSize + 2
        invariant i <= bufferSize + 2
        invariant forall j :: 0 <= j < i ==> a[j] == Entry(j - 1, 0)
      {
        a[i] := Entry(i - 1, 0);
        i := i + 1;
      }
      a[0] := LOW_SENTINEL;
      a[bufferSize + 1] := HIGH_SENTINEL;
      buffer := a;
      currentOrder := 0;
      pos := seq(bufferSize, k => k + 1);
      new;
      assert forall j :: 1 <= j <= N ==> buffer[..][j] == Entry(j - 1, 0);
      assert Tagging(buffer[..], pos);
      assert forall k :: 0 <= k < N ==> ByTag(buffer[..], pos)[k] == 0;
    }

    /** The search loop of `insert`: the slot holding the oldest sample. */
    method FindOldest() returns (index: int)
      requires Valid()
      ensures 1 <= index <= N && index == pos[currentOrder]
    {
      index := 0;
      var i := 1;
      while i < N + 1
        invariant 1 <= i <= N + 1
        invariant forall j :: 1 <= j < i ==> buffer[j].order != currentOrder
      {
        if currentOrder == buffer[i].order {
          index := i;
          break;
        }
        i := i + 1;
      }
      assert buffer[..][pos[currentOrder]].order == currentOrder;
    }

    /**
     * `insert(value)`: the oldest sample is replaced by `value`, the buffer
     * stays sorted, and the next oldest becomes the one to overwrite.
     */
    method Insert(value: u32)
      requires Valid()
      modifies this, buffer
      ensures Valid()
      ensures Samples() == old(Samples())[1..] + [value]
      ensures currentOrder == (old(currentOrder) + 1) % N
    {
      ghost var s0, pos0 := buffer[..], pos;
      var index := FindOldest();
      buffer[index] := buffer[index].(value := value);
      OverwriteByTag(s0, pos0, index, value);
      assert buffer[..] == s0[index := s0[index].(value := value)];
      pos := Bubble(buffer, N, index, pos);
      WindowSlides(s0, pos0, buffer[..], pos, currentOrder, value);
      currentOrder := (currentOrder + 1) % N;
    }

    /**
     * `getValue()`: the integer mean of the sorted samples left after
     * dropping the `T` smallest and the `T` largest; it lies between the
     * smallest and the largest of them.
     */
    method GetValue() returns (r: u32)
      requires Valid()
      ensures r as int == Sum(Interior(buffer[..])[T..N - T]) / (N - 2 * T)
      ensures Interior(buffer[..])[T] <= r <= Interior(buffer[..])[N - T - 1]
    {
      var sum := SumSlots(buffer, N, T);
      var mean := sum / (N - 2 * T);
      TrimmedMeanBounds(buffer[..], N, T);
      r := mean as u32;
    }

    /** `getBufferSize()`: the number of samples the window holds. */
    function GetBufferSize(): (n: nat)
      reads this, buffer
      requires Valid()
      ensures n == |Samples()|
    {
      N
    }
  }
}
