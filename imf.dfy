/**
 * The chunk table of imf/indexedmemoryfile.c.  The file is a set of
 * chunks, each a `(position, chunk_size)` record: the extent of the file
 * that holds the chunk's data followed by its 20-byte SHA-1 digest.  Slot
 * 0 describes the header (the first two records), slot 1 the extent that
 * holds the records of slots 2 and on; a slot of size 0 at INT64_MAX is
 * unused.  `chunk_order` lists the slots by position, `delete_mark` the
 * slots to be released at the next sync.
 *
 * The file's bytes are not modelled: the model keeps the table and proves
 * that the extents in use never overlap, that the order stays a sorted
 * permutation, and what each placement chooses.
 */
module IndexedMemoryFile {
  import opened Wrappers

  /** `struct Chunk`: where a chunk starts in the file and how many bytes it takes, digest included. */
  datatype Chunk = Chunk(position: int, size: int)

  const Int64Max: int := 0x7FFF_FFFF_FFFF_FFFF

  /** `SHA1_HASH_SIZE`: the digest stored after every chunk's data. */
  const HashSize: int := 20

  /** `sizeof (struct Chunk)` under `#pragma pack(4)`: an `int64_t` and an `int32_t`. */
  const ChunkBytes: int := 12

  /** The bound `imf_alloc_chunks` asserts on the new slot count. */
  const ChunkLimit: int := (0x7FFF_FFFF - HashSize) / ChunkBytes - 2

  /** An unused slot, as `imf_alloc_chunks` and `imf_sync` write it. */
  const Unused: Chunk := Chunk(Int64Max, 0)

  /** Slot 0: the two records at the start of the file and their digest. */
  const Header: Chunk := Chunk(0, 2 * ChunkBytes + HashSize)

  predicate Used(c: Chunk)
  {
    c.size != 0
  }

  function End(c: Chunk): int
  {
    c.position + c.size
  }

  /** An unused slot, or an extent inside the signed 64-bit file offsets holding at least a digest. */
  predicate WellFormed(c: Chunk)
  {
    c == Unused || (HashSize <= c.size && 0 <= c.position && End(c) <= Int64Max)
  }

  /** Slots a and b, when both in use, do not overlap. */
  predicate Apart(s: seq<Chunk>, a: int, b: int)
    requires 0 <= a < |s| && 0 <= b < |s|
  {
    Used(s[a]) && Used(s[b]) ==> End(s[a]) <= s[b].position || End(s[b]) <= s[a].position
  }

  /** No two extents in use overlap. */
  ghost predicate Disjoint(s: seq<Chunk>)
  {
    forall a, b :: 0 <= a < |s| && 0 <= b < |s| && a != b ==> Apart(s, a, b)
  }

  /** The position of slot x, INT64_MAX outside the table. */
  function Pos(s: seq<Chunk>, x: int): int
  {
    if 0 <= x < |s| then s[x].position else Int64Max
  }

  /** Where slot x ends, INT64_MAX outside the table. */
  function EndOf(s: seq<Chunk>, x: int): int
  {
    if 0 <= x < |s| then End(s[x]) else Int64Max
  }

  /** The size of slot x, 0 outside the table. */
  function SizeOf(s: seq<Chunk>, x: int): int
  {
    if 0 <= x < |s| then s[x].size else 0
  }

  /** Place a of o lies no further in the file than place b. */
  predicate InOrder(s: seq<Chunk>, o: seq<int>, a: int, b: int)
    requires 0 <= a < |o| && 0 <= b < |o|
  {
    Pos(s, o[a]) <= Pos(s, o[b])
  }

  /** Order o lists its slots by non-decreasing position. */
  ghost predicate Sorted(s: seq<Chunk>, o: seq<int>)
  {
    forall a, b :: 0 <= a < b < |o| ==> InOrder(s, o, a, b)
  }

  /** The first i entries of o are sorted by position. */
  ghost predicate SortedPrefix(s: seq<Chunk>, o: seq<int>, i: int)
  {
    forall a, b :: 0 <= a < b < i && b < |o| ==> InOrder(s, o, a, b)
  }

  /** Entry i of o taken out and put back at place h; the entries from h to i-1 move up one place. */
  function Rotated(o: seq<int>, h: int, i: int): (r: seq<int>)
    requires 0 <= h <= i < |o|
    ensures |r| == |o|
    ensures r[h] == o[i] && forall k :: h < k <= i ==> r[k] == o[k - 1]
    ensures forall k :: 0 <= k < |o| && (k < h || i < k) ==> r[k] == o[k]
  {
    seq(|o|, k requires 0 <= k < |o| => if k == h then o[i] else if h < k <= i then o[k - 1] else o[k])
  }

  /** The rotated order is the entries before h, entry i, the entries from h to i-1, then the rest. */
  lemma RotatedPieces(o: seq<int>, h: int, i: int)
    requires 0 <= h <= i < |o|
    ensures Rotated(o, h, i) == o[..h] + [o[i]] + o[h..i] + o[i + 1..]
  {
    var r, c := Rotated(o, h, i), o[..h] + [o[i]] + o[h..i] + o[i + 1..];
    assert |c| == |o|;
    forall k | 0 <= k < |o|
      ensures r[k] == c[k]
    {
      if k < h {
        assert c[k] == o[k];
      } else if k == h {
        assert c[k] == o[i];
      } else if k <= i {
        assert c[k] == o[h..i][k - h - 1] == o[k - 1];
      } else {
        assert c[k] == o[i + 1..][k - i - 1] == o[k];
      }
    }
  }

  /** Rotating keeps the entries, so a permutation stays one. */
  lemma RotatedEntries(o: seq<int>, h: int, i: int, n: int)
    requires 0 <= h <= i < |o| && InRange(o, n)
    ensures multiset(Rotated(o, h, i)) == multiset(o) && InRange(Rotated(o, h, i), n)
  {
    var r := Rotated(o, h, i);
    RotatedPieces(o, h, i);
    assert o == o[..h] + o[h..i] + [o[i]] + o[i + 1..];
    forall k | 0 <= k < |r|
      ensures 0 <= r[k] < n
    {
      if h < k <= i {
        assert r[k] == o[k - 1];
      }
    }
  }


  /**
   * The place-by-place outcome of one pass of insertion sort keeps the
   * entries and sorts one more of them.
   */
  lemma InsertionStep(s: seq<Chunk>, o: seq<int>, h: int, i: int, t: seq<int>)
    requires 0 <= h <= i < |o| && |t| == |o| && InRange(o, |s|) && SortedPrefix(s, o, i)
    requires t[h] == o[i] && forall k :: h < k <= i ==> t[k] == o[k - 1]
    requires forall k :: 0 <= k < |o| && (k < h || i < k) ==> t[k] == o[k]
    requires forall k :: h <= k < i ==> Pos(s, o[k]) > Pos(s, o[i])
    requires h > 0 ==> Pos(s, o[h - 1]) <= Pos(s, o[i])
    ensures multiset(t) == multiset(o) && InRange(t, |s|) && SortedPrefix(s, t, i + 1)
  {
    var r := Rotated(o, h, i);
    forall k | 0 <= k < |o|
      ensures t[k] == r[k]
    {
      if h < k <= i {
        assert t[k] == o[k - 1] == r[k];
      }
    }
    assert t == r;
    RotatedEntries(o, h, i, |s|);
    RotatedSorted(s, o, h, i);
  }

  /**
   * Insertion sort's step: when the first i entries are sorted, entry i
   * is put back below the entries that lie further than it and above
   * the one that does not, the first i + 1 entries are sorted.
   */
  lemma RotatedSorted(s: seq<Chunk>, o: seq<int>, h: int, i: int)
    requires 0 <= h <= i < |o| && SortedPrefix(s, o, i)
    requires forall k :: h <= k < i ==> Pos(s, o[k]) > Pos(s, o[i])
    requires h > 0 ==> Pos(s, o[h - 1]) <= Pos(s, o[i])
    ensures SortedPrefix(s, Rotated(o, h, i), i + 1)
  {
    var r := Rotated(o, h, i);
    assert forall k :: 0 <= k < h ==> r[k] == o[k];
    assert forall k :: h < k <= i ==> r[k] == o[k - 1];
    assert r[h] == o[i];
    forall a, b | 0 <= a < b < i + 1
      ensures InOrder(s, r, a, b)
    {
      if b == h {
        assert a < h - 1 ==> InOrder(s, o, a, h - 1);
      } else if a == h {
        assert Pos(s, o[i]) < Pos(s, o[b - 1]);
      } else if a < h && b < h {
        assert InOrder(s, o, a, b);
      } else if a < h {
        assert a < b - 1 ==> InOrder(s, o, a, b - 1);
      } else {
        assert InOrder(s, o, a - 1, b - 1);
      }
    }
  }

  predicate InRange(o: seq<int>, n: int)
  {
    forall k :: 0 <= k < |o| ==> 0 <= o[k] < n
  }

  /** The identity order 0, 1, ..., n-1. */
  function Iota(n: nat): (r: seq<int>)
    ensures |r| == n && forall k :: 0 <= k < n ==> r[k] == k
  {
    seq(n, k => k)
  }

  /** The slots lo, ..., hi-1 in order, as `imf_alloc_chunks` appends them. */
  function Span(lo: int, hi: int): (r: seq<int>)
    requires lo <= hi
    ensures |r| == hi - lo && forall k :: 0 <= k < hi - lo ==> r[k] == lo + k
  {
    seq(hi - lo, k => lo + k)
  }

  /** o lists every slot 0..n-1 exactly once. */
  ghost predicate IsPermutation(o: seq<int>, n: nat)
  {
    multiset(o) == multiset(Iota(n))
  }

  /** Every slot is well formed, the extents in use are disjoint, slot 0 is the header and the last slot is unused. */
  ghost predicate Layout(s: seq<Chunk>)
  {
    && 3 <= |s|
    && (forall x :: 0 <= x < |s| ==> WellFormed(s[x]))
    && Disjoint(s)
    && s[0] == Header
    && s[|s| - 1] == Unused
  }

  /** The table with its order: a layout listed by a sorted permutation. */
  ghost predicate Table(s: seq<Chunk>, o: seq<int>)
  {
    Layout(s) && |o| == |s| && IsPermutation(o, |s|) && Sorted(s, o)
  }

  /** Every slot queued for deletion is in use, and none is the header. */
  predicate Marked(s: seq<Chunk>, marks: seq<int>)
  {
    forall k :: 0 <= k < |marks| ==> 0 < marks[k] < |s| && Used(s[marks[k]])
  }

  // ----- permutations -----

  lemma {:induction false} IotaCount(n: nat, v: int)
    ensures multiset(Iota(n))[v] == if 0 <= v < n then 1 else 0
  {
    if n > 0 {
      assert Iota(n) == Iota(n - 1) + [n - 1];
      IotaCount(n - 1, v);
    }
  }

  /** A permutation of 0..n-1 has n entries, each a slot. */
  lemma PermInRange(o: seq<int>, n: nat)
    requires IsPermutation(o, n)
    ensures |o| == n && InRange(o, n)
  {
    assert |multiset(o)| == |multiset(Iota(n))|;
    forall k | 0 <= k < |o|
      ensures 0 <= o[k] < n
    {
      assert o[k] in multiset(o);
      IotaCount(n, o[k]);
    }
  }

  /** A permutation lists no slot twice. */
  lemma PermDistinct(o: seq<int>, n: nat, a: int, b: int)
    requires IsPermutation(o, n) && 0 <= a < b < |o|
    ensures o[a] != o[b]
  {
    if o[a] == o[b] {
      var v := o[a];
      assert o == o[..a] + o[a..b] + o[b..];
      assert o[a..b] == [o[a]] + o[a + 1..b];
      assert o[b..] == [o[b]] + o[b + 1..];
      assert multiset(o)[v] >= 2;
      IotaCount(n, v);
    }
  }

  /** A permutation lists every slot. */
  lemma PermCovers(o: seq<int>, n: nat, x: int) returns (k: int)
    requires IsPermutation(o, n) && 0 <= x < n
    ensures 0 <= k < |o| && o[k] == x
  {
    IotaCount(n, x);
    assert x in multiset(o);
    k :| 0 <= k < |o| && o[k] == x;
  }

  // ----- the layout in position order -----

  /** In a table, a slot listed before another ends no later than the other starts. */
  lemma EndBeforePos(s: seq<Chunk>, o: seq<int>, a: int, b: int)
    requires Table(s, o) && 0 <= a < b < |o|
    ensures EndOf(s, o[a]) <= Pos(s, o[b])
  {
    PermInRange(o, |s|);
    PermDistinct(o, |s|, a, b);
    var x, y := o[a], o[b];
    assert InOrder(s, o, a, b) && Apart(s, x, y);
    assert WellFormed(s[x]) && WellFormed(s[y]);
    assert Used(s[x]) && Used(s[y]) ==> End(s[x]) <= s[y].position;
  }

  /** Where the k-th gap of the scan starts: 0, or the end of the slot listed before. */
  function GapStart(s: seq<Chunk>, o: seq<int>, k: int): int
  {
    if 0 < k <= |o| then EndOf(s, o[k - 1]) else 0
  }

  /** The k-th gap: the free bytes between the slot listed before and slot o[k]. */
  function Gap(s: seq<Chunk>, o: seq<int>, k: int): int
  {
    if 0 <= k < |o| then Pos(s, o[k]) - GapStart(s, o, k) else 0
  }

  /** Gaps never have negative length, which `imf_find_space` asserts as `space >= 0`. */
  lemma GapNonNegative(s: seq<Chunk>, o: seq<int>, k: int)
    requires Table(s, o) && 0 <= k < |o|
    ensures 0 <= GapStart(s, o, k) <= Pos(s, o[k]) <= Int64Max
  {
    PermInRange(o, |s|);
    assert WellFormed(s[o[k]]);
    if k > 0 {
      EndBeforePos(s, o, k - 1, k);
      assert WellFormed(s[o[k - 1]]);
    }
  }

  /** Every extent in use lies wholly before or wholly after the k-th gap. */
  lemma GapClear(s: seq<Chunk>, o: seq<int>, k: int, x: int)
    requires Table(s, o) && 0 <= k < |o| && 0 <= x < |s| && Used(s[x])
    ensures End(s[x]) <= GapStart(s, o, k) || Pos(s, o[k]) <= s[x].position
  {
    var m := PermCovers(o, |s|, x);
    if m < k - 1 {
      EndBeforePos(s, o, m, k - 1);
      PermInRange(o, |s|);
      assert WellFormed(s[o[k - 1]]);
    } else if m > k {
      assert InOrder(s, o, k, m);
    }
  }

  /** What a scan of the gaps relies on: the order lists slots and no gap is negative. */
  predicate ScanReady(s: seq<Chunk>, o: seq<int>)
  {
    && |o| == |s| && InRange(o, |s|)
    && forall k :: 0 <= k < |o| ==> 0 <= GapStart(s, o, k) <= Pos(s, o[k])
  }

  lemma TableScanReady(s: seq<Chunk>, o: seq<int>)
    requires Table(s, o)
    ensures ScanReady(s, o)
  {
    PermInRange(o, |s|);
    forall k | 0 <= k < |o|
      ensures 0 <= GapStart(s, o, k) <= Pos(s, o[k])
    {
      GapNonNegative(s, o, k);
    }
  }

  // ----- imf_find_space -----

  /** Gap k is the first gap exactly size long. */
  predicate ExactAt(s: seq<Chunk>, o: seq<int>, size: int, k: int)
  {
    0 <= k < |o| && Gap(s, o, k) == size && forall j :: 0 <= j < k ==> Gap(s, o, j) != size
  }

  /** No gap is exactly size long. */
  predicate NoExact(s: seq<Chunk>, o: seq<int>, size: int)
  {
    forall j :: 0 <= j < |o| ==> Gap(s, o, j) != size
  }

  /** Gap k is the first of the smallest gaps longer than twice size. */
  predicate SmallestLargeAt(s: seq<Chunk>, o: seq<int>, size: int, k: int)
  {
    && 0 <= k < |o| && Gap(s, o, k) > 2 * size
    && forall j :: 0 <= j < |o| && Gap(s, o, j) > 2 * size ==>
         Gap(s, o, k) <= Gap(s, o, j) && (j < k ==> Gap(s, o, k) < Gap(s, o, j))
  }

  /** The first of the smallest gaps longer than twice size among the first i, -1 when there is none: the running choice of `imf_find_space`. */
  function LargeUpTo(s: seq<Chunk>, o: seq<int>, size: int, i: nat): (b: int)
    ensures -1 <= b < i
    ensures b == -1 ==> forall j :: 0 <= j < i ==> Gap(s, o, j) <= 2 * size
    ensures b != -1 ==> Gap(s, o, b) > 2 * size
    ensures b != -1 ==> forall j :: 0 <= j < i && Gap(s, o, j) > 2 * size ==>
      Gap(s, o, b) <= Gap(s, o, j) && (j < b ==> Gap(s, o, b) < Gap(s, o, j))
  {
    if i == 0 then -1
    else
      var b := LargeUpTo(s, o, size, i - 1);
      if Gap(s, o, i - 1) > 2 * size && (b == -1 || Gap(s, o, b) > Gap(s, o, i - 1)) then i - 1 else b
  }

  /** The gap `imf_find_space` picks: the first exact fit, or failing that the first smallest large gap. */
  predicate ChosenAt(s: seq<Chunk>, o: seq<int>, size: int, k: int)
  {
    ExactAt(s, o, size, k) || (NoExact(s, o, size) && SmallestLargeAt(s, o, size, k))
  }

  /** p is where `imf_find_space` places a chunk of the given size. */
  ghost predicate Chosen(s: seq<Chunk>, o: seq<int>, size: int, p: int)
  {
    exists k :: ChosenAt(s, o, size, k) && p == GapStart(s, o, k)
  }

  /** No gap fits exactly and none is more than twice the size: `imf_find_space` fails. */
  predicate NoSpace(s: seq<Chunk>, o: seq<int>, size: int)
  {
    forall j :: 0 <= j < |o| ==> Gap(s, o, j) != size && Gap(s, o, j) <= 2 * size
  }

  /** Chunk c takes no byte of any extent in use and stays within the signed 64-bit offsets. */
  ghost predicate FreeFor(s: seq<Chunk>, c: Chunk)
  {
    && 0 <= c.position && End(c) <= Int64Max
    && forall x :: 0 <= x < |s| && Used(s[x]) ==> End(s[x]) <= c.position || End(c) <= s[x].position
  }

  /** The placement is a function of the table: at most one gap is chosen. */
  lemma {:induction false} ChosenUnique(s: seq<Chunk>, o: seq<int>, size: int, k1: int, k2: int)
    requires ChosenAt(s, o, size, k1) && ChosenAt(s, o, size, k2)
    ensures k1 == k2
  {
    assert ExactAt(s, o, size, k1) && k2 < k1 ==> Gap(s, o, k2) != size;
    assert ExactAt(s, o, size, k2) && k1 < k2 ==> Gap(s, o, k1) != size;
  }

  /** In a table, the chosen place of a chunk of positive size lies inside a gap: the chunk overlaps nothing in use. */
  lemma ChosenFree(s: seq<Chunk>, o: seq<int>, size: int, p: int)
    requires Table(s, o) && 0 < size && Chosen(s, o, size, p)
    ensures FreeFor(s, Chunk(p, size))
  {
    var k :| ChosenAt(s, o, size, k) && p == GapStart(s, o, k);
    GapNonNegative(s, o, k);
    assert Gap(s, o, k) >= size;
    forall x | 0 <= x < |s| && Used(s[x])
      ensures End(s[x]) <= p || p + size <= s[x].position
    {
      GapClear(s, o, k, x);
    }
  }

  // ----- imf_seek_unused and imf_alloc_chunks -----

  /** The lowest unused slot from k on, |s| when there is none. */
  function FirstUnused(s: seq<Chunk>, k: nat): (r: int)
    requires k <= |s|
    ensures k <= r <= |s| && (r < |s| ==> !Used(s[r]))
    ensures forall x :: k <= x < r ==> Used(s[x])
    decreases |s| - k
  {
    if k == |s| then |s| else if !Used(s[k]) then k else FirstUnused(s, k + 1)
  }

  /** How many slots `imf_alloc_chunks` adds: as many as there are, at most 128. */
  function Increase(n: int): int
  {
    if n > 128 then 128 else n
  }

  /** The table after `imf_alloc_chunks`: the old slots, then unused ones. */
  function Grown(s: seq<Chunk>): (r: seq<Chunk>)
    ensures |r| == |s| + Increase(|s|) && r[..|s|] == s
    ensures forall x :: |s| <= x < |r| ==> r[x] == Unused
  {
    s + seq(Increase(|s|), _ => Unused)
  }

  /** Growing keeps the table: the new unused slots come last in the order, in slot order. */
  lemma GrowTable(s: seq<Chunk>, o: seq<int>)
    requires Table(s, o)
    ensures Table(Grown(s), o + Span(|s|, |Grown(s)|))
  {
    var g, n := Grown(s), |s|;
    var o' := o + Span(n, |g|);
    PermInRange(o, n);
    assert forall x :: 0 <= x < n ==> g[x] == s[x];
    assert Iota(|g|) == Iota(n) + Span(n, |g|);
    forall a, b | 0 <= a < b < |o'|
      ensures InOrder(g, o', a, b)
    {
      assert WellFormed(g[o'[a]]);
      assert b < n ==> InOrder(s, o, a, b);
    }
    forall a, b | 0 <= a < |g| && 0 <= b < |g| && a != b
      ensures Apart(g, a, b)
    {
      assert a < n && b < n ==> Apart(s, a, b);
    }
  }

  // ----- imf_put and imf_sync -----

  /** Chunk c overlaps no extent in use other than that of slot x. */
  ghost predicate ClearOf(s: seq<Chunk>, x: int, c: Chunk)
  {
    forall y :: 0 <= y < |s| && y != x && Used(s[y]) ==> End(s[y]) <= c.position || End(c) <= s[y].position
  }

  /** Writing into a slot other than the header and the last a chunk that overlaps nothing else keeps the layout. */
  lemma Replace(s: seq<Chunk>, x: int, c: Chunk)
    requires Layout(s) && 0 < x < |s| - 1 && WellFormed(c) && ClearOf(s, x, c)
    ensures Layout(s[x := c])
  {
    var t := s[x := c];
    forall a, b | 0 <= a < |t| && 0 <= b < |t| && a != b
      ensures Apart(t, a, b)
    {
      assert a != x && b != x ==> Apart(s, a, b);
    }
  }

  /**
   * The slots after `imf_put` writes chunk c to slot index: when the slot
   * was in use, its old extent first moves to the lowest unused slot (the
   * table growing when that is the last one), to be released at the next
   * sync.
   */
  function Relocated(s: seq<Chunk>, index: int, c: Chunk): (r: seq<Chunk>)
    requires 0 <= index < |s| && !Used(s[|s| - 1])
    ensures |r| >= |s| && r[index] == c
  {
    if Used(s[index]) then
      var f := FirstUnused(s, 0);
      var g := if f == |s| - 1 then Grown(s) else s;
      g[f := s[index]][index := c]
    else
      s[index := c]
  }

  /** The deletion queue after `imf_put`: the slot holding the old extent, when there was one, is appended. */
  function MarksAfterPut(s: seq<Chunk>, marks: seq<int>, index: int): seq<int>
    requires 0 <= index < |s|
  {
    if Used(s[index]) then marks + [FirstUnused(s, 0)] else marks
  }

  /** Growing keeps the layout: the new slots are unused. */
  lemma GrowLayout(s: seq<Chunk>)
    requires Layout(s)
    ensures Layout(Grown(s))
  {
    var g := Grown(s);
    forall a, b | 0 <= a < |g| && 0 <= b < |g| && a != b
      ensures Apart(g, a, b)
    {
      assert a < |s| && b < |s| ==> Apart(s, a, b);
    }
  }

  /** Writing a chunk placed in a gap keeps the layout. */
  lemma RelocateLayout(s: seq<Chunk>, index: int, c: Chunk)
    requires Layout(s) && 1 < index < |s| - 1 && FreeFor(s, c) && HashSize <= c.size
    ensures Layout(Relocated(s, index, c))
  {
    if Used(s[index]) {
      var f := FirstUnused(s, 0);
      var g := if f == |s| - 1 then Grown(s) else s;
      if f == |s| - 1 {
        GrowLayout(s);
      }
      MoveLayout(s, g, index, f, c);
    } else {
      Replace(s, index, c);
    }
  }

  /** With g the slots before the move, writing c to slot index and the old extent to unused slot f keeps the layout. */
  lemma MoveLayout(s: seq<Chunk>, g: seq<Chunk>, index: int, f: int, c: Chunk)
    requires Layout(s) && Layout(g) && |g| >= |s| && g[..|s|] == s && forall y :: |s| <= y < |g| ==> !Used(g[y])
    requires 1 < index < |s| - 1 && Used(s[index]) && FreeFor(s, c) && HashSize <= c.size
    requires 0 < f < |g| - 1 && f != index && !Used(g[f])
    ensures Layout(g[f := s[index]][index := c])
  {
    var t1 := g[index := c];
    assert forall y :: 0 <= y < |g| && Used(g[y]) ==> y < |s| && g[y] == s[y];
    Replace(g, index, c);
    forall y | 0 <= y < |t1| && y != f && Used(t1[y])
      ensures End(t1[y]) <= s[index].position || End(s[index]) <= t1[y].position
    {
      if y != index {
        assert t1[y] == s[y] && Apart(s, y, index);
      }
    }
    Replace(t1, f, s[index]);
    assert t1[f := s[index]] == g[f := s[index]][index := c];
  }


  /** After `imf_put`, every queued slot is still in use: the old queue, and the slot now holding the old extent. */
  lemma RelocateMarked(s: seq<Chunk>, marks: seq<int>, index: int, c: Chunk)
    requires Layout(s) && Marked(s, marks) && 1 < index < |s| - 1 && Used(c)
    ensures Marked(Relocated(s, index, c), MarksAfterPut(s, marks, index))
  {
    var f := FirstUnused(s, 0);
    assert f != 0 && (Used(s[index]) ==> f != index);
  }

  /** How many bytes `imf_sync` needs for slot 1: the records of slots 2 and on, and their digest. */
  function IndexSize(n: int): int
  {
    ChunkBytes * (n - 2) + HashSize
  }

  /** The slots after the queued ones are released. */
  function Freed(s: seq<Chunk>, marks: seq<int>): (r: seq<Chunk>)
    ensures |r| == |s|
    ensures forall x :: 0 <= x < |s| ==> r[x] == if x in marks then Unused else s[x]
  {
    seq(|s|, x requires 0 <= x < |s| => if x in marks then Unused else s[x])
  }

  /** Releasing one more queued slot. */
  lemma FreedStep(s: seq<Chunk>, marks: seq<int>, i: int)
    requires 0 <= i < |marks| && 0 <= marks[i] < |s|
    ensures Freed(s, marks[..i + 1]) == Freed(s, marks[..i])[marks[i] := Unused]
  {
    assert marks[..i + 1] == marks[..i] + [marks[i]];
  }

  /** `imf_sync` writing slot 1 into a gap and releasing the queued slots keeps the layout. */
  lemma SyncLayout(s: seq<Chunk>, marks: seq<int>, c: Chunk)
    requires Layout(s) && Marked(s, marks) && FreeFor(s, c) && HashSize <= c.size
    ensures Layout(Freed(s[1 := c], marks))
  {
    Replace(s, 1, c);
    var s1 := s[1 := c];
    var t := Freed(s1, marks);
    assert 0 !in marks;
    forall a, b | 0 <= a < |t| && 0 <= b < |t| && a != b
      ensures Apart(t, a, b)
    {
      assert Apart(s1, a, b);
    }
  }

  // ----- imf_get_length -----

  /** The furthest end of an extent in use among slots 0..n-1, 0 when none is in use. */
  function MaxEnd(s: seq<Chunk>, n: int): (r: int)
    requires 0 <= n <= |s|
    ensures 0 <= r
    ensures forall x :: 0 <= x < n && Used(s[x]) ==> End(s[x]) <= r
    ensures r == 0 || exists x :: 0 <= x < n && Used(s[x]) && End(s[x]) == r
  {
    if n == 0 then 0
    else
      var m := MaxEnd(s, n - 1);
      if Used(s[n - 1]) && End(s[n - 1]) > m then End(s[n - 1]) else m
  }

  /** The file length: where the last extent in use ends. */
  function FileLength(s: seq<Chunk>): int
  {
    MaxEnd(s, |s|)
  }

  /** In a table, the last entry in use in position order ends where the file does. */
  lemma LastUsedEnd(s: seq<Chunk>, o: seq<int>, i: int)
    requires Table(s, o) && InRange(o, |s|) && 0 <= i < |o|
    requires Used(s[o[i]]) && forall k :: i < k < |o| ==> !Used(s[o[k]])
    ensures End(s[o[i]]) == FileLength(s)
  {
    PermInRange(o, |s|);
    var x := o[i];
    assert WellFormed(s[x]);
    var r := FileLength(s);
    if r != End(s[x]) {
      var y :| 0 <= y < |s| && Used(s[y]) && End(s[y]) == r;
      var m := PermCovers(o, |s|, y);
      if m < i {
        EndBeforePos(s, o, m, i);
      }
    }
  }

  // ----- imf_info_swaps -----

  function Abs(x: int): int
  {
    if x < 0 then -x else x
  }

  /** The sum of the distances |k - o[k]| between each place and the slot listed there. */
  function Displacement(o: seq<int>): (r: int)
    ensures 0 <= r
  {
    if |o| == 0 then 0
    else Displacement(o[..|o| - 1]) + Abs(|o| - 1 - o[|o| - 1])
  }

  function Sum(a: seq<int>): int
  {
    if |a| == 0 then 0 else Sum(a[..|a| - 1]) + a[|a| - 1]
  }

  /** The sum of max(k, o[k]) over the places k of o. */
  function Reach(o: seq<int>): int
  {
    if |o| == 0 then 0
    else
      var k := |o| - 1;
      Reach(o[..k]) + (if o[k] < k then k else o[k])
  }

  lemma {:induction false} SumConcat(a: seq<int>, b: seq<int>)
    ensures Sum(a + b) == Sum(a) + Sum(b)
  {
    if |b| > 0 {
      var b' := b[..|b| - 1];
      assert (a + b)[..|a + b| - 1] == a + b';
      SumConcat(a, b');
    } else {
      assert a + b == a;
    }
  }

  /** Sequences holding the same entries have the same sum. */
  lemma {:induction false} SumMultiset(a: seq<int>, b: seq<int>)
    requires multiset(a) == multiset(b)
    ensures Sum(a) == Sum(b)
    decreases |a|
  {
    assert |a| == |multiset(a)| == |multiset(b)| == |b|;
    if |a| > 0 {
      var v := a[|a| - 1];
      var a' := a[..|a| - 1];
      assert a == a' + [v];
      assert v in multiset(b);
      var k :| 0 <= k < |b| && b[k] == v;
      var b' := b[..k] + b[k + 1..];
      assert b == b[..k] + [v] + b[k + 1..];
      assert multiset(b') == multiset(b) - multiset{v};
      SumMultiset(a', b');
      SumConcat(b[..k] + [v], b[k + 1..]);
      SumConcat(b[..k], [v]);
      SumConcat(b[..k], b[k + 1..]);
      assert [v][..0] == [];
    }
  }

  /** |k - o[k]| + k + o[k] is twice max(k, o[k]), place by place. */
  lemma {:induction false} DisplacementReach(o: seq<int>)
    ensures Displacement(o) + Sum(Iota(|o|)) + Sum(o) == 2 * Reach(o)
  {
    if |o| > 0 {
      var k := |o| - 1;
      assert Iota(|o|)[..k] == Iota(k);
      DisplacementReach(o[..k]);
    }
  }

  /** The total displacement of a permutation is even: `imf_info_swaps` asserts it. */
  lemma DisplacementEven(o: seq<int>, n: nat)
    requires IsPermutation(o, n)
    ensures Displacement(o) % 2 == 0
  {
    PermInRange(o, n);
    SumMultiset(o, Iota(n));
    DisplacementReach(o);
  }

  /** The identity order has no displacement. */
  lemma {:induction false} IotaDisplacement(n: nat)
    ensures Displacement(Iota(n)) == 0
  {
    if n > 0 {
      assert Iota(n)[..n - 1] == Iota(n - 1);
      IotaDisplacement(n - 1);
    }
  }

  // ----- imf_info_gaps -----

  /** The first place at or after k whose slot lies at INT64_MAX, |o| when there is none. */
  function FirstAtEnd(s: seq<Chunk>, o: seq<int>, k: nat): (r: int)
    decreases |o| - k
    ensures k <= r <= |o| || (|o| < k && r == k)
    ensures forall j :: k <= j < r && j < |o| ==> Pos(s, o[j]) != Int64Max
    ensures r < |o| ==> Pos(s, o[r]) == Int64Max
  {
    if k >= |o| || Pos(s, o[k]) == Int64Max then k else FirstAtEnd(s, o, k + 1)
  }

  /** How many of the gaps before place k are not empty. */
  function GapCount(s: seq<Chunk>, o: seq<int>, k: int): int
  {
    if k <= 0 then 0 else GapCount(s, o, k - 1) + (if Gap(s, o, k - 1) > 0 then 1 else 0)
  }

  /** The bytes in the gaps before place k. */
  function GapSpace(s: seq<Chunk>, o: seq<int>, k: int): int
  {
    if k <= 0 then 0 else GapSpace(s, o, k - 1) + Gap(s, o, k - 1)
  }

  /** The bytes taken by the slots listed before place k. */
  function ListedSize(s: seq<Chunk>, o: seq<int>, k: int): int
    requires k <= |o|
  {
    if k <= 0 then 0 else ListedSize(s, o, k - 1) + SizeOf(s, o[k - 1])
  }

  /** Gaps and listed extents tile the file up to where place k's gap starts. */
  lemma {:induction false} GapTiling(s: seq<Chunk>, o: seq<int>, k: int)
    requires 0 <= k <= |o|
    ensures GapSpace(s, o, k) + ListedSize(s, o, k) == GapStart(s, o, k)
  {
    if k > 0 {
      GapTiling(s, o, k - 1);
      assert EndOf(s, o[k - 1]) == Pos(s, o[k - 1]) + SizeOf(s, o[k - 1]);
    }
  }

  /** In a table, each counted gap holds at least a byte, so there are no more gaps than free bytes. */
  lemma {:induction false} GapCountSpace(s: seq<Chunk>, o: seq<int>, k: int)
    requires Table(s, o) && 0 <= k <= |o|
    ensures 0 <= GapCount(s, o, k) <= GapSpace(s, o, k)
    ensures GapCount(s, o, k) == 0 <==> GapSpace(s, o, k) == 0
  {
    if k > 0 {
      GapCountSpace(s, o, k - 1);
      GapNonNegative(s, o, k - 1);
    }
  }

  /**
   * In a table, the scan of `imf_info_gaps` stops after every extent in
   * use: the free bytes it counts and the bytes in use add up to the file
   * length `imf_get_length` reports.
   */
  lemma GapsFillFile(s: seq<Chunk>, o: seq<int>)
    requires Table(s, o)
    ensures 0 < FirstAtEnd(s, o, 0) < |o|
    ensures GapSpace(s, o, FirstAtEnd(s, o, 0)) + ListedSize(s, o, FirstAtEnd(s, o, 0)) == FileLength(s)
  {
    PermInRange(o, |s|);
    var K := ScanStops(s, o);
    GapTiling(s, o, K);
    LastUsedEnd(s, o, K - 1);
  }

  /** In a table the scan stops inside the order, after the header, and every slot from there on is unused. */
  lemma ScanStops(s: seq<Chunk>, o: seq<int>) returns (K: int)
    requires Table(s, o) && InRange(o, |s|)
    ensures K == FirstAtEnd(s, o, 0) && 0 < K < |o| && Used(s[o[K - 1]])
    ensures forall k :: K - 1 < k < |o| ==> !Used(s[o[k]])
  {
    var z := PermCovers(o, |s|, 0);
    var u := PermCovers(o, |s|, |s| - 1);
    assert z > 0 ==> InOrder(s, o, 0, z);
    assert u < |o| - 1 ==> InOrder(s, o, u, |o| - 1);
    K := FirstAtEnd(s, o, 0);
    assert WellFormed(s[o[K - 1]]);
    forall k | K - 1 < k < |o|
      ensures !Used(s[o[k]])
    {
      assert k > K ==> InOrder(s, o, K, k);
      assert WellFormed(s[o[k]]);
    }
  }

  /**
   * `struct IndexedMemoryFile` without the file: the slots (`chunks`,
   * `chunk_count` being their number), `chunk_order`, and the deletion
   * queue (`delete_mark` up to `delete_end`).
   */
  class ChunkTable {
    var chunks: seq<Chunk>
    var order: array<int>
    var deleteMark: seq<int>
    var statSwap: int
    var statsGaps: int
    var statsGapsSpace: int

    ghost predicate Valid()
      reads this, order
    {
      Table(chunks, order[..]) && Marked(chunks, deleteMark)
    }

    /** The table part of `imf_open`: the slots read from the file, listed in slot order, then sorted by position. */
    constructor Open(loaded: seq<Chunk>)
      requires Layout(loaded)
      ensures Valid() && chunks == loaded && deleteMark == []
    {
      chunks := loaded;
      deleteMark := [];
      statSwap, statsGaps, statsGapsSpace := -1, -1, -1;
      var o := new int[|loaded|];
      var i := 0;
      while i < |loaded|
        invariant 0 <= i <= |loaded|
        invariant forall k :: 0 <= k < i ==> o[k] == k
      {
        o[i] := i;
        i := i + 1;
      }
      order := o;
      new;
      assert order[..] == Iota(|chunks|);
      SortOrder();
    }

    /**
     * `imf_sort_order`: insertion sort of the order by position.  The
     * order stays a permutation of its entries and ends sorted.
     */
    method SortOrder()
      requires InRange(order[..], |chunks|)
      modifies order
      ensures InRange(order[..], |chunks|)
      ensures multiset(order[..]) == multiset(old(order[..]))
      ensures Sorted(chunks, order[..])
    {
      var n := order.Length;
      if n > 1 {
        var i := 1;
        while i < n
          invariant 1 <= i <= n
          invariant InRange(order[..], |chunks|) && SortedPrefix(chunks, order[..], i)
          invariant multiset(order[..]) == multiset(old(order[..]))
        {
          InsertEntry(i);
          i := i + 1;
        }
      }
    }

    /**
     * One pass of `imf_sort_order`: entry i moves down past the entries
     * before it that lie further in the file, which move up one place.
     */
    method InsertEntry(i: int)
      requires 0 < i < order.Length && InRange(order[..], |chunks|) && SortedPrefix(chunks, order[..], i)
      modifies order
      ensures InRange(order[..], |chunks|) && SortedPrefix(chunks, order[..], i + 1)
      ensures multiset(order[..]) == multiset(old(order[..]))
    {
      ghost var o, s := order[..], chunks;
      var tmp := order[i];
      var iPos := chunks[tmp].position;
      var j := i - 1;
      while j >= 0 && chunks[order[j]].position > iPos
        invariant -1 <= j < i
        invariant forall k :: 0 <= k < order.Length && !(j + 1 < k <= i) ==> order[k] == o[k]
        invariant forall k :: j + 1 < k <= i ==> order[k] == o[k - 1]
        invariant forall k :: j + 1 <= k < i ==> Pos(s, o[k]) > iPos
      {
        order[j + 1] := order[j];
        j := j - 1;
      }
      order[j + 1] := tmp;
      InsertionStep(s, o, j + 1, i, order[..]);
    }

    /**
     * `imf_find_space`: scans the gaps in position order.  It succeeds
     * (0) with the first gap exactly size long, or else with the first of
     * the smallest gaps longer than twice size; it fails (-1) when there
     * is neither.
     */
    method FindSpace(size: int) returns (e: int, position: int)
      requires ScanReady(chunks, order[..])
      ensures e == 0 || e == -1
      ensures e == -1 <==> NoSpace(chunks, order[..], size)
      ensures e == 0 ==> Chosen(chunks, order[..], size, position)
    {
      ghost var s, o := chunks, order[..];
      var lgPos := -1;
      var lgSize := 0;
      ghost var lk := -1;
      e := -1;
      position := 0;
      var lOffset := 0;
      var i := 0;
      while i < order.Length && e != 0
        invariant 0 <= i <= |o| && (e == 0 || e == -1)
        invariant e == -1 ==> lOffset == GapStart(s, o, i) && forall j :: 0 <= j < i ==> Gap(s, o, j) != size
        invariant e == -1 ==> lk == LargeUpTo(s, o, size, i) && (lgPos == -1 <==> lk == -1)
        invariant e == -1 && lk != -1 ==> lgPos == GapStart(s, o, lk) && lgSize == Gap(s, o, lk)
        invariant e == 0 ==> ExactAt(s, o, size, i - 1) && position == GapStart(s, o, i - 1)
      {
        var x := order[i];
        var rOffset := chunks[x].position;
        var space := rOffset - lOffset;
        assert space >= 0;
        if space == size {
          position := lOffset;
          e := 0;
        } else if space > size * 2 {
          if lgPos == -1 || (lgPos >= 0 && lgSize > space) {
            lgPos := lOffset;
            lgSize := space;
            lk := i;
          }
        }
        lOffset := rOffset + chunks[x].size;
        i := i + 1;
      }
      if e != 0 && lgPos != -1 {
        assert lgPos >= 0;
        position := lgPos;
        e := 0;
        assert ChosenAt(s, o, size, lk);
      } else if e == 0 {
        assert ChosenAt(s, o, size, i - 1);
      }
    }

    /**
     * `imf_alloc_chunks`: the table grows by as many slots as it has, at
     * most 128; the new slots are unused and follow in the order in slot
     * order.  The source asserts the new count stays below `ChunkLimit`.
     */
    method AllocChunks()
      requires Valid() && |chunks| + Increase(|chunks|) < ChunkLimit
      modifies this`chunks, this`order
      ensures Valid() && fresh(order)
      ensures chunks == Grown(old(chunks)) && order[..] == old(order[..]) + Span(|old(chunks)|, |chunks|)
    {
      var increase := |chunks|;
      if increase > 128 {
        increase := 128;
      }
      var count := |chunks| + increase;
      ghost var s0, o0 := chunks, order[..];
      var newOrder := new int[count];
      forall k | 0 <= k < |chunks| {
        newOrder[k] := order[k];
      }
      ghost var n := |chunks|;
      var i := |chunks|;
      while i < count
        invariant n <= i <= count && |chunks| == i && chunks[..n] == s0
        invariant forall k :: n <= k < i ==> chunks[k] == Unused
        invariant forall k :: 0 <= k < n ==> newOrder[k] == o0[k]
        invariant forall k :: n <= k < i ==> newOrder[k] == k
      {
        chunks := chunks + [Unused];
        newOrder[i] := i;
        i := i + 1;
      }
      assert chunks == Grown(s0);
      assert newOrder[..] == o0 + Span(n, count);
      GrowTable(s0, o0);
      order := newOrder;
    }

    /**
     * `imf_seek_unused`: the lowest unused slot.  When it is the last
     * one, the table grows, so that an unused "ending chunk" always
     * remains after it.
     */
    method SeekUnused() returns (index: int)
      requires Valid()
      requires FirstUnused(chunks, 0) == |chunks| - 1 ==> |chunks| + Increase(|chunks|) < ChunkLimit
      modifies this`chunks, this`order
      ensures Valid() && index == FirstUnused(old(chunks), 0) && 0 < index < |chunks| - 1
      ensures index == |old(chunks)| - 1 ==> fresh(order) && chunks == Grown(old(chunks)) && order[..] == old(order[..]) + Span(|old(chunks)|, |chunks|)
      ensures index != |old(chunks)| - 1 ==> chunks == old(chunks) && order == old(order)
    {
      var i := 0;
      while i < |chunks| && chunks[i].size != 0
        invariant 0 <= i <= |chunks| && forall x :: 0 <= x < i ==> Used(chunks[x])
      {
        i := i + 1;
      }
      assert i < |chunks|;
      index := i;
      if i == |chunks| - 1 {
        AllocChunks();
      }
    }

    /**
     * `imf_get_length`: sorts the order, then scans it from the end for
     * the last slot in use.  In a table there always is one (the header),
     * so the status is 0 and the length is where that slot ends.
     */
    method GetLength() returns (status: bool, length: int)
      requires Valid()
      modifies order
      ensures Valid() && order == old(order)
      ensures !status && length == FileLength(chunks)
    {
      status := |chunks| <= 0;
      if !status {
        PermInRange(order[..], |chunks|);
        SortOrder();
        ghost var m := PermCovers(order[..], |chunks|, 0);
        assert Used(chunks[order[m]]);
        var i := order.Length;
        while i > 0
          invariant m < i <= order.Length
          invariant forall k :: i <= k < order.Length ==> !Used(chunks[order[k]])
        {
          i := i - 1;
          var size := chunks[order[i]].size;
          status := size == 0;
          if !status {
            length := chunks[order[i]].position + size;
            LastUsedEnd(chunks, order[..], i);
            break;
          }
        }
      }
    }

    /**
     * `imf_info_swaps`: half the total distance between each place of the
     * order and the slot listed there; the total is even, as the source
     * asserts, because the order is a permutation.
     */
    method InfoSwaps()
      requires Valid()
      modifies this`statSwap
      ensures 2 * statSwap == Displacement(order[..])
    {
      var total := 0;
      var i := 0;
      while i < order.Length
        invariant 0 <= i <= order.Length && total == Displacement(order[..i])
      {
        assert order[..i + 1][..i] == order[..i];
        total := total + Abs(i - order[i]);
        i := i + 1;
      }
      assert order[..i] == order[..];
      DisplacementEven(order[..], |chunks|);
      assert total % 2 == 0;
      statSwap := total / 2;
    }

    /**
     * The gap counting of `imf_info_gaps`: the scan of the order up to the
     * first slot at INT64_MAX counts the non-empty gaps between extents
     * and the bytes in them.
     */
    method InfoGaps()
      requires ScanReady(chunks, order[..])
      modifies this`statsGaps, this`statsGapsSpace
      ensures statsGaps == GapCount(chunks, order[..], FirstAtEnd(chunks, order[..], 0))
      ensures statsGapsSpace == GapSpace(chunks, order[..], FirstAtEnd(chunks, order[..], 0))
    {
      ghost var o := order[..];
      ghost var last := FirstAtEnd(chunks, o, 0);
      var lOffset := 0;
      statsGaps, statsGapsSpace := 0, 0;
      var stop := false;
      var i := 0;
      while i < order.Length && !stop
        invariant 0 <= i <= order.Length
        invariant stop ==> i == last + 1
        invariant !stop ==> i <= last && lOffset == GapStart(chunks, o, i)
        invariant statsGaps == GapCount(chunks, o, if stop then last else i)
        invariant statsGapsSpace == GapSpace(chunks, o, if stop then last else i)
      {
        var rOffset := chunks[order[i]].position;
        stop := rOffset == Int64Max;
        if !stop {
          var space := rOffset - lOffset;
          assert space >= 0;
          if space > 0 {
            statsGaps := statsGaps + 1;
            statsGapsSpace := statsGapsSpace + space;
          }
          lOffset := rOffset + chunks[order[i]].size;
        }
        i := i + 1;
      }
    }

    /** `imf_get_size`: the bytes of data in slot index, the digest not counted; never negative. */
    function GetSize(index: int): (r: int)
      reads this, order
      requires Valid() && 0 <= index < |chunks| && Used(chunks[index])
      ensures 0 <= r && r + HashSize == chunks[index].size
    {
      chunks[index].size - HashSize
    }

    /** `imf_free`: queues slot index, which must be in use, for release at the next sync. */
    method Free(index: int)
      requires 0 <= index < |chunks| && Used(chunks[index])
      modifies this`deleteMark
      ensures deleteMark == old(deleteMark) + [index]
    {
      deleteMark := deleteMark + [index];
    }

    /**
     * `imf_delete`: `imf_prepare_free` makes room for one more queue entry
     * (the queue is a sequence here), then `imf_free` queues the slot.
     * Slot 0 must not be queued: `imf_sync` asserts it stays at 0.
     */
    method Delete(index: int)
      requires Valid() && 0 < index < |chunks| && Used(chunks[index])
      modifies this`deleteMark
      ensures Valid() && deleteMark == old(deleteMark) + [index]
    {
      Free(index);
    }

    /**
     * The chunk-table part of `imf_put`: a chunk of dataSize bytes and its
     * digest goes where `imf_find_space` chooses; when slot index was in
     * use, its old extent moves to the lowest unused slot, queued for
     * release, so that the old data stays valid until the next sync.
     */
    method Put(index: int, dataSize: int) returns (e: bool)
      requires Valid() && 1 < index < |chunks| - 1 && 0 <= dataSize
      requires Used(chunks[index]) && FirstUnused(chunks, 0) == |chunks| - 1 ==> |chunks| + Increase(|chunks|) < ChunkLimit
      modifies this`chunks, this`order, this`deleteMark, order
      ensures Valid() && |chunks| >= |old(chunks)|
      ensures e <==> NoSpace(old(chunks), old(order[..]), dataSize + HashSize)
      ensures e ==> chunks == old(chunks) && order == old(order) && order[..] == old(order[..]) && deleteMark == old(deleteMark)
      ensures !e ==> Chosen(old(chunks), old(order[..]), dataSize + HashSize, chunks[index].position)
      ensures !e ==> chunks == Relocated(old(chunks), index, Chunk(chunks[index].position, dataSize + HashSize))
      ensures !e ==> deleteMark == MarksAfterPut(old(chunks), old(deleteMark), index)
      ensures !e ==> GetSize(index) == dataSize
    {
      var size := dataSize + HashSize;
      TableScanReady(chunks, order[..]);
      var r, position := FindSpace(size);
      if r != 0 {
        return true;
      }
      ghost var s0, m0 := chunks, deleteMark;
      ChosenFree(s0, order[..], size, position);
      var c := Chunk(position, size);
      Place(index, c);
      RelocateLayout(s0, index, c);
      RelocateMarked(s0, m0, index, c);
      SortOrder();
      e := false;
    }

    /** The writes of `imf_put` once the place is chosen, up to the sort. */
    method Place(index: int, c: Chunk)
      requires Valid() && 1 < index < |chunks| - 1 && Used(c)
      requires Used(chunks[index]) && FirstUnused(chunks, 0) == |chunks| - 1 ==> |chunks| + Increase(|chunks|) < ChunkLimit
      modifies this`chunks, this`order, this`deleteMark
      ensures order == old(order) || fresh(order)
      ensures chunks == Relocated(old(chunks), index, c)
      ensures deleteMark == MarksAfterPut(old(chunks), old(deleteMark), index)
      ensures IsPermutation(order[..], |chunks|) && InRange(order[..], |chunks|)
    {
      ghost var s0 := chunks;
      if chunks[index].size > 0 {
        var freeIndex := SeekUnused();
        chunks := chunks[freeIndex := chunks[index]];
        Free(freeIndex);
      }
      chunks := chunks[index := c];
      assert chunks == Relocated(s0, index, c);
      PermInRange(order[..], |chunks|);
    }

    /** The writes of `imf_sync` once slot 1's place is chosen, up to the sort. */
    method Release(c: Chunk)
      requires Valid()
      modifies this`chunks, this`deleteMark
      ensures chunks == Freed(old(chunks)[1 := c], old(deleteMark)) && deleteMark == []
      ensures IsPermutation(order[..], |chunks|) && InRange(order[..], |chunks|)
    {
      ghost var s1 := chunks[1 := c];
      chunks := chunks[1 := c];
      if |deleteMark| > 0 {
        CommitDeletes();
      } else {
        assert chunks == Freed(s1, deleteMark);
      }
      PermInRange(order[..], |chunks|);
    }

    /** The delete commit of `imf_sync`: every queued slot becomes unused and the queue empties. */
    method CommitDeletes()
      requires InRange(deleteMark, |chunks|)
      modifies this`chunks, this`deleteMark
      ensures chunks == Freed(old(chunks), old(deleteMark)) && deleteMark == []
    {
      ghost var s0 := chunks;
      var i := 0;
      while i < |deleteMark|
        invariant 0 <= i <= |deleteMark| && deleteMark == old(deleteMark)
        invariant chunks == Freed(s0, deleteMark[..i]) && InRange(deleteMark, |s0|)
      {
        var del := deleteMark[i];
        FreedStep(s0, deleteMark, i);
        chunks := chunks[del := Unused];
        i := i + 1;
      }
      assert deleteMark[..i] == deleteMark;
      deleteMark := [];
    }

    /**
     * The chunk-table part of `imf_sync`: slot 1, which holds the records
     * of slots 2 and on, goes where `imf_find_space` chooses; the queued
     * slots are released; the order is sorted again.  Slot 0 stays at
     * position 0, as the source asserts.
     */
    method Sync() returns (e: bool, ghost p: int)
      requires Valid()
      modifies this`chunks, this`deleteMark, order
      ensures Valid()
      ensures e <==> NoSpace(old(chunks), old(order[..]), IndexSize(|old(chunks)|))
      ensures e ==> chunks == old(chunks) && order[..] == old(order[..]) && deleteMark == old(deleteMark)
      ensures !e ==> deleteMark == [] && Chosen(old(chunks), old(order[..]), IndexSize(|old(chunks)|), p)
      ensures !e ==> chunks == Freed(old(chunks)[1 := Chunk(p, IndexSize(|old(chunks)|))], old(deleteMark))
    {
      var dataSize := ChunkBytes * (|chunks| - 2);
      TableScanReady(chunks, order[..]);
      var r, position := FindSpace(dataSize + HashSize);
      p := position;
      if r != 0 {
        return true, p;
      }
      ghost var s0, o0, m0 := chunks, order[..], deleteMark;
      ChosenFree(s0, o0, dataSize + HashSize, position);
      var c := Chunk(position, dataSize + HashSize);
      assert c == Chunk(p, IndexSize(|s0|));
      Release(c);
      SyncLayout(s0, m0, c);
      ghost var s1 := chunks;
      SortOrder();
      assert chunks == s1 && chunks[0].position == 0;
      e := false;
    }
  }
}
