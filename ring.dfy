/**
 * The fixed-size rings of include/lockfree/ring.hh, read sequentially.
 *
 * Both rings keep free-running 32-bit `unsigned` indices and store element
 * number `i` in slot `i % MaxSize`. The memory orders of the atomic loads
 * and stores play no role in a single-threaded run and are not modelled.
 */
module Ring {
  import opened Bits

  /** Slot `i % maxSize` for distinct indices less than `maxSize` apart never coincide. */
  lemma SlotsDistinct(a: int, i: int, j: int, m: nat)
    requires 0 < m && 0 <= i < j < i + m
    ensures (a + i) % m != (a + j) % m
  {
    var qi, qj := (a + i) / m, (a + j) / m;
    assert a + i == m * qi + (a + i) % m;
    assert a + j == m * qj + (a + j) % m;
    if (a + i) % m == (a + j) % m {
      assert m * (qj - qi) == j - i by {
        assert m * qj - m * qi == m * (qj - qi);
      }
      if qj - qi >= 1 {
        MulAtLeast(m, qj - qi);
      } else {
        assert m * (qi - qj) == i - j;
        if qi - qj >= 1 {
          MulAtLeast(m, qi - qj);
        }
      }
    }
  }

  /** Advancing an index by one and then by `k` lands in the same slot as advancing it by `k + 1`. */
  lemma SlotAfterAdvance(b: int, k: int, m: nat)
    requires IsPowerOfTwo(m) && m <= WORD
    ensures (Wrap(b + 1) + k) % m == (b + 1 + k) % m
  {
    var c := DividesWord(m);
    var q := (b + 1) / WORD;
    assert Wrap(b + 1) == b + 1 - WORD * q;
    MulAssoc(m, c, q);
    assert Wrap(b + 1) + k == m * -(c * q) + (b + 1 + k);
    ModMultipleAdd(m, -(c * q), b + 1 + k);
  }

  /** Element `k` of `queue` sits in slot `(begin + k) % |slots|`. */
  ghost predicate Layout<T>(queue: seq<T>, slots: seq<T>, begin: int)
  {
    0 < |slots| && forall k :: 0 <= k < |queue| ==> queue[k] == slots[(begin + k) % |slots|]
  }

  /**
   * Writing the new element into the slot after the last one keeps every
   * queued element where the ring's layout expects it.
   */
  lemma AppendKeepsLayout<T>(queue: seq<T>, slots: seq<T>, begin: int, element: T)
    requires Layout(queue, slots, begin) && |queue| < |slots|
    ensures Layout(queue + [element], slots[(begin + |queue|) % |slots| := element], begin)
  {
    var m, n := |slots|, |queue|;
    var after := slots[(begin + n) % m := element];
    forall k | 0 <= k <= n
      ensures (queue + [element])[k] == after[(begin + k) % m]
    {
      if k < n {
        SlotsDistinct(begin, k, n, m);
      }
    }
  }

  /** Advancing `begin` past the oldest element keeps the others where the layout expects them. */
  lemma DropKeepsLayout<T>(queue: seq<T>, slots: seq<T>, begin: u32)
    requires IsPowerOfTwo(|slots|) && |slots| <= WORD && 0 < |queue|
    requires Layout(queue, slots, begin)
    ensures Layout(queue[1..], slots, Inc32(begin))
    ensures queue[0] == slots[begin % |slots|]
  {
    assert queue[0] == slots[(begin + 0) % |slots|];
    forall k | 0 <= k < |queue| - 1
      ensures queue[1..][k] == slots[(Inc32(begin) + k) % |slots|]
    {
      assert queue[1..][k] == queue[k + 1];
      SlotAfterAdvance(begin, k, |slots|);
    }
  }

  /** What `ring_spsc::snapshot()` records: the producer index `_end`. */
  datatype SnapshotType = SnapshotType(producerIndex: u32)

  /**
   * `ring_spsc<T, MaxSize>`: a bounded FIFO. `Contents` is the queue from
   * the oldest element (next to pop) to the newest.
   */
  class RingSpsc<T(0)> {
    const maxSize: nat
    const ring: array<T>
    var begin: u32
    var end: u32
    ghost var Contents: seq<T>

    /** Element `k` of the queue sits in slot `(begin + k) % MaxSize`. */
    ghost predicate Valid()
      reads this, ring
    {
      && IsPowerOfTwo(maxSize) && maxSize < WORD
      && ring.Length == maxSize
      && |Contents| == Sub32(end, begin) <= maxSize
      && Layout(Contents, ring[..], begin)
    }

    /** `MaxSize` must be a power of two for `% MaxSize` to survive the wrap of the indices. */
    constructor (maxSize: nat)
      requires IsPowerOfTwo(maxSize) && maxSize < WORD
      ensures Valid() && fresh(ring)
      ensures this.maxSize == maxSize && begin == 0 && end == 0
      ensures Contents == []
    {
      this.maxSize := maxSize;
      ring := new T[maxSize];
      begin, end := 0, 0;
      Contents := [];
    }

    method Push(element: T) returns (ok: bool)
      requires Valid()
      modifies this, ring
      ensures Valid()
      ensures ok <==> old(Sub32(end, begin)) < maxSize
      ensures ok <==> old(|Contents|) < maxSize
      ensures ok ==> Contents == old(Contents) + [element]
      ensures ok ==> ring[..] == old(ring[..])[old(end) % maxSize := element]
      ensures ok ==> end == Inc32(old(end)) && begin == old(begin)
      ensures !ok ==> Contents == old(Contents) && ring[..] == old(ring[..])
      ensures !ok ==> end == old(end) && begin == old(begin)
      ensures ok <==> ModifiedSince(old(Snapshot()))
    {
      if Sub32(end, begin) >= maxSize {
        return false;
      }
      var slot := end % maxSize;
      assert slot == (begin + |Contents|) % maxSize by {
        assert Wrap(begin + |Contents|) == end;
        WrapKeepsResidue(begin + |Contents|, maxSize);
      }
      AppendKeepsLayout(Contents, ring[..], begin, element);
      WidenWindow(end, begin);
      ring[slot] := element;
      assert ring[..] == old(ring[..])[slot := element];
      end := Inc32(end);
      Contents := Contents + [element];
      ok := true;
    }

    /**
     * Pops the oldest element into `element`; on failure `element` keeps the
     * value `prior` the caller passed in. The emptiness test is `begin == end`,
     * not the `begin >= end` of the source (see PopSeesEmptyAsWritten).
     */
    method Pop(prior: T) returns (ok: bool, element: T)
      requires Valid()
      modifies this
      ensures Valid()
      ensures ok <==> old(|Contents|) > 0
      ensures ok ==> element == old(Contents)[0] && Contents == old(Contents)[1..]
      ensures ok ==> begin == Inc32(old(begin)) && end == old(end)
      ensures !ok ==> element == prior && Contents == old(Contents)
      ensures !ok ==> begin == old(begin) && end == old(end)
      ensures !ModifiedSince(old(Snapshot()))
    {
      if begin == end {
        return false, prior;
      }
      DropKeepsLayout(Contents, ring[..], begin);
      element := ring[begin % maxSize];
      NarrowWindow(end, begin);
      begin := Inc32(begin);
      Contents := Contents[1..];
      ok := true;
    }

    method Size() returns (n: u32)
      requires Valid()
      ensures n == |Contents| && n <= maxSize
    {
      n := Sub32(end, begin);
    }

    /** A snapshot just taken reports no modification. */
    function Snapshot(): (s: SnapshotType)
      reads this
      ensures !ModifiedSince(s)
    {
      SnapshotType(end)
    }

    /**
     * True once a push has succeeded since `snapshot` was taken: the count of
     * pushes since then, modulo 2^32, is not zero.
     */
    predicate ModifiedSince(snapshot: SnapshotType): (m: bool)
      reads this
      ensures m <==> Sub32(end, snapshot.producerIndex) != 0
    {
      snapshot.producerIndex != end
    }
  }

  /** The emptiness test both rings' `pop` performs on the two indices. */
  predicate PopSeesEmptyAsWritten(begin: u32, end: u32)
  {
    begin >= end
  }

  /**
   * Once `_end` has wrapped past 2^32 and `_begin` has not, the queue holds
   * `end - begin` elements (modulo 2^32) but `pop` reports it empty; nothing
   * can be popped again and the ring stays stuck.
   */
  lemma PopGuardAsWrittenMissesWrappedElements<T(0)>(r: RingSpsc<T>)
    requires r.Valid() && r.end < r.begin
    ensures |r.Contents| > 0 && PopSeesEmptyAsWritten(r.begin, r.end)
  {
  }

  /** A valid ring state the first counterexample reaches: one element queued just after the wrap. */
  lemma PopGuardAsWrittenCounterexample()
    ensures Sub32(0, WORD - 1) == 1 && PopSeesEmptyAsWritten(WORD - 1, 0)
  {
  }

  /** What `ring_mpsc::push` reports. The source encodes both cases in one `unsigned`. */
  datatype PushResult = Stored | Overflow(claimed: u32)

  /** The `unsigned` that `ring_mpsc::push` returns: 0 when stored, the claimed index on overflow. */
  function MpscPushReturnAsWritten(inIdx: u32, begin: u32, maxSize: nat): u32
  {
    if Sub32(inIdx, begin) >= maxSize then inIdx else 0
  }

  /**
   * When the claimed index is 0 (the reservation counter has just wrapped)
   * an overflow returns 0, which the caller reads as success: the element
   * is never stored and its reserved slot is never filled.
   */
  lemma MpscPushReturnAsWrittenIsAmbiguous(maxSize: nat)
    requires 0 < maxSize < WORD
    ensures Sub32(0, WORD - maxSize) >= maxSize
    ensures MpscPushReturnAsWritten(0, WORD - maxSize, maxSize) == 0
  {
  }

  /**
   * `ring_mpsc<T, MaxSize>`: producers reserve an index with `_insert_idx`,
   * store there if it is within `MaxSize` of `_begin`, and otherwise return
   * the reservation for a later `push_to`. A slot holding `empty` has not been
   * filled yet, and `pop` refuses it.
   */
  class RingMpsc<T(0, ==)> {
    const maxSize: nat
    const empty: T
    const ring: array<T>
    var insertIdx: u32
    var begin: u32
    var end: u32

    ghost predicate Valid()
      reads this
    {
      IsPowerOfTwo(maxSize) && maxSize < WORD && ring.Length == maxSize
    }

    /** `empty` stands for the value-initialised `T()` of the source. */
    constructor (maxSize: nat, empty: T)
      requires IsPowerOfTwo(maxSize) && maxSize < WORD
      ensures Valid() && fresh(ring)
      ensures this.maxSize == maxSize && this.empty == empty
      ensures insertIdx == 0 && begin == 0 && end == 0
      ensures forall i :: 0 <= i < ring.Length ==> ring[i] == empty
    {
      this.maxSize := maxSize;
      this.empty := empty;
      ring := new T[maxSize];
      insertIdx, begin, end := 0, 0, 0;
      new;
      var i := 0;
      while i < maxSize
        modifies ring
        invariant 0 <= i <= maxSize
        invariant forall j :: 0 <= j < i ==> ring[j] == empty
      {
        ring[i] := empty;
        i := i + 1;
      }
    }

    /**
     * Claims the next index; stores `element` there when it is within
     * `MaxSize` of `begin`, and otherwise leaves the slot untouched and
     * reports the claimed index.
     */
    method Push(element: T) returns (r: PushResult)
      requires Valid() && element != empty
      modifies this, ring
      ensures Valid()
      ensures insertIdx == Inc32(old(insertIdx)) && begin == old(begin)
      ensures r.Overflow? <==> Sub32(old(insertIdx), begin) >= maxSize
      ensures r.Overflow? ==> r.claimed == old(insertIdx)
      ensures r.Overflow? ==> end == old(end) && ring[..] == old(ring[..])
      ensures r.Stored? ==> end == Inc32(old(end))
      ensures r.Stored? ==> ring[..] == old(ring[..])[old(insertIdx) % maxSize := element]
    {
      var inIdx := insertIdx;
      insertIdx := Inc32(insertIdx);
      if Sub32(inIdx, begin) >= maxSize {
        return Overflow(inIdx);
      }
      ring[inIdx % maxSize] := element;
      end := Inc32(end);
      r := Stored;
    }

    /** Stores `element` at an index an earlier `Push` claimed, once it is within reach. */
    method PushTo(element: T, inIdx: u32) returns (ok: bool)
      requires Valid()
      modifies this, ring
      ensures Valid()
      ensures insertIdx == old(insertIdx) && begin == old(begin)
      ensures ok <==> Sub32(inIdx, begin) < maxSize
      ensures ok ==> end == Inc32(old(end))
      ensures ok ==> ring[..] == old(ring[..])[inIdx % maxSize := element]
      ensures !ok ==> end == old(end) && ring[..] == old(ring[..])
    {
      if Sub32(inIdx, begin) >= maxSize {
        return false;
      }
      ring[inIdx % maxSize] := element;
      end := Inc32(end);
      ok := true;
    }

    /**
     * Takes the element at `begin` unless the indices are equal or that slot
     * has not been filled yet; a taken slot is reset to `empty`. The index
     * test is `begin == end` (see PopSeesEmptyAsWritten). When the slot is
     * still empty, `element` is set to `empty`, as the source's load does.
     */
    method Pop(prior: T) returns (ok: bool, element: T)
      requires Valid()
      modifies this, ring
      ensures Valid()
      ensures insertIdx == old(insertIdx) && end == old(end)
      ensures ok <==> old(begin) != old(end) && old(ring[begin % maxSize]) != empty
      ensures ok ==> element == old(ring[begin % maxSize]) && begin == Inc32(old(begin))
      ensures ok ==> ring[..] == old(ring[..])[old(begin) % maxSize := empty]
      ensures !ok ==> begin == old(begin) && ring[..] == old(ring[..])
      ensures !ok && old(begin) == old(end) ==> element == prior
      ensures !ok && old(begin) != old(end) ==> element == empty
    {
      if begin == end {
        return false, prior;
      }
      element := ring[begin % maxSize];
      if element == empty {
        return false, element;
      }
      ring[begin % maxSize] := empty;
      begin := Inc32(begin);
      ok := true;
    }

    /** The number of stored elements not yet popped, `end - begin` on `unsigned`. */
    method Size() returns (n: u32)
      requires Valid()
      ensures Wrap(begin + n) == end
    {
      n := Sub32(end, begin);
    }
  }
}
