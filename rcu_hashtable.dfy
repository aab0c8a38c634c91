/**
 * The owner-side (`mutable_table`) operations of
 * include/osv/rcu-hashtable.hh, read sequentially.
 *
 * A bucket array is a sequence of buckets and a bucket is a sequence of
 * elements, front first. The table's hash function is a parameter `hash`;
 * the comparison is `std::equal_to`, i.e. `==`. The RCU publication of a new
 * bucket array (`rcu_ptr::assign`) becomes a plain assignment.
 */
module RcuHashtable {
  import opened Bits
  import opened Wrappers

  /** Where an element sits: an iterator that is not `end()`. */
  datatype Position = Position(bucket: nat, index: nat)

  /** Every element in the buckets, with multiplicity. */
  function Elements<T>(bs: seq<seq<T>>): multiset<T>
  {
    if bs == [] then multiset{} else Elements(bs[..|bs| - 1]) + multiset(bs[|bs| - 1])
  }

  /** The bucket of hash value `h` among `n` buckets: `h & (n - 1)`. */
  function BucketOf(h: nat, n: nat): (b: nat)
    requires 0 < n
    ensures b < n
    ensures IsPowerOfTwo(n) ==> b == h % n
  {
    BitAndBound(h, n - 1);
    if IsPowerOfTwo(n) then Mask(h, n) else BitAnd(h, n - 1)
  }

  /** Every element sits in the bucket its hash selects. */
  ghost predicate Placed<T>(bs: seq<seq<T>>, hash: T -> nat)
  {
    forall b, i :: 0 <= b < |bs| && 0 <= i < |bs[b]| ==> BucketOf(hash(bs[b][i]), |bs|) == b
  }

  /** `push_front` of `e` into the bucket its hash selects. */
  function InsertFront<T>(bs: seq<seq<T>>, e: T, hash: T -> nat): (r: seq<seq<T>>)
    requires 0 < |bs|
    ensures |r| == |bs|
  {
    var b := BucketOf(hash(e), |bs|);
    bs[b := [e] + bs[b]]
  }

  /** `push_front` of each of `es` in turn. */
  function PushAll<T>(bs: seq<seq<T>>, es: seq<T>, hash: T -> nat): (r: seq<seq<T>>)
    requires 0 < |bs|
    ensures |r| == |bs|
  {
    if es == [] then bs
    else InsertFront(PushAll(bs, es[..|es| - 1], hash), es[|es| - 1], hash)
  }

  /**
   * The bucket array `rebuild(n)` produces: `n` empty buckets into which the
   * elements of `bs` are pushed to the front, bucket by bucket, front to back.
   */
  function Rebuilt<T>(bs: seq<seq<T>>, n: nat, hash: T -> nat): (r: seq<seq<T>>)
    requires 0 < n
    ensures |r| == n
  {
    if bs == [] then seq(n, _ => [])
    else PushAll(Rebuilt(bs[..|bs| - 1], n, hash), bs[|bs| - 1], hash)
  }

  /** The bucket count after inserting into a table with `total` elements: doubled once the new total reaches `2 * size`. */
  function SizeAfterInsert(total: nat, size: nat): nat
  {
    if total + 1 < size * 2 then size else Max(1, size * 2)
  }

  /** The bucket count after erasing from a table with `total` elements: halved once `2 * (total - 1) + 1 < size`. */
  function SizeAfterErase(total: nat, size: nat): nat
    requires 0 < total
  {
    if 2 * (total - 1) + 1 >= size then size else size / 2
  }

  function Max(a: nat, b: nat): nat
  {
    if a < b then b else a
  }

  /** `bs[b]` without its element at `i`: what `erase` leaves before any contraction. */
  function RemoveAt<T>(bs: seq<seq<T>>, p: Position): (r: seq<seq<T>>)
    requires p.bucket < |bs| && p.index < |bs[p.bucket]|
    ensures |r| == |bs|
  {
    bs[p.bucket := bs[p.bucket][..p.index] + bs[p.bucket][p.index + 1..]]
  }

  // ---------------------------------------------------------------------
  // Properties of the bucket-array functions

  lemma {:induction false} ElementsUpdate<T>(bs: seq<seq<T>>, b: nat, s: seq<T>)
    requires b < |bs|
    ensures Elements(bs[b := s]) + multiset(bs[b]) == Elements(bs) + multiset(s)
    decreases |bs|
  {
    var last := |bs| - 1;
    var bs' := bs[b := s];
    if b == last {
      assert bs'[..last] == bs[..last];
    } else {
      assert bs'[..last] == bs[..last][b := s];
      assert bs'[last] == bs[last];
      ElementsUpdate(bs[..last], b, s);
      calc {
        Elements(bs') + multiset(bs[b]);
        Elements(bs[..last][b := s]) + multiset(bs[last]) + multiset(bs[..last][b]);
        Elements(bs[..last]) + multiset(s) + multiset(bs[last]);
        Elements(bs) + multiset(s);
      }
    }
  }

  lemma {:induction false} ElementsMember<T>(bs: seq<seq<T>>, e: T)
    ensures e in Elements(bs) <==> exists b :: 0 <= b < |bs| && e in bs[b]
  {
    if e in Elements(bs) {
      var b := ElementsWitness(bs, e);
    }
    if exists b :: 0 <= b < |bs| && e in bs[b] {
      var b :| 0 <= b < |bs| && e in bs[b];
      ElementsContains(bs, b, e);
    }
  }

  /** An element of the table lies in some bucket. */
  lemma {:induction false} ElementsWitness<T>(bs: seq<seq<T>>, e: T) returns (b: nat)
    requires e in Elements(bs)
    ensures b < |bs| && e in bs[b]
    decreases |bs|
  {
    var last := |bs| - 1;
    if e in bs[last] {
      b := last;
    } else {
      b := ElementsWitness(bs[..last], e);
      assert bs[..last][b] == bs[b];
    }
  }

  /** An element of any bucket is an element of the table. */
  lemma {:induction false} ElementsContains<T>(bs: seq<seq<T>>, b: nat, e: T)
    requires b < |bs| && e in bs[b]
    ensures e in Elements(bs)
    decreases |bs|
  {
    var last := |bs| - 1;
    if b < last {
      assert bs[..last][b] == bs[b];
      ElementsContains(bs[..last], b, e);
    }
  }

  /** Inserting adds exactly the new element. */
  lemma InsertFrontElements<T>(bs: seq<seq<T>>, e: T, hash: T -> nat)
    requires 0 < |bs|
    ensures Elements(InsertFront(bs, e, hash)) == Elements(bs) + multiset{e}
  {
    var b := BucketOf(hash(e), |bs|);
    var s := [e] + bs[b];
    ElementsUpdate(bs, b, s);
    assert multiset(s) == multiset{e} + multiset(bs[b]);
    MultisetCancel(Elements(bs[b := s]), Elements(bs) + multiset{e}, multiset(bs[b]));
  }

  lemma MultisetCancel<T>(a: multiset<T>, b: multiset<T>, c: multiset<T>)
    requires a + c == b + c
    ensures a == b
  {
    assert forall x :: a[x] == (a + c)[x] - c[x];
    assert forall x :: b[x] == (b + c)[x] - c[x];
  }

  /** Inserting keeps every element, old and new, in its own bucket. */
  lemma InsertFrontPlaced<T>(bs: seq<seq<T>>, e: T, hash: T -> nat)
    requires 0 < |bs| && Placed(bs, hash)
    ensures Placed(InsertFront(bs, e, hash), hash)
  {
    var r := InsertFront(bs, e, hash);
    var k := BucketOf(hash(e), |bs|);
    forall b, i | 0 <= b < |r| && 0 <= i < |r[b]|
      ensures BucketOf(hash(r[b][i]), |r|) == b
    {
      if b == k && i > 0 {
        assert r[b][i] == bs[b][i - 1];
      }
    }
  }

  lemma PushAllProperties<T>(bs: seq<seq<T>>, es: seq<T>, hash: T -> nat)
    requires 0 < |bs| && Placed(bs, hash)
    ensures Placed(PushAll(bs, es, hash), hash)
    ensures Elements(PushAll(bs, es, hash)) == Elements(bs) + multiset(es)
  {
    PushAllPlaced(bs, es, hash);
    PushAllElements(bs, es, hash);
  }

  lemma {:induction false} PushAllPlaced<T>(bs: seq<seq<T>>, es: seq<T>, hash: T -> nat)
    requires 0 < |bs| && Placed(bs, hash)
    ensures Placed(PushAll(bs, es, hash), hash)
    decreases |es|
  {
    if es != [] {
      PushAllPlaced(bs, es[..|es| - 1], hash);
      InsertFrontPlaced(PushAll(bs, es[..|es| - 1], hash), es[|es| - 1], hash);
    }
  }

  lemma {:induction false} PushAllElements<T>(bs: seq<seq<T>>, es: seq<T>, hash: T -> nat)
    requires 0 < |bs|
    ensures Elements(PushAll(bs, es, hash)) == Elements(bs) + multiset(es)
    decreases |es|
  {
    if es != [] {
      var init, e := es[..|es| - 1], es[|es| - 1];
      PushAllElements(bs, init, hash);
      PushAllLast(bs, es, hash);
      MultisetLast(es);
    }
  }

  /** The last push adds exactly the last element. */
  lemma PushAllLast<T>(bs: seq<seq<T>>, es: seq<T>, hash: T -> nat)
    requires 0 < |bs| && es != []
    ensures Elements(PushAll(bs, es, hash)) == Elements(PushAll(bs, es[..|es| - 1], hash)) + multiset{es[|es| - 1]}
  {
    InsertFrontElements(PushAll(bs, es[..|es| - 1], hash), es[|es| - 1], hash);
  }

  lemma MultisetLast<T>(es: seq<T>)
    requires es != []
    ensures multiset(es) == multiset(es[..|es| - 1]) + multiset{es[|es| - 1]}
  {
    assert es == es[..|es| - 1] + [es[|es| - 1]];
  }

  /**
   * `rebuild` keeps the multiset of elements and puts each element into the
   * bucket its hash selects under the new mask.
   */
  lemma {:induction false} RebuiltProperties<T>(bs: seq<seq<T>>, n: nat, hash: T -> nat)
    requires 0 < n
    ensures Placed(Rebuilt(bs, n, hash), hash)
    ensures Elements(Rebuilt(bs, n, hash)) == Elements(bs)
    decreases |bs|
  {
    if bs == [] {
      var r := Rebuilt(bs, n, hash);
      assert forall b :: 0 <= b < n ==> r[b] == [];
      EmptyBucketsHaveNoElements(r);
    } else {
      var last := |bs| - 1;
      RebuiltProperties(bs[..last], n, hash);
      PushAllProperties(Rebuilt(bs[..last], n, hash), bs[last], hash);
    }
  }

  lemma {:induction false} EmptyBucketsHaveNoElements<T>(bs: seq<seq<T>>)
    requires forall b :: 0 <= b < |bs| ==> bs[b] == []
    ensures Elements(bs) == multiset{}
    decreases |bs|
  {
    if bs != [] {
      EmptyBucketsHaveNoElements(bs[..|bs| - 1]);
    }
  }

  /** In a placed bucket array, an element is stored iff it is in the bucket its hash selects. */
  lemma MemberIffInOwnBucket<T>(bs: seq<seq<T>>, hash: T -> nat, e: T)
    requires 0 < |bs| && Placed(bs, hash)
    ensures e in Elements(bs) <==> e in bs[BucketOf(hash(e), |bs|)]
  {
    ElementsMember(bs, e);
    if e in Elements(bs) {
      var b :| 0 <= b < |bs| && e in bs[b];
      var i :| 0 <= i < |bs[b]| && bs[b][i] == e;
      assert BucketOf(hash(bs[b][i]), |bs|) == b;
    }
  }

  /** Removing one element takes exactly that element away and keeps the others placed. */
  lemma RemoveAtProperties<T>(bs: seq<seq<T>>, p: Position, hash: T -> nat)
    requires p.bucket < |bs| && p.index < |bs[p.bucket]| && Placed(bs, hash)
    ensures Placed(RemoveAt(bs, p), hash)
    ensures Elements(RemoveAt(bs, p)) + multiset{bs[p.bucket][p.index]} == Elements(bs)
  {
    RemoveAtElements(bs, p);
    var r := RemoveAt(bs, p);
    forall b, i | 0 <= b < |r| && 0 <= i < |r[b]|
      ensures BucketOf(hash(r[b][i]), |r|) == b
    {
      if b == p.bucket {
        if i < p.index {
          assert r[b][i] == bs[b][i];
        } else {
          assert r[b][i] == bs[b][i + 1];
        }
      }
    }
  }

  lemma RemoveAtElements<T>(bs: seq<seq<T>>, p: Position)
    requires p.bucket < |bs| && p.index < |bs[p.bucket]|
    ensures Elements(RemoveAt(bs, p)) + multiset{bs[p.bucket][p.index]} == Elements(bs)
  {
    var old_b, x := bs[p.bucket], bs[p.bucket][p.index];
    var new_b := old_b[..p.index] + old_b[p.index + 1..];
    assert RemoveAt(bs, p) == bs[p.bucket := new_b];
    ElementsUpdate(bs, p.bucket, new_b);
    assert multiset(old_b) == multiset(new_b) + multiset{x} by {
      assert old_b == old_b[..p.index] + [x] + old_b[p.index + 1..];
    }
    var removed := Elements(RemoveAt(bs, p));
    assert (removed + multiset{x}) + multiset(new_b) == Elements(bs) + multiset(new_b);
    MultisetCancel(removed + multiset{x}, Elements(bs), multiset(new_b));
  }

  /** The resize policy keeps the bucket count a power of two and the load below two per bucket. */
  lemma InsertPolicy(total: nat, size: nat)
    requires IsPowerOfTwo(size) && total < 2 * size
    ensures IsPowerOfTwo(SizeAfterInsert(total, size))
    ensures total + 1 < 2 * SizeAfterInsert(total, size)
    ensures SizeAfterInsert(total, size) == size || SizeAfterInsert(total, size) == 2 * size
  {
    Doubling(size);
  }

  lemma ErasePolicy(total: nat, size: nat)
    requires IsPowerOfTwo(size) && 0 < total < 2 * size
    ensures IsPowerOfTwo(SizeAfterErase(total, size))
    ensures total - 1 < 2 * SizeAfterErase(total, size)
    ensures SizeAfterErase(total, size) == size || 2 * SizeAfterErase(total, size) == size
  {
  }

  // ---------------------------------------------------------------------
  // The table

  /** `rcu_hashtable<T>` as its owner (`mutable_table`) sees it. */
  class Table<T(==)> {
    const hash: T -> nat
    var buckets: seq<seq<T>>
    var totalElements: nat

    /** The bucket count is a power of two and every element sits in its own bucket. */
    ghost predicate WellFormed()
      reads this
    {
      IsPowerOfTwo(|buckets|) && Placed(buckets, hash)
    }

    /** `total_elements` counts the elements and stays below two per bucket. */
    ghost predicate Valid()
      reads this
    {
      WellFormed() && totalElements == |Elements(buckets)| && totalElements < 2 * |buckets|
    }

    constructor (hash: T -> nat)
      ensures Valid()
      ensures this.hash == hash && buckets == [[]] && totalElements == 0
    {
      this.hash := hash;
      buckets := [[]];
      totalElements := 0;
      new;
      assert Elements(buckets) == Elements(buckets[..0]) + multiset(buckets[0]);
    }

    /**
     * Walks the bucket that `keyHash` picks for `key`, front to back, and
     * stops at the first element `compare` accepts; `None` stands for
     * `end()`. The caller's hash and comparison are trusted as they are: the
     * search never looks outside that one bucket.
     */
    method Find<K>(key: K, keyHash: K -> nat, compare: (K, T) -> bool) returns (r: Option<Position>)
      requires 0 < |buckets|
      ensures var b := BucketOf(keyHash(key), |buckets|);
              && (r.Some? ==> && r.value.bucket == b
                              && r.value.index < |buckets[b]|
                              && compare(key, buckets[b][r.value.index])
                              && forall j :: 0 <= j < r.value.index ==> !compare(key, buckets[b][j]))
              && (r.None? <==> forall j :: 0 <= j < |buckets[b]| ==> !compare(key, buckets[b][j]))
    {
      var b := BucketOf(keyHash(key), |buckets|);
      var list := buckets[b];
      var i := 0;
      while i < |list|
        invariant 0 <= i <= |list|
        invariant forall j :: 0 <= j < i ==> !compare(key, list[j])
      {
        if compare(key, list[i]) {
          return Some(Position(b, i));
        }
        i := i + 1;
      }
      r := None;
    }

    /**
     * `find(const T&)`: the search with the table's own hash and equality.
     * In a well-placed table it finds the first copy of `x` in `x`'s
     * bucket, and `end()` exactly when `x` is not stored at all.
     */
    method FindElement(x: T) returns (r: Option<Position>)
      requires WellFormed()
      ensures r.Some? ==> && r.value.bucket == BucketOf(hash(x), |buckets|)
                          && r.value.index < |buckets[r.value.bucket]|
                          && buckets[r.value.bucket][r.value.index] == x
                          && x !in buckets[r.value.bucket][..r.value.index]
      ensures r.None? <==> x !in Elements(buckets)
    {
      r := Find(x, hash, (k: T, e: T) => k == e);
      MemberIffInOwnBucket(buckets, hash, x);
    }

    method EmplaceFront(x: T)
      requires Valid()
      modifies this
      ensures Valid()
      ensures totalElements == old(totalElements) + 1
      ensures |buckets| == SizeAfterInsert(old(totalElements), old(|buckets|))
      ensures Elements(buckets) == old(Elements(buckets)) + multiset{x}
      ensures var b := BucketOf(hash(x), |buckets|); 0 < |buckets[b]| && buckets[b][0] == x
      ensures buckets == InsertFront(if |buckets| == old(|buckets|) then old(buckets)
                                     else Rebuilt(old(buckets), |buckets|, hash), x, hash)
    {
      IncreaseSizeMaybeExpand();
      InsertFrontElements(buckets, x, hash);
      InsertFrontPlaced(buckets, x, hash);
      var b := BucketOf(hash(x), |buckets|);
      buckets := buckets[b := [x] + buckets[b]];
    }

    method Erase(p: Position)
      requires Valid() && p.bucket < |buckets| && p.index < |buckets[p.bucket]|
      modifies this
      ensures Valid()
      ensures totalElements == old(totalElements) - 1
      ensures |buckets| == SizeAfterErase(old(totalElements), old(|buckets|))
      ensures Elements(buckets) + multiset{old(buckets[p.bucket][p.index])} == old(Elements(buckets))
      ensures buckets == if |buckets| == old(|buckets|) then RemoveAt(old(buckets), p)
                         else Rebuilt(RemoveAt(old(buckets), p), |buckets|, hash)
    {
      RemoveAtProperties(buckets, p, hash);
      buckets := RemoveAt(buckets, p);
      DecreaseSizeMaybeContract();
    }

    /** Counts one more element and doubles the bucket count when the load reaches two. */
    method IncreaseSizeMaybeExpand()
      requires Valid()
      modifies this
      ensures WellFormed()
      ensures totalElements == old(totalElements) + 1 == |Elements(buckets)| + 1
      ensures totalElements < 2 * |buckets|
      ensures Elements(buckets) == old(Elements(buckets))
      ensures |buckets| == SizeAfterInsert(old(totalElements), old(|buckets|))
      ensures buckets == if |buckets| == old(|buckets|) then old(buckets)
                         else Rebuilt(old(buckets), |buckets|, hash)
    {
      InsertPolicy(totalElements, |buckets|);
      totalElements := totalElements + 1;
      if totalElements < |buckets| * 2 {
        return;
      }
      Rebuild(Max(1, |buckets| * 2));
    }

    /** Counts one element less and halves the bucket count when the load drops below one half. */
    method DecreaseSizeMaybeContract()
      requires WellFormed() && totalElements == |Elements(buckets)| + 1
      requires totalElements < 2 * |buckets|
      modifies this
      ensures Valid()
      ensures totalElements == old(totalElements) - 1
      ensures Elements(buckets) == old(Elements(buckets))
      ensures |buckets| == SizeAfterErase(old(totalElements), old(|buckets|))
      ensures buckets == if |buckets| == old(|buckets|) then old(buckets)
                         else Rebuilt(old(buckets), |buckets|, hash)
    {
      ErasePolicy(totalElements, |buckets|);
      totalElements := totalElements - 1;
      if 2 * totalElements + 1 >= |buckets| {
        return;
      }
      Rebuild(|buckets| / 2);
    }

    /** Rehashes every element into `newSize` fresh buckets, keeping `total_elements`. */
    method Rebuild(newSize: nat)
      requires 0 < newSize
      modifies this
      ensures buckets == Rebuilt(old(buckets), newSize, hash)
      ensures totalElements == old(totalElements)
      ensures Placed(buckets, hash) && Elements(buckets) == old(Elements(buckets))
    {
      var n: seq<seq<T>> := seq(newSize, _ => []);
      var i := 0;
      while i < |buckets|
        invariant 0 <= i <= |buckets|
        invariant n == Rebuilt(buckets[..i], newSize, hash)
      {
        var b := buckets[i];
        var j := 0;
        while j < |b|
          invariant 0 <= j <= |b|
          invariant n == PushAll(Rebuilt(buckets[..i], newSize, hash), b[..j], hash)
        {
          var e := b[j];
          var k := BucketOf(hash(e), newSize);
          n := n[k := [e] + n[k]];
          assert b[..j + 1][..j] == b[..j];
          j := j + 1;
        }
        assert b[..j] == b;
        assert buckets[..i + 1][..i] == buckets[..i];
        i := i + 1;
      }
      assert buckets[..i] == buckets;
      RebuiltProperties(buckets, newSize, hash);
      buckets := n;
    }
  }
}
