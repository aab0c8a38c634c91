/**
 * The wait queue of include/osv/waitqueue.hh and core/waitqueue.cc: a FIFO
 * of wait records linked through their `next` pointers, from the oldest
 * (next to be woken) to the newest.
 *
 * A wait record is named by an id unique to one wait. A record's `next`
 * pointer is the entry for it in the map `next`; a record without an entry
 * has a null `next`. Handing a record to its thread's `wake_lock` is recorded as
 * an event in `handoffs`, and a record counts as woken once it has been
 * handed off.
 */
module Waitqueue {
  import opened Wrappers

  type RecordId = nat
  type MutexId = nat

  /** One call `wr->thread()->wake_lock(&mtx, wr)`. */
  datatype Handoff = Handoff(record: RecordId, mutex: MutexId)

  ghost predicate Distinct(s: seq<RecordId>)
  {
    forall i, j :: 0 <= i < j < |s| ==> s[i] != s[j]
  }

  /** `next` links `w` front to back and the last record's `next` is null. */
  ghost predicate Chain(w: seq<RecordId>, next: map<RecordId, RecordId>)
  {
    && (forall i :: 0 <= i < |w| - 1 ==> w[i] in next && next[w[i]] == w[i + 1])
    && (w != [] ==> w[|w| - 1] !in next)
  }

  /** The hand-offs of `rs`, in order, all with mutex `m`. */
  function HandoffsOf(rs: seq<RecordId>, m: MutexId): (h: seq<Handoff>)
    ensures |h| == |rs|
    ensures forall i :: 0 <= i < |rs| ==> h[i] == Handoff(rs[i], m)
  {
    if rs == [] then [] else [Handoff(rs[0], m)] + HandoffsOf(rs[1..], m)
  }

  /** `s` without `r`, the others in their order. */
  function Without(s: seq<RecordId>, r: RecordId): (t: seq<RecordId>)
    ensures r !in t
    ensures forall x :: x in t <==> x in s && x != r
  {
    if s == [] then [] else (if s[0] == r then [] else [s[0]]) + Without(s[1..], r)
  }

  lemma {:induction false} WithoutAbsent(s: seq<RecordId>, r: RecordId)
    requires r !in s
    ensures Without(s, r) == s
  {
    if s != [] {
      WithoutAbsent(s[1..], r);
    }
  }

  /** In a list without repeats, removing `r` cuts out exactly its one position. */
  lemma {:induction false} WithoutAt(s: seq<RecordId>, i: nat)
    requires Distinct(s) && i < |s|
    ensures Without(s, s[i]) == s[..i] + s[i + 1..]
  {
    if i == 0 {
      WithoutAbsent(s[1..], s[0]);
    } else {
      WithoutAt(s[1..], i - 1);
      assert s[1..][i - 1] == s[i];
      assert s[1..][..i - 1] == s[1..i];
      assert s[1..][i..] == s[i + 1..];
      assert s[..i] == [s[0]] + s[1..i];
    }
  }

  /** Removing a record keeps the rest without repeats. */
  lemma WithoutKeepsDistinct(s: seq<RecordId>, i: nat)
    requires Distinct(s) && i < |s|
    ensures Distinct(s[..i] + s[i + 1..])
  {
    var t := s[..i] + s[i + 1..];
    forall a, b | 0 <= a < b < |t|
      ensures t[a] != t[b]
    {
      var a' := if a < i then a else a + 1;
      var b' := if b < i then b else b + 1;
      assert t[a] == s[a'] && t[b] == s[b'];
    }
  }

  /**
   * The links after unlinking position `i`: the predecessor takes over the
   * successor, or loses its link when `i` was the newest. The unlinked
   * record keeps its own, now dangling, link.
   */
  function Relinked(w: seq<RecordId>, next: map<RecordId, RecordId>, i: nat): map<RecordId, RecordId>
    requires i < |w|
  {
    if i == 0 then next
    else if i + 1 < |w| then next[w[i - 1] := w[i + 1]]
    else next - {w[i - 1]}
  }

  /**
   * Unlinking position `i` as the corrected `disarm` does (the predecessor,
   * or `oldest`, takes over the successor) keeps the chain well formed.
   */
  lemma UnlinkKeepsChain(w: seq<RecordId>, next: map<RecordId, RecordId>, i: nat,
                         next': map<RecordId, RecordId>)
    requires Distinct(w) && Chain(w, next) && i < |w|
    requires next' == Relinked(w, next, i)
    ensures Chain(w[..i] + w[i + 1..], next')
  {
    var t := w[..i] + w[i + 1..];
    forall j | 0 <= j < |t| - 1
      ensures t[j] in next' && next'[t[j]] == t[j + 1]
    {
      if j < i - 1 {
        assert t[j] == w[j] && t[j + 1] == w[j + 1] && w[j] != w[i - 1] && w[j] != w[i];
      } else if j == i - 1 {
        assert t[j] == w[i - 1] && t[j + 1] == w[i + 1];
      } else {
        assert t[j] == w[j + 1] && t[j + 1] == w[j + 2] && w[j + 1] != w[i];
        assert i > 0 ==> w[j + 1] != w[i - 1];
      }
    }
    if t != [] {
      if i == |w| - 1 {
        assert t[|t| - 1] == w[i - 1];
      } else {
        assert t[|t| - 1] == w[|w| - 1];
        assert i > 0 ==> w[|w| - 1] != w[i - 1];
      }
    }
  }

  /** `oldest` and `newest` point at the ends of `w`, and are null when it is empty. */
  ghost predicate Ends(w: seq<RecordId>, oldest: Option<RecordId>, newest: Option<RecordId>)
  {
    && (w == [] ==> oldest == None && newest == None)
    && (w != [] ==> oldest == Some(w[0]) && newest == Some(w[|w| - 1]))
  }

  /** No record of `w` has been handed off. */
  ghost predicate Unwoken(w: seq<RecordId>, handoffs: seq<Handoff>)
  {
    forall i, j :: 0 <= i < |w| && 0 <= j < |handoffs| ==> handoffs[j].record != w[i]
  }

  /**
   * After unlinking position `i`, `oldest` is the successor when the first
   * record went, and `newest` the predecessor when the last record went.
   */
  lemma UnlinkKeepsEnds(w: seq<RecordId>, i: nat, oldest': Option<RecordId>, newest': Option<RecordId>)
    requires i < |w|
    requires oldest' == if i > 0 then Some(w[0]) else if 1 < |w| then Some(w[1]) else None
    requires newest' == if i + 1 < |w| then Some(w[|w| - 1]) else if i > 0 then Some(w[i - 1]) else None
    ensures Ends(w[..i] + w[i + 1..], oldest', newest')
  {
    var t := w[..i] + w[i + 1..];
    if t != [] {
      if i > 0 {
        assert t[0] == w[0];
      } else {
        assert t[0] == w[1];
      }
      if i + 1 < |w| {
        assert t[|t| - 1] == w[|w| - 1];
      } else {
        assert t[|t| - 1] == w[i - 1];
      }
    }
  }

  lemma UnlinkKeepsUnwoken(w: seq<RecordId>, handoffs: seq<Handoff>, i: nat)
    requires Unwoken(w, handoffs) && i < |w|
    ensures Unwoken(w[..i] + w[i + 1..], handoffs)
  {
    var t := w[..i] + w[i + 1..];
    forall a, j | 0 <= a < |t| && 0 <= j < |handoffs|
      ensures handoffs[j].record != t[a]
    {
      assert t[a] == if a < i then w[a] else w[a + 1];
    }
  }

  /**
   * `oldest` and `newest` are the ends of the chain `w` linked by `next`; a
   * queued record appears once and has not been woken.
   */
  ghost predicate Queue(w: seq<RecordId>, next: map<RecordId, RecordId>, oldest: Option<RecordId>,
                        newest: Option<RecordId>, handoffs: seq<Handoff>)
  {
    && Distinct(w)
    && Chain(w, next)
    && Ends(w, oldest, newest)
    && Unwoken(w, handoffs)
  }

  /** Unlinking position `i` as the corrected `disarm` does keeps a well-formed queue. */
  lemma UnlinkKeepsQueue(w: seq<RecordId>, next: map<RecordId, RecordId>, oldest: Option<RecordId>,
                         newest: Option<RecordId>, handoffs: seq<Handoff>, i: nat)
    requires Queue(w, next, oldest, newest, handoffs) && i < |w|
    ensures Queue(w[..i] + w[i + 1..], Relinked(w, next, i),
                  if i > 0 then Some(w[0]) else if 1 < |w| then Some(w[1]) else None,
                  if i + 1 < |w| then Some(w[|w| - 1]) else if i > 0 then Some(w[i - 1]) else None,
                  handoffs)
  {
    UnlinkKeepsChain(w, next, i, Relinked(w, next, i));
    UnlinkKeepsEnds(w, i, if i > 0 then Some(w[0]) else if 1 < |w| then Some(w[1]) else None,
                    if i + 1 < |w| then Some(w[|w| - 1]) else if i > 0 then Some(w[i - 1]) else None);
    UnlinkKeepsUnwoken(w, handoffs, i);
    WithoutKeepsDistinct(w, i);
  }

  /** `waitqueue`. */
  class Waitqueue {
    var oldest: Option<RecordId>
    var newest: Option<RecordId>
    var next: map<RecordId, RecordId>
    var handoffs: seq<Handoff>
    /** The queued records, oldest first. */
    ghost var Waiters: seq<RecordId>

    /** `waiter::poll`: the record has been handed off, and so is no longer queued. */
    predicate Woken(r: RecordId): (w: bool)
      reads this
      ensures w && Valid() ==> r !in Waiters
    {
      exists j :: 0 <= j < |handoffs| && handoffs[j].record == r
    }

    /**
     * `oldest` and `newest` are the ends of the chain; a queued record
     * appears once and has not been woken.
     */
    ghost predicate Valid()
      reads this
    {
      Queue(Waiters, next, oldest, newest, handoffs)
    }

    constructor ()
      ensures Valid() && Waiters == [] && handoffs == []
      ensures oldest.None? && newest.None? && next == map[]
    {
      oldest, newest := None, None;
      next := map[];
      handoffs := [];
      Waiters := [];
    }

    /**
     * `waiter::arm`: appends a waiter's own record as the newest. The record
     * is the one built with the waiter, so its `next` starts out null: any
     * link left under its id by an earlier wait is dropped first.
     */
    method Arm(r: RecordId)
      requires Valid() && r !in Waiters && !Woken(r)
      modifies this
      ensures Valid()
      ensures Waiters == old(Waiters) + [r] && handoffs == old(handoffs)
      ensures newest == Some(r)
      ensures oldest == if old(oldest).None? then Some(r) else old(oldest)
      ensures next == if old(newest).None? then old(next) - {r}
                      else (old(next) - {r})[old(newest).value := r]
    {
      next := next - {r};
      if oldest.None? {
        oldest := Some(r);
      } else {
        next := next[newest.value := r];
      }
      newest := Some(r);
      Waiters := Waiters + [r];
    }

    /**
     * `waitqueue::wake_one`: hands the oldest record to `wake_lock` with
     * `mtx`; the others keep their order. Does nothing on an empty queue.
     */
    method WakeOne(mtx: MutexId)
      requires Valid()
      modifies this
      ensures Valid()
      ensures old(Waiters) == [] ==> unchanged(this)
      ensures old(Waiters) != [] ==> && Waiters == old(Waiters)[1..]
                                     && handoffs == old(handoffs) + [Handoff(old(Waiters)[0], mtx)]
                                     && Woken(old(Waiters)[0])
                                     && next == old(next)
      ensures |old(Waiters)| == 1 ==> oldest.None? && newest.None?
    {
      if oldest.Some? {
        var wr := oldest.value;
        if wr in next {
          oldest := Some(next[wr]);
        } else {
          oldest := None;
          newest := None;
        }
        handoffs := handoffs + [Handoff(wr, mtx)];
        Waiters := Waiters[1..];
        assert handoffs[|handoffs| - 1].record == wr;
      }
    }

    /**
     * `waitqueue::wake_all`: empties the queue, then hands every record
     * that was in it to `wake_lock`, oldest first.
     */
    method WakeAll(mtx: MutexId)
      requires Valid()
      modifies this
      ensures Valid()
      ensures Waiters == [] && oldest.None? && newest.None? && next == old(next)
      ensures handoffs == old(handoffs) + HandoffsOf(old(Waiters), mtx)
      ensures forall r :: r in old(Waiters) ==> Woken(r)
    {
      ghost var w := Waiters;
      var wr := oldest;
      oldest, newest := None, None;
      Waiters := [];
      ghost var k := 0;
      while wr.Some?
        invariant 0 <= k <= |w|
        invariant wr == if k < |w| then Some(w[k]) else None
        invariant handoffs == old(handoffs) + HandoffsOf(w[..k], mtx)
        invariant next == old(next) && Waiters == [] && oldest.None? && newest.None?
        decreases |w| - k
      {
        var nextWr := if wr.value in next then Some(next[wr.value]) else None;
        handoffs := handoffs + [Handoff(wr.value, mtx)];
        assert w[..k + 1] == w[..k] + [w[k]];
        HandoffsOfAppend(w[..k], [w[k]], mtx);
        wr := nextWr;
        k := k + 1;
      }
      assert w[..k] == w;
      forall r | r in w
        ensures Woken(r)
      {
        var i :| 0 <= i < |w| && w[i] == r;
        assert handoffs[|old(handoffs)| + i].record == r;
      }
    }

    /**
     * `waiter::disarm`, corrected: a woken record is left alone; otherwise
     * the record is unlinked by walking the chain, and when it was the
     * newest its predecessor becomes the newest.
     */
    method Disarm(r: RecordId)
      requires Valid()
      modifies this
      ensures Valid() && handoffs == old(handoffs)
      ensures old(Woken(r)) ==> unchanged(this)
      ensures !old(Woken(r)) ==> Waiters == Without(old(Waiters), r)
    {
      if Woken(r) {
        return;
      }
      var prev: Option<RecordId> := None;
      var cur := oldest;
      ghost var i := 0;
      while cur.Some? && cur.value != r
        invariant 0 <= i <= |Waiters|
        invariant cur == if i < |Waiters| then Some(Waiters[i]) else None
        invariant prev == if i == 0 then None else Some(Waiters[i - 1])
        invariant r !in Waiters[..i]
        decreases |Waiters| - i
      {
        var c := cur.value;
        assert Waiters[..i + 1] == Waiters[..i] + [c];
        prev := cur;
        cur := if c in next then Some(next[c]) else None;
        i := i + 1;
      }
      if cur.None? {
        assert Waiters[..i] == Waiters;
        WithoutAbsent(Waiters, r);
        return;
      }
      var succ := if r in next then Some(next[r]) else None;
      assert succ == if i + 1 < |Waiters| then Some(Waiters[i + 1]) else None;
      var next' := next;
      if prev.None? {
        oldest := succ;
      } else if succ.Some? {
        next' := next[prev.value := succ.value];
      } else {
        next' := next - {prev.value};
      }
      if succ.None? {
        newest := prev;
      }
      assert r == Waiters[i] && next' == Relinked(Waiters, next, i);
      UnlinkKeepsQueue(Waiters, next, old(oldest), old(newest), handoffs, i);
      WithoutAt(Waiters, i);
      next := next';
      Waiters := Waiters[..i] + Waiters[i + 1..];
    }
  }

  /**
   * Two waiters arm in turn and one `wake_one` follows: the first is handed
   * off and the second becomes the oldest and only waiter.
   */
  method ArmTwiceThenWakeOne(mtx: MutexId) returns (q: Waitqueue)
    ensures q.Valid() && q.Waiters == [2] && q.handoffs == [Handoff(1, mtx)]
    ensures q.oldest == Some(2) && q.newest == Some(2)
  {
    q := new Waitqueue();
    q.Arm(1);
    q.Arm(2);
    q.WakeOne(mtx);
  }

  lemma {:induction false} HandoffsOfAppend(a: seq<RecordId>, b: seq<RecordId>, m: MutexId)
    ensures HandoffsOf(a + b, m) == HandoffsOf(a, m) + HandoffsOf(b, m)
  {
  }

  // ---------------------------------------------------------------------
  // `disarm` as written

  /** What the unlinking in `waiter::disarm` as written leaves, or the null dereference it makes. */
  datatype DisarmOutcome = NullDereference | Unlinked(waiters: seq<RecordId>, newest: Option<RecordId>)

  /** The first position of `r` in `s`. */
  function IndexOf(s: seq<RecordId>, r: RecordId): (i: nat)
    requires r in s
    ensures i < |s| && s[i] == r && r !in s[..i]
  {
    if s[0] == r then 0 else IndexOf(s[1..], r) + 1
  }

  /**
   * The walk of `disarm` as written over the queued records `w`: the
   * record's link is replaced by its successor, and then the successor's
   * `next` is read, which dereferences null when the record was the last
   * one. `newest` is only ever set to the successor.
   */
  function DisarmAsWritten(w: seq<RecordId>, newest: Option<RecordId>, r: RecordId): DisarmOutcome
  {
    if r !in w then Unlinked(w, newest)
    else
      var i := IndexOf(w, r);
      if i == |w| - 1 then NullDereference
      else Unlinked(w[..i] + w[i + 1..], if i + 1 == |w| - 1 then Some(w[i + 1]) else newest)
  }

  /** Disarming the newest record, e.g. the only waiter after a timeout, dereferences null. */
  lemma DisarmAsWrittenFailsOnNewest(w: seq<RecordId>, newest: Option<RecordId>)
    requires Distinct(w) && w != []
    ensures DisarmAsWritten(w, newest, w[|w| - 1]) == NullDereference
  {
    var r := w[|w| - 1];
    var i := IndexOf(w, r);
    assert w[i] == w[|w| - 1];
  }

  lemma DisarmAsWrittenCounterexample()
    ensures DisarmAsWritten([1], Some(1), 1) == NullDereference
  {
    DisarmAsWrittenFailsOnNewest([1], Some(1));
  }

  /** Away from the tail the code as written agrees with the corrected unlinking and keeps `newest`. */
  lemma DisarmAsWrittenAgreesBeforeTail(w: seq<RecordId>, r: RecordId)
    requires Distinct(w) && w != [] && r in w && r != w[|w| - 1]
    ensures DisarmAsWritten(w, Some(w[|w| - 1]), r) == Unlinked(Without(w, r), Some(w[|w| - 1]))
  {
    var i := IndexOf(w, r);
    WithoutAt(w, i);
  }
}
