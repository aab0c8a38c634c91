/**
 * MSI-X bookkeeping of core/interrupt.cc: the wake-up hook that migrates an
 * interrupt towards the CPU its thread runs on most, and the
 * all-or-nothing registration of a driver's interrupt bindings.
 *
 * The CPU a woken thread runs on, the address `apic->compose_msix`
 * produces and the result of the PCI table write are parameters; the
 * device's MSI-X table itself is not modelled.
 */
module Interrupt {
  import opened Wrappers

  type CpuId = nat

  /** The number of wake-ups between two migration decisions. */
  const WAKES_PER_DECISION: nat := 1000

  /** `std::max_element` over a non-empty range: the first position holding the largest value. */
  ghost predicate IsFirstMax(s: seq<nat>, i: nat)
  {
    && i < |s|
    && (forall j :: 0 <= j < |s| ==> s[j] <= s[i])
    && (forall j :: 0 <= j < i ==> s[j] < s[i])
  }

  function FirstMax(s: seq<nat>): (i: nat)
    requires |s| > 0
    ensures IsFirstMax(s, i)
    decreases |s|
  {
    if |s| == 1 then 0
    else
      var init := s[..|s| - 1];
      var i := FirstMax(init);
      assert forall j :: 0 <= j < |init| ==> init[j] == s[j];
      if s[|s| - 1] > s[i] then |s| - 1 else i
  }

  /** There is only one first maximum. */
  lemma FirstMaxUnique(s: seq<nat>, i: nat)
    requires IsFirstMax(s, i)
    ensures i == FirstMax(s)
  {
    var k := FirstMax(s);
  }

  /** The statistics after one more wake-up on `cpu`. */
  function Bumped(s: seq<nat>, cpu: CpuId): (r: seq<nat>)
    requires cpu < |s|
    ensures |r| == |s| && r[cpu] == s[cpu] + 1
    ensures forall j :: 0 <= j < |s| && j != cpu ==> r[j] == s[j]
  {
    s[cpu := s[cpu] + 1]
  }

  /** The scan `std::max_element` makes. */
  method MaxElement(a: array<nat>) returns (imax: nat)
    requires a.Length > 0
    ensures IsFirstMax(a[..], imax)
  {
    imax := 0;
    var k := 1;
    while k < a.Length
      invariant 1 <= k <= a.Length && imax < k
      invariant forall j :: 0 <= j < k ==> a[j] <= a[imax]
      invariant forall j :: 0 <= j < imax ==> a[j] < a[imax]
    {
      if a[k] > a[imax] {
        imax := k;
      }
      k := k + 1;
    }
  }

  /**
   * `msix_wake_thread_with_affinity`: per-CPU wake-up counts, a counter of
   * wake-ups, and the CPU the interrupt was last steered to. Each call of
   * `set_affinity` is recorded in `migrations`.
   */
  class AffinityWaker {
    const stats: array<nat>
    var counter: nat
    var current: Option<CpuId>
    var migrations: seq<CpuId>

    ghost predicate Valid()
      reads this
    {
      stats.Length > 0 && counter < WAKES_PER_DECISION
    }

    /** One statistics slot per CPU, all zero; no CPU chosen yet. */
    constructor (cpus: nat)
      requires cpus > 0
      ensures Valid() && fresh(stats) && stats.Length == cpus
      ensures forall j :: 0 <= j < cpus ==> stats[j] == 0
      ensures counter == 0 && current.None? && migrations == []
    {
      stats := new nat[cpus](_ => 0);
      counter := 0;
      current := None;
      migrations := [];
    }

    /**
     * `operator()`: counts a wake-up on `cpu`; every thousandth call picks
     * the first CPU with the most wake-ups and, if that is not the current
     * one, steers the interrupt there and clears the statistics.
     */
    method Wake(cpu: CpuId)
      requires Valid() && cpu < stats.Length
      modifies this, stats
      ensures Valid()
      ensures counter == (old(counter) + 1) % WAKES_PER_DECISION
      ensures old(counter) + 1 < WAKES_PER_DECISION ==>
                && stats[..] == Bumped(old(stats[..]), cpu)
                && current == old(current) && migrations == old(migrations)
      ensures old(counter) + 1 == WAKES_PER_DECISION ==>
                var target := FirstMax(Bumped(old(stats[..]), cpu));
                if Some(target) != old(current) then
                  && current == Some(target) && migrations == old(migrations) + [target]
                  && forall j :: 0 <= j < stats.Length ==> stats[j] == 0
                else
                  && stats[..] == Bumped(old(stats[..]), cpu)
                  && current == old(current) && migrations == old(migrations)
    {
      stats[cpu] := stats[cpu] + 1;
      assert stats[..] == Bumped(old(stats[..]), cpu);
      counter := counter + 1;
      if counter == WAKES_PER_DECISION {
        counter := 0;
        var imax := MaxElement(stats);
        FirstMaxUnique(stats[..], imax);
        if current != Some(imax) {
          current := Some(imax);
          migrations := migrations + [imax];
          var k := 0;
          while k < stats.Length
            invariant 0 <= k <= stats.Length
            invariant forall j :: 0 <= j < k ==> stats[j] == 0
            modifies stats
          {
            stats[k] := 0;
            k := k + 1;
          }
        }
      }
    }
  }

  /** What a vector's handler does: run the driver's ISR if it has one, then an affinity waker for `thread`. */
  datatype Handler = Handler(isr: Option<nat>, thread: nat)

  /** `msix_vector`: an interrupt vector and the MSI-X table entries routed to it. */
  class MsixVector {
    var entryIds: seq<nat>
    var handler: Option<Handler>

    constructor ()
      ensures entryIds == [] && handler.None?
    {
      entryIds := [];
      handler := None;
    }

    method AddEntryId(entryId: nat)
      modifies this
      ensures entryIds == old(entryIds) + [entryId] && handler == old(handler)
    {
      entryIds := entryIds + [entryId];
    }

    method SetHandler(h: Handler)
      modifies this
      ensures handler == Some(h) && entryIds == old(entryIds)
    {
      handler := Some(h);
    }
  }

  /** `msix_binding`: a table entry, an optional ISR and the thread to wake. */
  datatype Binding = Binding(entry: nat, isr: Option<nat>, thread: nat)

  /** The two outcomes `setup_entry` depends on: the composed message address and the table write. */
  datatype EntryOutcome = EntryOutcome(addr: nat, writeOk: bool)

  predicate SetupSucceeds(o: EntryOutcome)
  {
    o.addr != 0 && o.writeOk
  }

  /** Whether every binding's entry can be set up. */
  predicate AllSucceed(outcomes: seq<EntryOutcome>)
  {
    forall i :: 0 <= i < |outcomes| ==> SetupSucceeds(outcomes[i])
  }

  function Min(a: nat, b: nat): nat
  {
    if a < b then a else b
  }

  /**
   * `interrupt_manager` for one PCI function with `numEntries` MSI-X
   * entries. `Live` holds the vectors allocated and not yet deleted.
   */
  class InterruptManager {
    const numEntries: nat
    var easyVectors: seq<MsixVector>
    var msixEnabled: bool
    ghost var Live: set<MsixVector>

    ghost predicate Valid()
      reads this
    {
      forall i :: 0 <= i < |easyVectors| ==> easyVectors[i] in Live
    }

    constructor (numEntries: nat)
      ensures Valid() && this.numEntries == numEntries
      ensures easyVectors == [] && !msixEnabled && Live == {}
    {
      this.numEntries := numEntries;
      easyVectors := [];
      msixEnabled := false;
      Live := {};
    }

    /** Allocates as many fresh vectors as asked for, but no more than the device has entries. */
    method RequestVectors(n: nat) returns (results: seq<MsixVector>)
      modifies this
      ensures |results| == Min(n, numEntries)
      ensures forall i :: 0 <= i < |results| ==> fresh(results[i])
      ensures forall i :: 0 <= i < |results| ==> results[i].entryIds == [] && results[i].handler.None?
      ensures forall i, j :: 0 <= i < j < |results| ==> results[i] != results[j]
      ensures Live == old(Live) + set v | v in results
      ensures easyVectors == old(easyVectors) && msixEnabled == old(msixEnabled)
    {
      results := [];
      var num := Min(n, numEntries);
      for i := 0 to num
        invariant |results| == i
        invariant forall k :: 0 <= k < i ==> fresh(results[k])
        invariant forall k :: 0 <= k < i ==> results[k].entryIds == [] && results[k].handler.None?
        invariant forall k, j :: 0 <= k < j < i ==> results[k] != results[j]
        invariant Live == old(Live) + set v | v in results
        invariant easyVectors == old(easyVectors) && msixEnabled == old(msixEnabled)
      {
        var v := new MsixVector();
        results := results + [v];
        Live := Live + {v};
      }
    }

    /** Deletes every vector of `vectors`. */
    method FreeVectors(vectors: seq<MsixVector>)
      modifies this
      ensures Live == old(Live) - set v | v in vectors
      ensures easyVectors == old(easyVectors) && msixEnabled == old(msixEnabled)
    {
      for i := 0 to |vectors|
        invariant Live == old(Live) - set v | v in vectors[..i]
        invariant easyVectors == old(easyVectors) && msixEnabled == old(msixEnabled)
      {
        assert vectors[..i + 1] == vectors[..i] + [vectors[i]];
        Live := Live - {vectors[i]};
      }
      assert vectors[..|vectors|] == vectors;
    }

    /** Installs the handler; always succeeds. */
    method AssignIsr(vector: MsixVector, h: Handler) returns (ok: bool)
      modifies vector
      ensures ok && vector.handler == Some(h) && vector.entryIds == old(vector.entryIds)
    {
      vector.SetHandler(h);
      ok := true;
    }

    /**
     * Routes table entry `entryId` to `msix`: fails when the composed
     * address is 0 or the table write fails, and records the entry on the
     * vector only on success.
     */
    method SetupEntry(entryId: nat, msix: MsixVector, outcome: EntryOutcome) returns (ok: bool)
      modifies msix
      ensures ok <==> SetupSucceeds(outcome)
      ensures ok ==> msix.entryIds == old(msix.entryIds) + [entryId]
      ensures !ok ==> msix.entryIds == old(msix.entryIds)
      ensures msix.handler == old(msix.handler)
    {
      if outcome.addr == 0 {
        return false;
      }
      if !outcome.writeOk {
        return false;
      }
      msix.AddEntryId(entryId);
      ok := true;
    }

    /**
     * Allocates one vector per binding, installs each handler and routes
     * each entry. If too few vectors are available or any entry cannot be
     * set up, every allocated vector is deleted and the registered vectors
     * are left as they were; otherwise the new vectors become the
     * registered ones, binding `i` on vector `i`.
     */
    method EasyRegister(bindings: seq<Binding>, outcomes: seq<EntryOutcome>) returns (ok: bool)
      requires Valid() && |outcomes| == |bindings|
      modifies this
      ensures Valid()
      ensures ok <==> |bindings| <= numEntries && AllSucceed(outcomes)
      ensures !ok ==> easyVectors == old(easyVectors) && Live == old(Live)
      ensures ok ==> && |easyVectors| == |bindings|
                     && Live == old(Live) + set v | v in easyVectors
                     && forall i :: 0 <= i < |bindings| ==>
                          && fresh(easyVectors[i])
                          && easyVectors[i].entryIds == [bindings[i].entry]
                          && easyVectors[i].handler == Some(Handler(bindings[i].isr, bindings[i].thread))
    {
      var n := |bindings|;
      var claimed := RequestVectors(n);
      if |claimed| != n {
        FreeVectors(claimed);
        return false;
      }
      msixEnabled := true;
      for idx := 0 to n
        invariant Live == old(Live) + set v | v in claimed
        invariant easyVectors == old(easyVectors)
        invariant forall i :: 0 <= i < n ==> fresh(claimed[i])
        invariant forall i :: idx <= i < n ==> claimed[i].entryIds == [] && claimed[i].handler.None?
        invariant forall i :: 0 <= i < idx ==> SetupSucceeds(outcomes[i])
        invariant forall i :: 0 <= i < idx ==>
                    && claimed[i].entryIds == [bindings[i].entry]
                    && claimed[i].handler == Some(Handler(bindings[i].isr, bindings[i].thread))
      {
        var vec := claimed[idx];
        var b := bindings[idx];
        var assignOk := AssignIsr(vec, Handler(b.isr, b.thread));
        if !assignOk {
          // `assign_isr` always succeeds, so the source's cleanup here (free
          // the claimed vectors, answer false) cannot run.
          assert false;
        }
        var setupOk := SetupEntry(b.entry, vec, outcomes[idx]);
        if !setupOk {
          FreeVectors(claimed);
          assert (set v | v in claimed) !! (set v | v in old(easyVectors));
          return false;
        }
      }
      easyVectors := claimed;
      ok := true;
    }

    /** Deletes the registered vectors and forgets them. */
    method EasyUnregister()
      requires Valid()
      modifies this
      ensures Valid()
      ensures easyVectors == [] && Live == old(Live) - set v | v in old(easyVectors)
    {
      FreeVectors(easyVectors);
      easyVectors := [];
    }
  }
}
