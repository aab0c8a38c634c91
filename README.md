# OSv kernel data structures, modelled in Dafny

This project models five pieces of the OSv kernel whose sequential behaviour
can be stated and proves properties about them:

- **Fixed-size rings** (`include/lockfree/ring.hh`), in `ring.dfy`.
  - `ring_spsc` is a bounded FIFO over an array of `MaxSize` slots.
  - `ring_mpsc` adds an index reservation, a deferred `push_to` and an
    "empty" sentinel.
  - Both keep free-running 32-bit `unsigned` indices. Element `i` is stored
    in slot `i % MaxSize`.
  - `RingSpsc` keeps a ghost `Contents` queue, and its `Valid()` ties every
    queued element to its array slot across the 32-bit wrap. This needs
    `MaxSize` to be a power of two, which `Bits.WrapKeepsResidue` shows is
    enough.
- **The resizable chained hash table** (`include/osv/rcu-hashtable.hh`, the
  owner-side `mutable_table` operations), in `rcu_hashtable.dfy`.
  - Buckets are a sequence of sequences, and the hash is a function parameter.
  - An element lives in bucket `hash & (size - 1)`.
  - The table doubles the bucket count when the load reaches two per bucket
    and halves it when the load drops below one half.
  - `rebuild` is specified by the pure function `Rebuilt`, which pushes every
    element to the front of its new bucket, bucket by bucket.
- **The Van Jacobson packet classifier** (`include/vj.hh`, `core/vj.cc`), in
  `vj.dfy`.
  - A flow is a five-field tuple with an XOR hash.
  - `add` and `remove` post control messages. `process_control` drains them
    into a flow map; `insert` never overwrites an existing flow.
  - `try_deliver` first decides from the header fields (`Classify`). It then
    looks up the reversed flow and pushes the packet onto that flow's
    `RingSpsc`.
- **The wait queue** (`include/osv/waitqueue.hh`, `core/waitqueue.cc`), in
  `waitqueue.dfy`.
  - The queue is an `oldest`/`newest` pair and a `next` map standing for the
    records' `next` pointers. A ghost `Waiters` sequence is the chain from
    oldest to newest.
  - Every `wake_lock` hand-off is appended to a `handoffs` log.
- **MSI-X bookkeeping** (`core/interrupt.cc`), in `interrupt.dfy`.
  - The affinity-migrating wake hook has per-CPU counts, a counter modulo
    1000, the first maximum, and migrate-and-clear.
  - The all-or-nothing `easy_register` works over freshly allocated vector
    objects. The vectors that are allocated and not yet deleted are tracked
    in a ghost set `Live`.

Shared pieces:

- `bits.dfy` holds the 32-bit arithmetic (`Wrap`, `Sub32`, `Inc32`), powers
  of two, and the bitwise mask `h & (n - 1)`. `BitAnd` defines it on naturals,
  and `Mask` proves that for a power of two `n` it is `h % n`.
- `wrappers.dfy` holds the `Option` type. It stands for null pointers and
  `end()` iterators.

The classifier's control message is modelled as `core/vj.cc` uses it.
`core/vj.cc:71-79` fills in a tuple, a ring and an ADD/REMOVE type.
`include/vj.hh:62-68` declares the message with only a `next` pointer and a
virtual `apply`.

## Model

| member | source | states |
|---|---|---|
| Bits.Sub32 | include/lockfree/ring.hh:41 | `end - beg` on `unsigned` is the forward distance from `beg` to `end`: adding it to `beg` modulo 2^32 gives back `end`, and it is the plain difference when `beg <= end` |
| Bits.Inc32 | include/lockfree/ring.hh:46 | `end + 1` on `unsigned` is one step forward and never equals the old index |
| Bits.WidenWindow | include/lockfree/ring.hh:46 | advancing `_end` of a window shorter than 2^32 - 1 widens `end - beg` by exactly one, across the wrap too |
| Bits.NarrowWindow | include/lockfree/ring.hh:61 | advancing `_begin` of a non-empty window narrows `end - beg` by exactly one |
| Bits.WrapKeepsResidue | include/lockfree/ring.hh:45 | reducing an index modulo 2^32 does not change its slot `index % MaxSize` when `MaxSize` is a power of two, so the slot sequence survives the wrap |
| Bits.DividesWord | include/lockfree/ring.hh:45 | every power of two up to 2^32 divides 2^32 |
| Bits.BitAndBound | include/osv/rcu-hashtable.hh:212 | `h & (n - 1)` never exceeds `n - 1`, so the bucket index is in range for any non-zero size |
| Bits.Mask | include/osv/rcu-hashtable.hh:212 | for a power of two `n`, `h & (n - 1)` equals `h % n` |
| Bits.MaskIsMod | include/osv/rcu-hashtable.hh:276 | the binary-digit definition of `&` with `n - 1` agrees with `% n` for every power of two `n` |
| Ring.SlotsDistinct | include/lockfree/ring.hh:45 | indices fewer than `MaxSize` apart occupy different slots, so a push never overwrites a queued element |
| Ring.AppendKeepsLayout | include/lockfree/ring.hh:45 | writing slot `end % MaxSize` appends the element and keeps every queued element in its slot |
| Ring.DropKeepsLayout | include/lockfree/ring.hh:60-61 | after `_begin` advances, the remaining elements are found from the new `_begin` |
| Ring.RingSpsc.constructor | include/lockfree/ring.hh:34 | a new ring is empty with both indices 0 |
| Ring.RingSpsc.Push | include/lockfree/ring.hh:36-49 | fails and changes nothing iff `end - beg >= MaxSize`; otherwise writes slot `end % MaxSize`, advances `_end` by one, keeps `_begin`, and appends the element to the queue; it succeeds exactly when `modified_since` of a prior snapshot becomes true |
| Ring.RingSpsc.Pop | include/lockfree/ring.hh:51-64 | with the emptiness test corrected to `beg == end`: fails and leaves the output untouched iff the ring is empty; otherwise yields the oldest element, advances `_begin` by one and drops that element from the queue; never changes `modified_since` |
| Ring.RingSpsc.Size | include/lockfree/ring.hh:66-71 | `end - beg` is the number of queued elements and at most `MaxSize` |
| Ring.RingSpsc.Snapshot | include/lockfree/ring.hh:73-75 | a snapshot just taken reports no modification |
| Ring.RingSpsc.ModifiedSince | include/lockfree/ring.hh:77-79 | true iff the number of pushes since the snapshot, modulo 2^32, is not zero |
| Ring.PopGuardAsWrittenMissesWrappedElements | include/lockfree/ring.hh:56 | whenever `_end` has wrapped below `_begin`, the ring holds elements but `beg >= end` reports it empty |
| Ring.PopGuardAsWrittenCounterexample | include/lockfree/ring.hh:154 | `_begin = 0xFFFFFFFF`, `_end = 0` is one queued element that the test `beg >= end` reports as empty |
| Ring.MpscPushReturnAsWrittenIsAmbiguous | include/lockfree/ring.hh:125-132 | an overflow at claimed index 0 returns 0, the success value |
| Ring.RingMpsc.constructor | include/lockfree/ring.hh:112-116 | every slot starts as the empty sentinel and all three indices are 0 |
| Ring.RingMpsc.Push | include/lockfree/ring.hh:118-133 | always claims `_insert_idx`; on overflow (`in_idx - beg >= MaxSize`) reports the claimed index and writes nothing; otherwise writes slot `in_idx % MaxSize` and advances `_end` |
| Ring.RingMpsc.PushTo | include/lockfree/ring.hh:135-147 | fills the reserved index iff it is within `MaxSize` of `_begin`, advancing `_end`; otherwise changes nothing |
| Ring.RingMpsc.Pop | include/lockfree/ring.hh:149-167 | with the emptiness test corrected to `beg == end`: fails on an empty ring with the output untouched, fails on an unfilled slot with the output set to the sentinel, and otherwise yields the slot, resets it to the sentinel and advances `_begin` |
| Ring.RingMpsc.Size | include/lockfree/ring.hh:169-174 | the result is the distance that takes `_begin` to `_end` modulo 2^32 |
| RcuHashtable.BucketOf | include/osv/rcu-hashtable.hh:121 | the bucket `hash & (size - 1)` is in range, and is `hash % size` for a power-of-two size |
| RcuHashtable.Table.constructor | include/osv/rcu-hashtable.hh:27-28 | a new table has exactly one empty bucket and `total_elements == 0` |
| RcuHashtable.Table.Find | include/osv/rcu-hashtable.hh:209-220 | with the caller's hash and comparison: the result is the first element of the bucket `hash(key) & (size - 1)` that compares equal to the key, or `end()` exactly when none of that bucket's elements does |
| RcuHashtable.Table.FindElement | include/osv/rcu-hashtable.hh:112 | with the table's own hash and `==`: the result is the first copy of the element in its own bucket, or `end()` exactly when the table does not hold it (the lookup of `read_only_table::find`, lines 119-129) |
| RcuHashtable.MemberIffInOwnBucket | include/osv/rcu-hashtable.hh:212 | in a well-placed table an element is stored iff it is in the bucket its hash selects, which is why `find` looks at one bucket only |
| RcuHashtable.Table.EmplaceFront | include/osv/rcu-hashtable.hh:224-234 | increments `total_elements`, doubles the buckets exactly when the new total reaches `2 * size`, adds exactly the new element, and puts it at the front of its bucket |
| RcuHashtable.Table.Erase | include/osv/rcu-hashtable.hh:237-241 | removes exactly the element at the position, decrements `total_elements`, and halves the buckets exactly when `2 * total + 1 < size` |
| RcuHashtable.Table.IncreaseSizeMaybeExpand | include/osv/rcu-hashtable.hh:245-253 | counts one more element and rebuilds into `max(1, 2 * size)` buckets exactly when the new total is at least `2 * size` |
| RcuHashtable.Table.DecreaseSizeMaybeContract | include/osv/rcu-hashtable.hh:257-265 | counts one element less and rebuilds into `size / 2` buckets exactly when `2 * total + 1 < size` |
| RcuHashtable.Table.Rebuild | include/osv/rcu-hashtable.hh:268-280 | for any non-zero size, produces the `Rebuilt` bucket array, keeps `total_elements`, keeps the multiset of elements and places every element by the new mask |
| RcuHashtable.RebuiltProperties | include/osv/rcu-hashtable.hh:274-278 | rehashing keeps the multiset of elements and puts each one in the bucket its hash selects among the new buckets |
| RcuHashtable.PushAllProperties | include/osv/rcu-hashtable.hh:275-277 | pushing a bucket's elements to the front of their new buckets adds exactly those elements and keeps every element placed |
| RcuHashtable.InsertFrontElements | include/osv/rcu-hashtable.hh:231-232 | inserting at the front of the selected bucket adds exactly one copy of the element |
| RcuHashtable.InsertFrontPlaced | include/osv/rcu-hashtable.hh:231-232 | inserting at the front of the selected bucket keeps every element in its own bucket |
| RcuHashtable.RemoveAtProperties | include/osv/rcu-hashtable.hh:239 | erasing a position removes exactly that element and keeps the others placed |
| RcuHashtable.InsertPolicy | include/osv/rcu-hashtable.hh:248-252 | the growth rule keeps the bucket count a power of two, at most doubles it, and keeps `total < 2 * size` |
| RcuHashtable.ErasePolicy | include/osv/rcu-hashtable.hh:260-264 | the shrink rule keeps the bucket count a power of two (never 0), at most halves it, and keeps `total < 2 * size` |
| Vj.Hash | include/vj.hh:34-39 | the XOR of the five fields fits in 32 bits |
| Vj.Equal | include/vj.hh:41-48 | the field-by-field comparison holds iff the two tuples are the same |
| Vj.EqualTuplesHashEqually | include/vj.hh:35-37 | equal tuples hash equally |
| Vj.HashIgnoresDirection | include/vj.hh:36 | the XOR hash is unchanged when source and destination addresses and ports are swapped together |
| Vj.RcvRingSizeIsValid | include/vj.hh:56-58 | the receive ring's 1024 slots are a power of two below 2^32, so the ring model applies |
| Vj.Classify | core/vj.cc:152-180 | refuses a frame shorter than 14 + 20 bytes; otherwise refuses a non-TCP packet or one shorter than 14 + `ip_hl * 4` + 20 bytes; otherwise gives the reversed flow as the lookup key |
| Vj.CandidateKeyHashesAsFlow | core/vj.cc:180 | the lookup key of an accepted packet hashes like the packet's own flow |
| Vj.Apply | core/vj.cc:107-113 | ADD maps the key to the ring only if the key is absent, REMOVE unmaps the key, and every other key is untouched |
| Vj.ApplyAllAppend | core/vj.cc:106-118 | draining two batches in turn equals draining them as one |
| Vj.ApplyAllOtherKeys | core/vj.cc:106-118 | messages about other flows leave a flow's mapping unchanged |
| Vj.AddThenDrain | core/vj.cc:108-109 | a flow added while absent and not mentioned later maps to its ring once the queue is drained |
| Vj.RemoveThenDrain | core/vj.cc:111-112 | a flow removed and not added again later is unmapped once the queue is drained |
| Vj.Classifier.constructor | core/vj.cc:55-58 | a new classifier has no flows and no pending messages |
| Vj.Classifier.Add | core/vj.cc:65-82 | enqueues exactly one ADD message and leaves the flow map alone |
| Vj.Classifier.Remove | core/vj.cc:85-101 | enqueues exactly one REMOVE message and leaves the flow map alone |
| Vj.Classifier.ProcessControl | core/vj.cc:103-119 | empties the control queue and applies its messages to the flow map, oldest first |
| Vj.Classifier.Lookup | core/vj.cc:121-141 | returns the ring mapped to an equal tuple, or null when no key is equal |
| Vj.Classifier.TryDeliver | core/vj.cc:143-203 | a refused frame returns false without draining the queue; otherwise the queue is drained; the answer is true iff the reversed flow is mapped, and then the packet is appended to that ring unless it is full (a drop still returns true), with every other ring untouched |
| Vj.RingbufPop | core/vj.cc:213-222 | yields the oldest queued packet, or null on an empty ring |
| Vj.ClassifyAdd | core/vj.cc:248-255 | a null classifier is ignored; otherwise exactly one ADD message is enqueued |
| Vj.ClassifyRemove | core/vj.cc:242-246 | enqueues exactly one REMOVE message |
| Waitqueue.Waitqueue.constructor | include/osv/waitqueue.hh:25-26 | a new queue has no waiters: `oldest` and `newest` are null |
| Waitqueue.Waitqueue.Woken | include/osv/waitqueue.hh:78 | a record that `poll` reports woken is no longer queued |
| Waitqueue.Waitqueue.Arm | core/waitqueue.cc:16-25 | appends the record as the newest with a null `next`, linked from the old newest; on an empty queue it also becomes the oldest; callable for any record that is neither queued nor woken |
| Waitqueue.ArmTwiceThenWakeOne | core/waitqueue.cc:16-25 | two waits armed on a new queue and one `wake_one` leave exactly the second queued and the first handed off |
| Waitqueue.Waitqueue.WakeOne | core/waitqueue.cc:53-67 | on an empty queue nothing changes; otherwise exactly the oldest record is removed and handed off with the mutex, the rest keep their order, and removing the only record nulls both ends |
| Waitqueue.Waitqueue.WakeAll | core/waitqueue.cc:69-80 | empties the queue and hands off every record it held, oldest first, all with the mutex |
| Waitqueue.Waitqueue.Disarm | core/waitqueue.cc:27-45 | with the tail case corrected: a woken record changes nothing; otherwise exactly that record is unlinked, the rest keep their order, and a removed newest record is replaced by its predecessor |
| Waitqueue.UnlinkKeepsQueue | core/waitqueue.cc:34-44 | unlinking one record keeps the queue repetition-free, chained, with correct ends, and free of woken records |
| Waitqueue.UnlinkKeepsChain | core/waitqueue.cc:34-44 | unlinking one record through its predecessor's `next` (or `oldest`) leaves a well-formed chain |
| Waitqueue.WithoutAt | core/waitqueue.cc:37 | unlinking a record of a repetition-free list cuts out exactly its one position |
| Waitqueue.DisarmAsWrittenFailsOnNewest | core/waitqueue.cc:37-40 | disarming the newest unwoken record, as written, dereferences null |
| Waitqueue.DisarmAsWrittenCounterexample | core/waitqueue.cc:37-40 | a queue whose only waiter disarms (e.g. after a timeout) hits the null dereference |
| Waitqueue.DisarmAsWrittenAgreesBeforeTail | core/waitqueue.cc:37-40 | away from the tail the code as written unlinks like the corrected one and leaves `newest` unchanged |
| Interrupt.FirstMax | core/interrupt.cc:89 | `std::max_element` picks the first position holding the largest count |
| Interrupt.FirstMaxUnique | core/interrupt.cc:89 | the first maximum is unique |
| Interrupt.MaxElement | core/interrupt.cc:89 | the scan returns the first position of the largest count |
| Interrupt.AffinityWaker.constructor | core/interrupt.cc:74-81 | one zero count per CPU, counter 0, no current CPU |
| Interrupt.AffinityWaker.Wake | core/interrupt.cc:83-98 | adds one to the waking CPU's count; the counter stays below 1000 and wraps to 0 on its thousandth step; at that point the first CPU with the most wake-ups becomes current, with an affinity change and all counts zeroed, unless it already is current, in which case the counts are kept |
| Interrupt.MsixVector.constructor | core/interrupt.cc:16-20 | a new vector has no entries and no handler |
| Interrupt.MsixVector.AddEntryId | core/interrupt.cc:56-59 | appends the entry id |
| Interrupt.MsixVector.SetHandler | core/interrupt.cc:51-54 | installs the handler and keeps the entries |
| Interrupt.InterruptManager.constructor | core/interrupt.cc:100-103 | a new manager has no registered vectors and MSI-X disabled |
| Interrupt.InterruptManager.RequestVectors | core/interrupt.cc:158-169 | allocates exactly `min(requested, device entries)` fresh, distinct vectors |
| Interrupt.InterruptManager.FreeVectors | core/interrupt.cc:195-200 | deletes exactly the given vectors |
| Interrupt.InterruptManager.AssignIsr | core/interrupt.cc:171-176 | installs the handler and always succeeds |
| Interrupt.InterruptManager.SetupEntry | core/interrupt.cc:178-193 | fails iff the composed address is 0 or the table write fails, and records the entry on the vector only on success |
| Interrupt.InterruptManager.EasyRegister | core/interrupt.cc:110-150 | succeeds iff the device has enough entries and every entry can be set up; on failure every allocated vector is deleted and the registered vectors are unchanged; on success binding `i` is on new vector `i` with its entry and handler, and those vectors become the registered ones |
| Interrupt.InterruptManager.EasyUnregister | core/interrupt.cc:152-156 | deletes the registered vectors and clears the list |

## Left out

- Concurrency is not modelled: the memory orders and atomics of the rings, the RCU publication and deferred deletion in the hash table (`rcu_ptr::assign`), and readers racing the owner. Every operation is read as one sequential step.
- `lockfree::queue_mpsc` is not part of this model. The classifier's control queue is assumed to be a FIFO that `process_control` drains oldest first.
- Scheduler interaction is not modelled:
  - `ring_spsc_waiter::wait_for_items`, `vj_wait` and `waitqueue::wait` are left out.
  - `wake_lock` is an entry in the hand-off log. A record counts as woken (`waiter::poll`) once it is handed off; the delay wait morphing adds until the mutex is released is not modelled.
- Waitqueue.Waitqueue.Arm: `wait_record` is not part of this model. Arm drops any link left under the record's id, standing for the null `next` a newly built record starts with. As in the source, a record that leaves the queue keeps its own `next` link.
- Vj.Classifier.TryDeliver: the `wake_consumer` call after a successful push and the `m_free` of a dropped packet are not modelled.
- Vj.Classify: the packet is a record of header fields and a length, not bytes. As in the source, neither the ethertype, the IP version nor an IHL below 5 is checked.
- `vj_try_deliver`, `vj_ringbuf_create`, `vj_ringbuf_destroy` and `vj_classifier_create` are left out. They are C wrappers, allocation and deletion around modelled members. Tracepoints and `debug` output are left out too.
- The hash-table iterators and the undefined `push_front`, `insert_before` and `emplace_before` are left out. The iterator code cannot be compiled as shown. A position is a (bucket, index) pair, and `end()` is `None`.
- RcuHashtable.Table.Find: the caller's hash and comparison are trusted to agree with where elements were placed. The result is stated for the one bucket the key's hash selects, not for the whole table. `FindElement` gives the whole-table answer for the table's own hash and `==`.
- RcuHashtable.Table: the hash is an arbitrary function into the naturals. `size_t` overflow of `size * 2` is not modelled.
- Ring.RingMpsc.constructor: the `_empty` sentinel is `T()` in the source. The model takes it as a constructor parameter.
- Ring.RingMpsc.Size: the result is stated relative to the indices only. A queue contents view like `RingSpsc`'s is not kept, because reserved slots may be filled out of order.
- Interrupt.AffinityWaker.Wake:
  - Per-CPU counts are unbounded naturals. The element type of `_cpu_stats` is not shown, so its wrap-around is not modelled.
  - `set_affinity` is recorded only as the target CPU. The MSI-X table writes it makes are not modelled.
- Interrupt.MsixVector.constructor: the IDT vector number from `register_handler` and its release in the destructor are not modelled. A vector is identified by its object.
- Interrupt.InterruptManager.EasyRegister:
  - `msix_enable` is a flag. `unmask_interrupts`, the APIC message composition, the PCI table writes and IDT handler registration are outcomes or are left out.
  - Device writes made before a failure are not undone, as in the source.
  - On success the previously registered vectors are replaced without being deleted. They stay in `Live`, as in the source.

## Findings

| source | as written | input that shows it | evidently intended | confidence | as-written member | corrected member |
|---|---|---|---|---|---|---|
| include/lockfree/ring.hh:56 | `ring_spsc::pop` tests emptiness with `beg >= end` on free-running 32-bit indices | after 2^32 pushes `_end` wraps to 0 while `_begin` is 0xFFFFFFFF with one element queued; `pop` reports empty and the ring fills and stays stuck | empty exactly when `beg == end`, consistent with `size()` computing `end - beg` | high; not executed | Ring.PopGuardAsWrittenMissesWrappedElements | Ring.RingSpsc.Pop |
| include/lockfree/ring.hh:154 | `ring_mpsc::pop` uses the same `beg >= end` test | `_begin = 0xFFFFFFFF`, `_end = 0` with one element stored | empty exactly when `beg == end` | high; not executed | Ring.PopGuardAsWrittenCounterexample | Ring.RingMpsc.Pop |
| include/lockfree/ring.hh:125-132 | `ring_mpsc::push` returns 0 for success and the claimed index for overflow | `_insert_idx = 0` (just wrapped) with `_begin = 2^32 - MaxSize`: overflow returns 0, read as success, and the element is lost | a result that tells overflow apart from success for every claimed index | medium; not executed | Ring.MpscPushReturnAsWrittenIsAmbiguous | Ring.RingMpsc.Push |
| core/waitqueue.cc:37-40 | `waiter::disarm` reads `(*pp)->next` right after replacing `*pp` by the removed record's successor | a queue whose only record disarms without being woken: `*pp` becomes null and is dereferenced; `newest` would also keep pointing at the removed record | when the removed record was the newest, its predecessor (or null) becomes `newest` | high; not executed | Waitqueue.DisarmAsWrittenFailsOnNewest | Waitqueue.Waitqueue.Disarm |
