/**
 * The Van Jacobson receive-side classifier of include/vj.hh and core/vj.cc.
 *
 * Sockets register their flows by posting ADD/REMOVE control messages; the
 * receive path drains those messages into a flow map, decides from the
 * packet headers whether a packet belongs to a registered TCP flow, and if
 * so queues it on that flow's receive ring.
 */
module Vj {
  import opened Bits
  import opened Wrappers
  import opened Ring

  /** `vj_hashed_tuple`: a flow, addresses and ports as the packet headers carry them. */
  datatype Tuple = Tuple(srcIp: u32, dstIp: u32, ipProto: u8, srcPort: u16, dstPort: u16)

  /** `std::hash<vj_hashed_tuple>`: the XOR of the five fields, which fits the widest of them. */
  function Hash(t: Tuple): (h: nat)
    ensures h < WORD
  {
    HashBelowWord(t);
    BitXor(BitXor(BitXor(BitXor(t.srcIp, t.dstIp), t.ipProto), t.srcPort), t.dstPort)
  }

  /** `std::equal_to<vj_hashed_tuple>`: field by field, which is exactly tuple identity. */
  predicate Equal(a: Tuple, b: Tuple): (e: bool)
    ensures e <==> a == b
  {
    && a.srcIp == b.srcIp
    && a.dstIp == b.dstIp
    && a.ipProto == b.ipProto
    && a.srcPort == b.srcPort
    && a.dstPort == b.dstPort
  }

  /** The same flow seen from the other end: addresses and ports swapped together. */
  function Reversed(t: Tuple): Tuple
  {
    Tuple(t.dstIp, t.srcIp, t.ipProto, t.dstPort, t.srcPort)
  }

  /** Every field is below 2^32, so each partial XOR is too. */
  lemma HashBelowWord(t: Tuple)
    ensures BitXor(BitXor(BitXor(BitXor(t.srcIp, t.dstIp), t.ipProto), t.srcPort), t.dstPort) < WORD
  {
    WordIsPowerOfTwo();
    var x := BitXor(t.srcIp, t.dstIp);
    XorBelow(t.srcIp, t.dstIp, WORD);
    XorBelow(x, t.ipProto, WORD);
    XorBelow(BitXor(x, t.ipProto), t.srcPort, WORD);
    XorBelow(BitXor(BitXor(x, t.ipProto), t.srcPort), t.dstPort, WORD);
  }

  /** The hash agrees with the comparison, as `std::unordered_map` needs. */
  lemma EqualTuplesHashEqually(a: Tuple, b: Tuple)
    requires Equal(a, b)
    ensures Hash(a) == Hash(b)
  {
  }

  /** XOR does not see the order of its operands, so both directions of a flow hash alike. */
  lemma HashIgnoresDirection(t: Tuple)
    ensures Hash(Reversed(t)) == Hash(t)
  {
    var a, b, c, d, e := t.srcIp, t.dstIp, t.ipProto, t.srcPort, t.dstPort;
    calc {
      Hash(Reversed(t));
      BitXor(BitXor(BitXor(BitXor(b, a), c), e), d);
      { XorCommutes(b, a); }
      BitXor(BitXor(BitXor(BitXor(a, b), c), e), d);
      { XorAssociates(BitXor(BitXor(a, b), c), e, d);
        XorCommutes(e, d);
        XorAssociates(BitXor(BitXor(a, b), c), d, e); }
      BitXor(BitXor(BitXor(BitXor(a, b), c), d), e);
      Hash(t);
    }
  }

  /** `rcv_ring_size`: slots in a socket's receive ring. */
  const RCV_RING_SIZE: nat := 1024

  /** `vj_ring_type` is a `ring_spsc` of 1024 slots, which qualifies as a ring size. */
  lemma RcvRingSizeIsValid()
    ensures IsPowerOfTwo(RCV_RING_SIZE) && RCV_RING_SIZE < WORD
  {
    Doubling(1); Doubling(2); Doubling(4); Doubling(8); Doubling(16);
    Doubling(32); Doubling(64); Doubling(128); Doubling(256); Doubling(512);
  }

  /** `ETHER_HDR_LEN`: an Ethernet II header. */
  const ETHER_HDR_LEN: int := 14
  /** `sizeof(struct ip)`: an IPv4 header without options (section 3.1 of RFC 791). */
  const IP_HDR_LEN: int := 20
  /** `sizeof(struct tcphdr)`: a TCP header without options (section 3.1 of RFC 793). */
  const TCP_HDR_LEN: int := 20
  /** `IPPROTO_TCP`. */
  const IPPROTO_TCP: u8 := 6

  /** A 4-bit header field. */
  type nibble = x: nat | x < 16

  /**
   * The parts of a received frame the classifier reads: the mbuf length
   * `mh_len`, and the IPv4 and TCP header fields at their fixed offsets.
   */
  datatype Packet = Packet(len: int, ipHl: nibble, ipProto: u8, ipSrc: u32, ipDst: u32,
                           thSport: u16, thDport: u16)

  /** The flow as the packet carries it, sender first. */
  function Flow(p: Packet): Tuple
  {
    Tuple(p.ipSrc, p.ipDst, p.ipProto, p.thSport, p.thDport)
  }

  /** How `try_deliver` judges a packet before it looks at the flow map. */
  datatype Verdict = TooShort | NotTcp | Candidate(key: Tuple)

  /**
   * A frame shorter than the Ethernet and minimal IPv4 headers is refused;
   * so is one that is not TCP or too short for the TCP header after an
   * IPv4 header of `ipHl * 4` bytes. Otherwise the key to look up is the
   * packet's flow from the receiver's side, since sockets register
   * (local, foreign) and an arriving packet carries (foreign, local).
   */
  function Classify(p: Packet): (v: Verdict)
    ensures v == TooShort <==> p.len < ETHER_HDR_LEN + IP_HDR_LEN
    ensures v == NotTcp <==> && ETHER_HDR_LEN + IP_HDR_LEN <= p.len
                             && (p.ipProto != IPPROTO_TCP || p.len < ETHER_HDR_LEN + 4 * p.ipHl + TCP_HDR_LEN)
    ensures v.Candidate? ==> Reversed(v.key) == Flow(p)
    ensures v.Candidate? ==> v.key.ipProto == IPPROTO_TCP
  {
    if p.len < ETHER_HDR_LEN + IP_HDR_LEN then TooShort
    else
      var hlen := p.ipHl * 4;
      if p.ipProto != IPPROTO_TCP || p.len < ETHER_HDR_LEN + hlen + TCP_HDR_LEN then NotTcp
      else
        Candidate(Tuple(p.ipDst, p.ipSrc, p.ipProto, p.thDport, p.thSport))
  }

  /** The lookup key lands in the same hash bucket as the packet's own flow would. */
  lemma CandidateKeyHashesAsFlow(p: Packet)
    requires Classify(p).Candidate?
    ensures Hash(Classify(p).key) == Hash(Flow(p))
  {
    HashIgnoresDirection(Classify(p).key);
  }

  /** A control message; `R` stands for the receive ring a socket hands in. */
  datatype ControlMsg<R> = Add(key: Tuple, ring: R) | Remove(key: Tuple)

  /**
   * One control message applied to the flow map: `unordered_map::insert`
   * keeps an existing mapping, `erase` of an absent key does nothing.
   */
  function Apply<R>(m: map<Tuple, R>, msg: ControlMsg<R>): (r: map<Tuple, R>)
    ensures msg.Add? ==> msg.key in r && r[msg.key] == (if msg.key in m then m[msg.key] else msg.ring)
    ensures msg.Remove? ==> msg.key !in r
    ensures forall t :: t != msg.key ==> (t in r <==> t in m) && (t in m ==> r[t] == m[t])
  {
    match msg
    case Add(t, ring) => if t in m then m else m[t := ring]
    case Remove(t) => m - {t}
  }

  /** The messages applied oldest first. */
  function ApplyAll<R>(m: map<Tuple, R>, msgs: seq<ControlMsg<R>>): map<Tuple, R>
    decreases |msgs|
  {
    if msgs == [] then m else ApplyAll(Apply(m, msgs[0]), msgs[1..])
  }

  /** Draining two batches one after the other is draining them as one. */
  lemma {:induction false} ApplyAllAppend<R>(m: map<Tuple, R>, a: seq<ControlMsg<R>>, b: seq<ControlMsg<R>>)
    ensures ApplyAll(m, a + b) == ApplyAll(ApplyAll(m, a), b)
    decreases |a|
  {
    if a != [] {
      assert (a + b)[0] == a[0] && (a + b)[1..] == a[1..] + b;
      ApplyAllAppend(Apply(m, a[0]), a[1..], b);
    } else {
      assert a + b == b;
    }
  }

  /** Messages about other flows leave a flow's mapping alone. */
  lemma {:induction false} ApplyAllOtherKeys<R>(m: map<Tuple, R>, msgs: seq<ControlMsg<R>>, t: Tuple)
    requires forall i :: 0 <= i < |msgs| ==> msgs[i].key != t
    ensures t in ApplyAll(m, msgs) <==> t in m
    ensures t in m ==> ApplyAll(m, msgs)[t] == m[t]
    decreases |msgs|
  {
    if msgs != [] {
      ApplyAllOtherKeys(Apply(m, msgs[0]), msgs[1..], t);
    }
  }

  /**
   * A flow added while it was absent, and not mentioned by any later
   * message, is mapped to the ring it was added with once the queue is
   * drained.
   */
  lemma AddThenDrain<R>(m: map<Tuple, R>, before: seq<ControlMsg<R>>, t: Tuple, ring: R, after: seq<ControlMsg<R>>)
    requires t !in ApplyAll(m, before)
    requires forall i :: 0 <= i < |after| ==> after[i].key != t
    ensures var r := ApplyAll(m, before + [Add(t, ring)] + after); t in r && r[t] == ring
  {
    ApplyAllAppend(m, before + [Add(t, ring)], after);
    ApplyAllAppend(m, before, [Add(t, ring)]);
    ApplyAllOtherKeys(ApplyAll(m, before + [Add(t, ring)]), after, t);
  }

  /** A flow removed, and not added again by a later message, is absent once the queue is drained. */
  lemma RemoveThenDrain<R>(m: map<Tuple, R>, before: seq<ControlMsg<R>>, t: Tuple, after: seq<ControlMsg<R>>)
    requires forall i :: 0 <= i < |after| ==> after[i].key != t
    ensures t !in ApplyAll(m, before + [Remove(t)] + after)
  {
    ApplyAllAppend(m, before + [Remove(t)], after);
    ApplyAllAppend(m, before, [Remove(t)]);
    ApplyAllOtherKeys(ApplyAll(m, before + [Remove(t)]), after, t);
  }

  type VjRing = RingSpsc<Packet>

  /**
   * `vj::classifier`. The control queue is a sequence, oldest message
   * first. `Rings` is the set of receive rings the classifier has been
   * given; each owns its slot array, as the C++ ring embeds its array.
   */
  /** Every registered ring is a well-formed 1024-slot ring with a buffer of its own. */
  ghost predicate RingsValid(rings: set<VjRing>)
    reads rings, set r | r in rings :: r.ring
  {
    && (forall r | r in rings :: r.Valid() && r.maxSize == RCV_RING_SIZE)
    && (forall r1, r2 | r1 in rings && r2 in rings && r1 != r2 :: r1.ring != r2.ring)
  }

  /** A ring with a buffer of its own joins a set of valid rings. */
  lemma RingsValidJoin(others: set<VjRing>, r: VjRing)
    requires RingsValid(others) && r.Valid() && r.maxSize == RCV_RING_SIZE
    requires forall o | o in others :: o.ring != r.ring
    ensures RingsValid(others + {r})
  {
  }

  /** Every ring the flow map or a pending ADD refers to is one of `rings`. */
  predicate Registered<R(==)>(flows: map<Tuple, R>, control: seq<ControlMsg<R>>, rings: set<R>)
  {
    && (forall t | t in flows :: flows[t] in rings)
    && (forall i | 0 <= i < |control| :: control[i].Add? ==> control[i].ring in rings)
  }

  /** Applying the oldest pending message keeps every referenced ring registered. */
  lemma RegisteredStep<R>(flows: map<Tuple, R>, control: seq<ControlMsg<R>>, rings: set<R>)
    requires Registered(flows, control, rings) && control != []
    ensures Registered(Apply(flows, control[0]), control[1..], rings)
  {
    assert control[0].Add? ==> control[0].ring in rings;
    forall i | 0 <= i < |control| - 1
      ensures control[1..][i].Add? ==> control[1..][i].ring in rings
    {
      assert control[1..][i] == control[i + 1];
    }
  }

  class Classifier {
    var classifications: map<Tuple, VjRing>
    var control: seq<ControlMsg<VjRing>>
    ghost var Rings: set<VjRing>

    ghost function RingArrays(): set<array<Packet>>
      reads this, Rings
    {
      set r | r in Rings :: r.ring
    }

    ghost predicate Valid()
      reads this, Rings, RingArrays()
    {
      && Registered(classifications, control, Rings)
      && RingsValid(Rings)
    }

    constructor ()
      ensures Valid()
      ensures classifications == map[] && control == [] && Rings == {}
    {
      classifications := map[];
      control := [];
      Rings := {};
    }

    /** Posts an ADD message; the flow map is not touched. */
    method Add(srcIp: u32, dstIp: u32, ipProto: u8, srcPort: u16, dstPort: u16, ring: VjRing)
      requires Valid()
      requires ring.Valid() && ring.maxSize == RCV_RING_SIZE
      requires ring in Rings || forall r | r in Rings :: r.ring != ring.ring
      modifies this
      ensures Valid() && Rings == old(Rings) + {ring}
      ensures classifications == old(classifications)
      ensures control == old(control) + [ControlMsg.Add(Tuple(srcIp, dstIp, ipProto, srcPort, dstPort), ring)]
    {
      control := control + [ControlMsg.Add(Tuple(srcIp, dstIp, ipProto, srcPort, dstPort), ring)];
      Rings := Rings + {ring};
    }

    /** Posts a REMOVE message; the flow map is not touched. */
    method Remove(srcIp: u32, dstIp: u32, ipProto: u8, srcPort: u16, dstPort: u16)
      requires Valid()
      modifies this
      ensures Valid() && Rings == old(Rings)
      ensures classifications == old(classifications)
      ensures control == old(control) + [ControlMsg.Remove(Tuple(srcIp, dstIp, ipProto, srcPort, dstPort))]
    {
      control := control + [ControlMsg.Remove(Tuple(srcIp, dstIp, ipProto, srcPort, dstPort))];
    }

    /** Drains the control queue into the flow map, oldest message first. */
    method ProcessControl()
      requires Valid()
      modifies this
      ensures Valid() && Rings == old(Rings)
      ensures control == []
      ensures classifications == ApplyAll(old(classifications), old(control))
    {
      while control != []
        invariant Registered(classifications, control, Rings) && Rings == old(Rings)
        invariant ApplyAll(classifications, control) == ApplyAll(old(classifications), old(control))
        decreases |control|
      {
        var item := control[0];
        ghost var before := classifications;
        RegisteredStep(classifications, control, Rings);
        control := control[1..];
        match item {
          case Add(t, ring) =>
            if t !in classifications {
              classifications := classifications[t := ring];
            }
          case Remove(t) =>
            classifications := classifications - {t};
        }
        assert classifications == Apply(before, item);
      }
    }

    /** The ring registered for the flow, or `None` for a null pointer. */
    method Lookup(srcIp: u32, dstIp: u32, ipProto: u8, srcPort: u16, dstPort: u16)
      returns (r: Option<VjRing>)
      ensures var t := Tuple(srcIp, dstIp, ipProto, srcPort, dstPort);
              && (r.Some? <==> exists k :: k in classifications && Equal(k, t))
              && (r.Some? ==> r.value == classifications[t])
    {
      var t := Tuple(srcIp, dstIp, ipProto, srcPort, dstPort);
      if t !in classifications {
        return None;
      }
      r := Some(classifications[t]);
    }

    /**
     * Refuses packets too short or not TCP without touching the control
     * queue; otherwise drains it and looks up the reversed flow. With no
     * match the answer is false; with one the packet is pushed on the
     * flow's ring and the answer is true, even when the ring is full and the
     * packet is dropped.
     */
    method TryDeliver(p: Packet) returns (delivered: bool)
      requires Valid()
      modifies this, Rings, RingArrays()
      ensures Valid() && Rings == old(Rings)
      ensures !Classify(p).Candidate? ==> !delivered && unchanged(this)
      ensures Classify(p).Candidate? ==>
                && control == []
                && classifications == ApplyAll(old(classifications), old(control))
                && (delivered <==> Classify(p).key in classifications)
      ensures forall r | r in Rings && !(delivered && r == classifications[Classify(p).key]) ::
                r.Contents == old(r.Contents)
      ensures delivered ==> var r := classifications[Classify(p).key];
                r.Contents == if old(|r.Contents|) < RCV_RING_SIZE then old(r.Contents) + [p]
                              else old(r.Contents)
    {
      if p.len < ETHER_HDR_LEN + IP_HDR_LEN {
        return false;
      }
      var hlen := p.ipHl * 4;
      if p.ipProto != IPPROTO_TCP || p.len < ETHER_HDR_LEN + hlen + TCP_HDR_LEN {
        return false;
      }
      ghost var key := Classify(p).key;
      assert key == Tuple(p.ipDst, p.ipSrc, p.ipProto, p.thDport, p.thSport);
      ProcessControl();
      var ring := Lookup(p.ipDst, p.ipSrc, p.ipProto, p.thDport, p.thSport);
      if ring.None? {
        return false;
      }
      var r := ring.value;
      assert key in classifications && r == classifications[key] && r in Rings;
      ghost var others := Rings - {r};
      assert RingsValid(others);
      var ok := r.Push(p);
      RingsValidJoin(others, r);
      assert Rings == others + {r};
      return true;
    }
  }

  /** `vj_ringbuf_pop`: the oldest queued packet, or `None` for a null pointer when the ring is empty. */
  method RingbufPop(ring: VjRing) returns (r: Option<Packet>)
    requires ring.Valid()
    modifies ring
    ensures ring.Valid()
    ensures r.None? <==> old(|ring.Contents|) == 0
    ensures r.Some? ==> r.value == old(ring.Contents[0]) && ring.Contents == old(ring.Contents[1..])
    ensures r.None? ==> ring.Contents == old(ring.Contents)
  {
    var ok, element := ring.Pop(Packet(0, 0, 0, 0, 0, 0, 0));
    r := if ok then Some(element) else None;
  }

  /** `vj_classify_add`: a null classifier is ignored. */
  method ClassifyAdd(cls: Classifier?, laddr: u32, faddr: u32, ipP: u8, lport: u16, fport: u16, ring: VjRing)
    requires cls != null ==> cls.Valid() && ring.Valid() && ring.maxSize == RCV_RING_SIZE
    requires cls != null ==> ring in cls.Rings || forall r | r in cls.Rings :: r.ring != ring.ring
    modifies cls
    ensures cls != null ==> cls.Valid()
    ensures cls != null ==> cls.control == old(cls.control) + [Add(Tuple(laddr, faddr, ipP, lport, fport), ring)]
    ensures cls != null ==> cls.classifications == old(cls.classifications)
  {
    if cls != null {
      cls.Add(laddr, faddr, ipP, lport, fport, ring);
    }
  }

  /** `vj_classify_remove`. */
  method ClassifyRemove(cls: Classifier, laddr: u32, faddr: u32, ipP: u8, lport: u16, fport: u16)
    requires cls.Valid()
    modifies cls
    ensures cls.Valid()
    ensures cls.control == old(cls.control) + [Remove(Tuple(laddr, faddr, ipP, lport, fport))]
    ensures cls.classifications == old(cls.classifications)
  {
    cls.Remove(laddr, faddr, ipP, lport, fport);
  }
}
