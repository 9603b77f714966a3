/**
 Which descriptors reach the hardware without a buffer of their own after refills have
 failed, when that happens, and what follows. Everything is read from the ledger of refills.
 */
module RxStale {
  import opened Machine
  import opened RingIndex
  import opened RxRing
  import opened RxSystem
  import opened RxBatches
  import opened RxRefills
  import opened RxLedger

  /** The slot lies between the consumer and the doorbell, so the hardware may use its descriptor. */
  ghost predicate Released(r: RxState, slot: nat) {
    Between(r.cons, r.hostBidx, slot)
  }

  /** What may be asked of a released slot: that it holds a packet, or that its descriptor addresses that packet. */
  datatype Demand = Occupied | Owned

  ghost predicate Meets(r: RxState, slot: nat, d: Demand)
    requires Shape(r) && slot < USABLE_BDS
  {
    r.packets[slot].Some? && (d.Owned? ==> r.chain[slot] == BdFor(r.packets[slot].value))
  }

  /** Every slot released to the hardware meets the demand. */
  ghost predicate Safe(r: RxState, d: Demand) {
    Shape(r) && !r.faulted && forall slot | 0 <= slot < USABLE_BDS && Released(r, slot) :: Meets(r, slot, d)
  }

  /** Refill `j` leaves its slot as demanded. */
  predicate Serves(refills: seq<Refill>, j: nat, d: Demand)
    requires j < |refills|
  {
    refills[j].alloc.Some? && (d.Owned? ==> DescriptorOf(refills, j) == BdFor(refills[j].alloc.value))
  }

  lemma SuccessServes(refills: seq<Refill>, j: nat, d: Demand)
    requires j < |refills| && Succeeds(refills[j])
    ensures Serves(refills, j, d)
  {
  }

  lemma ServesPrefix(refills: seq<Refill>, more: seq<Refill>, j: nat, d: Demand)
    requires j < |refills|
    ensures Serves(refills + more, j, d) <==> Serves(refills, j, d)
  {
    DescriptorPrefix(refills, more, j);
  }

  // ----- One state -----

  /**
   In every state with a ledger: all released slots meet the demand if and only if the
   refills from the consumer's counter up to the number of successes do.
   */
  lemma SafeIff(s: RxSys, refills: seq<Refill>, d: Demand)
    requires Ledger(s, refills)
    ensures Count(refills) <= |refills|
    ensures Safe(s.ring, d) <==> forall j | |s.ring.upcalls| <= j < Count(refills) :: Serves(refills, j, d)
  {
    hide Slot, IndexAfter, Between, Tally, InTurn, Count, BdFor, DescriptorOf;
    LedgerBasics(s, refills);
    var r, c, p := s.ring, |s.ring.upcalls|, Count(refills);
    forall j | c <= j < c + USABLE_BDS
      ensures Released(r, Slot(j)) <==> j < p
      ensures Meets(r, Slot(j), d) <==> Serves(refills, j, d)
    {
      BetweenIff(c, p, j);
    }
    if forall j | c <= j < p :: Serves(refills, j, d) {
      forall slot | 0 <= slot < USABLE_BDS && Released(r, slot)
        ensures Meets(r, slot, d)
      {
        var j := CounterOfSlot(slot, c);
      }
    }
    if Safe(r, d) {
      forall j | c <= j < p
        ensures Serves(refills, j, d)
      {
        assert Released(r, Slot(j)) && Meets(r, Slot(j), d);
      }
    }
  }

  // ----- Whole runs -----

  /** The first refills, as many as succeeded at all, serve. */
  ghost predicate AllServe(refills: seq<Refill>, d: Demand) {
    forall j | 0 <= j < Count(refills) :: Serves(refills, j, d)
  }

  lemma AllServePrefix(refills: seq<Refill>, answers: seq<Refill>, n: nat, d: Demand)
    requires AllServe(refills + Used(answers, n), d)
    ensures AllServe(refills, d)
  {
    hide Serves, Count;
    CountAppend(refills, answers, n);
    forall j | 0 <= j < Count(refills)
      ensures Serves(refills, j, d)
    {
      ServesPrefix(refills, Used(answers, n), j, d);
    }
  }

  /** One interrupt of a safe ring whose refills serve so far. */
  lemma SafeInterrupt(s: RxSys, refills: seq<Refill>, answers: seq<Refill>, maxLength: U16, d: Demand)
    requires Ledger(s, refills) && AllServe(refills, d)
    ensures var s' := Step(s, Interrupt(answers), maxLength); var n := RefillsAsked(s, Interrupt(answers), maxLength);
            && !s'.ring.faulted
            && (Safe(s'.ring, d) <==> AllServe(refills + Used(answers, n), d))
  {
    hide Tally, Holds, InTurn, Step, RefillsAsked, Count, Safe, Used, DescriptorOf, BdFor, Shape, SysShape;
    LedgerBasics(s, refills);
    LedgerInterrupt(s, refills, answers, maxLength);
    var n, q := s.published - |s.ring.upcalls|, s.published;
    forall j | 0 <= j < q
      ensures refills[j].alloc.Some? && Serves(refills, j, d) && Serves(refills + Used(answers, n), j, d)
    {
      ServesPrefix(refills, Used(answers, n), j, d);
    }
    SafeIff(Step(s, Interrupt(answers), maxLength), refills + Used(answers, n), d);
  }

  /** Every state of a run, from initialisation on, is safe. */
  ghost predicate AlwaysSafe(physAddr: U64, init: seq<Refill>, trace: seq<RxEvent>, maxLength: U16, d: Demand) {
    forall n | 0 <= n <= |trace| :: Safe(Run(Init(physAddr, init), trace[..n], maxLength).ring, d)
  }

  lemma AlwaysSafeSnoc(physAddr: U64, init: seq<Refill>, trace: seq<RxEvent>, e: RxEvent, maxLength: U16, d: Demand)
    ensures AlwaysSafe(physAddr, init, trace + [e], maxLength, d) <==>
            && AlwaysSafe(physAddr, init, trace, maxLength, d)
            && Safe(Run(Init(physAddr, init), trace + [e], maxLength).ring, d)
  {
    hide Init, Run, Safe;
    var all := trace + [e];
    assert all[..|all|] == all;
    assert forall n | 0 <= n <= |trace| :: all[..n] == trace[..n];
  }

  lemma SafeLast(physAddr: U64, init: seq<Refill>, trace: seq<RxEvent>, maxLength: U16, d: Demand)
    requires AlwaysSafe(physAddr, init, trace, maxLength, d)
    ensures Safe(Run(Init(physAddr, init), trace, maxLength).ring, d)
  {
    hide Init, Run, Safe;
    assert trace[..|trace|] == trace;
  }

  lemma SafeUnfaulted(r: RxState, d: Demand)
    requires Safe(r, d)
    ensures !r.faulted
  {
  }

  /** The ring is safe at the start, and its refills serve. */
  lemma SafeAtStart(physAddr: U64, init: seq<Refill>, maxLength: U16, d: Demand)
    requires AllSucceed(init, USABLE_BDS)
    ensures AlwaysSafe(physAddr, init, [], maxLength, d) && AllServe(Used(init, USABLE_BDS), d)
  {
    hide Init, Ledger, Safe, Count, Serves, Leading;
    LedgerAtStart(physAddr, init, maxLength);
    var all := Used(init, USABLE_BDS);
    forall j | 0 <= j < USABLE_BDS
      ensures Serves(all, j, d)
    {
      assert Succeeds(AnswerAt(init, j));
      SuccessServes(all, j, d);
    }
    SafeIff(Init(physAddr, init), all, d);
    var none: seq<RxEvent> := [];
    assert none[..0] == none;
  }

  /** A ring that could not be filled releases nothing. */
  lemma UnfilledSafe(physAddr: U64, init: seq<Refill>, trace: seq<RxEvent>, maxLength: U16, d: Demand)
    requires !AllSucceed(init, USABLE_BDS)
    ensures AlwaysSafe(physAddr, init, trace, maxLength, d)
    ensures AllServe(Refills(physAddr, init, trace, maxLength), d)
  {
    hide Init, Run, Refills, AllSucceed, Leading, Successes, Serves, Idle, Shape, Released;
    forall n | 0 <= n <= |trace|
      ensures Safe(Run(Init(physAddr, init), trace[..n], maxLength).ring, d)
    {
      var s := Run(Init(physAddr, init), trace[..n], maxLength);
      UnfilledRingReceivesNothing(physAddr, init, trace[..n], maxLength);
      SameRing(s, s, Init(physAddr, init).ring);
      RingShape(s);
      NoneReleased(s.ring);
    }
    UnfilledLedger(physAddr, init, trace, maxLength);
    LeadingIs(init, USABLE_BDS);
    var l := Leading(init, USABLE_BDS);
    var all := Used(init, l + 1);
    AllSucceedCounted(all, 0, l + 1);
    assert AnswerAt(all, l) == AnswerAt(init, l);
    forall j | 0 <= j < l
      ensures Serves(all, j, d)
    {
      LeadingSucceeds(init, l, j);
      SuccessServes(all, j, d);
    }
  }

  lemma LeadingSucceeds(init: seq<Refill>, n: nat, j: nat)
    requires AllSucceed(init, n) && j < n
    ensures Succeeds(AnswerAt(init, j))
  {
  }

  lemma RingShape(s: RxSys)
    requires SysShape(s)
    ensures Shape(s.ring)
  {
  }

  lemma NoneReleased(r: RxState)
    requires r.cons == r.hostBidx == 0
    ensures forall slot: nat :: !Released(r, slot)
  {
    assert InCycle(0);
    DistZero(0, 0);
  }

  /**
   For every run, whatever the allocator answers at start or later and faulted or not: in all
   its states the handler has met no empty slot and every slot released to the hardware meets
   the demand, if and only if the first refills of the run do, as many as succeeded at all.
   */
  lemma {:induction false} AlwaysSafeIff(physAddr: U64, init: seq<Refill>, trace: seq<RxEvent>, maxLength: U16, d: Demand)
    ensures AlwaysSafe(physAddr, init, trace, maxLength, d) <==> AllServe(Refills(physAddr, init, trace, maxLength), d)
  {
    hide Init, Run, Step, Safe, AlwaysSafe, AllServe, Ledger, AllSucceed, Leading, Used, RefillsAsked;
    if !AllSucceed(init, USABLE_BDS) {
      UnfilledSafe(physAddr, init, trace, maxLength, d);
    } else if trace == [] {
      LeadingIs(init, USABLE_BDS);
      SafeAtStart(physAddr, init, maxLength, d);
    } else {
      var before, e := trace[..|trace| - 1], trace[|trace| - 1];
      var s, refills := Run(Init(physAddr, init), before, maxLength), Refills(physAddr, init, before, maxLength);
      AlwaysSafeIff(physAddr, init, before, maxLength, d);
      AlwaysSafeSnoc(physAddr, init, before, e, maxLength, d);
      RefillsSnoc(physAddr, init, before, e, maxLength);
      assert trace == before + [e];
      assert refills + [] == refills;
      if e.Interrupt? && AllServe(refills + Used(e.answers, RefillsAsked(s, e, maxLength)), d) {
        AllServePrefix(refills, e.answers, RefillsAsked(s, e, maxLength), d);
      }
      if AlwaysSafe(physAddr, init, before, maxLength, d) {
        SafeLast(physAddr, init, before, maxLength, d);
        SafeUnfaulted(s.ring, d);
        if e.Interrupt? {
          RunLedger(physAddr, init, before, maxLength);
          SafeInterrupt(s, refills, e.answers, maxLength, d);
        } else {
          HardwareKeepsRing(s, e, maxLength);
        }
      }
    }
  }

  /** A packet that does not map to one segment has not the buffer its slot's descriptor still addresses. */
  ghost predicate NoReuse(refills: seq<Refill>) {
    forall j | 0 <= j < |refills| && refills[j].alloc.Some? && !refills[j].mapped ::
      DescriptorOf(refills, j) != BdFor(refills[j].alloc.value)
  }

  /**
   Over every run: no descriptor is ever released that does not address the buffer of its
   slot's packet, and no empty slot is met, if and only if no failed refill of the run is
   followed by a successful one, in the same interrupt or any later one.
   */
  lemma NoStaleReleasedIff(physAddr: U64, init: seq<Refill>, trace: seq<RxEvent>, maxLength: U16)
    requires NoReuse(Refills(physAddr, init, trace, maxLength))
    ensures var refills := Refills(physAddr, init, trace, maxLength);
            AlwaysSafe(physAddr, init, trace, maxLength, Owned) <==> FailuresAreSuffix(refills, |refills|)
  {
    hide AlwaysSafe, Refills, FailuresAreSuffix, Successes, DescriptorOf;
    var refills := Refills(physAddr, init, trace, maxLength);
    AlwaysSafeIff(physAddr, init, trace, maxLength, Owned);
    SuffixCounted(refills, |refills|);
    forall j | 0 <= j < |refills|
      ensures Serves(refills, j, Owned) <==> Succeeds(AnswerAt(refills, j))
    {
      if Succeeds(refills[j]) {
        SuccessServes(refills, j, Owned);
      }
    }
  }

  lemma SuffixOfSucceeded(refills: seq<Refill>, answers: seq<Refill>, n: nat)
    requires AllSucceed(refills, |refills|)
    ensures var all := refills + Used(answers, n);
            FailuresAreSuffix(all, |all|) <==> FailuresAreSuffix(answers, n)
  {
    var all := refills + Used(answers, n);
    forall i | 0 <= i < |all|
      ensures AnswerAt(all, i) == if i < |refills| then AnswerAt(refills, i) else AnswerAt(answers, i - |refills|)
    {
    }
    forall i, j {:trigger AnswerAt(answers, i), AnswerAt(answers, j)} | 0 <= i < j < n
      ensures AnswerAt(answers, i) == AnswerAt(all, |refills| + i) && AnswerAt(answers, j) == AnswerAt(all, |refills| + j)
    {
    }
  }

  /** In the first interrupt with a failure, only the order of its own answers matters. */
  lemma OneInterruptIff(physAddr: U64, init: seq<Refill>, trace: seq<RxEvent>, answers: seq<Refill>, maxLength: U16)
    requires var refills := Refills(physAddr, init, trace, maxLength); AllSucceed(refills, |refills|)
    requires NoReuse(Refills(physAddr, init, trace + [Interrupt(answers)], maxLength))
    ensures var n := RefillsAsked(Run(Init(physAddr, init), trace, maxLength), Interrupt(answers), maxLength);
            AlwaysSafe(physAddr, init, trace + [Interrupt(answers)], maxLength, Owned) <==> FailuresAreSuffix(answers, n)
  {
    hide Init, Run, Step, AlwaysSafe, Refills, Used, RefillsAsked, AllSucceed, FailuresAreSuffix, NoReuse;
    var n := RefillsAsked(Run(Init(physAddr, init), trace, maxLength), Interrupt(answers), maxLength);
    RefillsSnoc(physAddr, init, trace, Interrupt(answers), maxLength);
    NoStaleReleasedIff(physAddr, init, trace + [Interrupt(answers)], maxLength);
    SuffixOfSucceeded(Refills(physAddr, init, trace, maxLength), answers, n);
  }

  /**
   The handler never meets an empty slot, and none is released, if and only if none of the
   first refills, as many as succeeded at all, was a failed allocation. It is enough that no
   failed allocation is followed by a success.
   */
  lemma NeverEmptyIff(physAddr: U64, init: seq<Refill>, trace: seq<RxEvent>, maxLength: U16)
    ensures var refills := Refills(physAddr, init, trace, maxLength);
            && (AlwaysSafe(physAddr, init, trace, maxLength, Occupied) <==>
                  forall j | 0 <= j < Count(refills) :: refills[j].alloc.Some?)
            && ((forall i, j | 0 <= i < j < |refills| :: Succeeds(refills[j]) ==> refills[i].alloc.Some?) ==>
                  AlwaysSafe(physAddr, init, trace, maxLength, Occupied))
  {
    hide AlwaysSafe, Refills, Count, DescriptorOf;
    var refills := Refills(physAddr, init, trace, maxLength);
    AlwaysSafeIff(physAddr, init, trace, maxLength, Occupied);
    assert forall j | 0 <= j < |refills| :: Serves(refills, j, Occupied) <==> refills[j].alloc.Some?;
    forall j | 0 <= j < Count(refills) && refills[j].alloc.None?
      ensures exists k :: j < k < |refills| && Succeeds(refills[k])
    {
      SuccessAfter(refills, j);
    }
  }

  /** So the handler stays unfaulted while each of those refills finds a packet. */
  lemma Unfaulted(physAddr: U64, init: seq<Refill>, trace: seq<RxEvent>, maxLength: U16)
    requires AllServe(Refills(physAddr, init, trace, maxLength), Occupied)
    ensures !Run(Init(physAddr, init), trace, maxLength).ring.faulted
  {
    hide Init, Run, Refills, AllServe, AlwaysSafe, Safe;
    AlwaysSafeIff(physAddr, init, trace, maxLength, Occupied);
    SafeLast(physAddr, init, trace, maxLength, Occupied);
    SafeUnfaulted(Run(Init(physAddr, init), trace, maxLength).ring, Occupied);
  }

  // ----- What follows -----

  /** The last successful refill of the slot of counter `j`. */
  function LastSuccess(refills: seq<Refill>, j: nat): nat
    requires j < |refills|
  {
    if Succeeds(refills[j]) || j < USABLE_BDS then j else LastSuccess(refills, j - USABLE_BDS)
  }

  lemma {:induction false} LastSuccessIs(refills: seq<Refill>, j: nat)
    requires j < |refills| && forall i | 0 <= i < USABLE_BDS && i < |refills| :: Succeeds(refills[i])
    ensures var i := LastSuccess(refills, j);
            && i <= j && Succeeds(refills[i]) && Slot(i) == Slot(j)
            && DescriptorOf(refills, j) == BdFor(refills[i].alloc.value)
            && (!Succeeds(refills[j]) ==> i + USABLE_BDS <= j)
  {
    hide Slot;
    if !Succeeds(refills[j]) && j >= USABLE_BDS {
      LastSuccessIs(refills, j - USABLE_BDS);
      SlotPeriod(j - USABLE_BDS);
    }
  }

  /** The refills of a filled ring start with a whole ring of successes. */
  lemma {:induction false} FirstRefills(physAddr: U64, init: seq<Refill>, trace: seq<RxEvent>, maxLength: U16)
    requires AllSucceed(init, USABLE_BDS)
    ensures var refills := Refills(physAddr, init, trace, maxLength);
            Used(init, USABLE_BDS) <= refills && forall i | 0 <= i < USABLE_BDS :: Succeeds(refills[i])
  {
    hide Init, Run, Leading, RefillsAsked;
    if trace == [] {
      LeadingIs(init, USABLE_BDS);
    } else {
      FirstRefills(physAddr, init, trace[..|trace| - 1], maxLength);
    }
  }

  /**
   What a failed refill leaves behind, in every unfaulted state of every run of a filled ring:
   the slot holds what the allocator gave, if anything, while its descriptor still addresses
   the packet of the slot's last successful refill, which was freed or delivered before.
   */
  lemma FailedRefillLeavesStaleDescriptor(physAddr: U64, init: seq<Refill>, trace: seq<RxEvent>, maxLength: U16, j: nat)
    requires AllSucceed(init, USABLE_BDS) && !Run(Init(physAddr, init), trace, maxLength).ring.faulted
    requires var r, refills := Run(Init(physAddr, init), trace, maxLength).ring, Refills(physAddr, init, trace, maxLength);
             |r.upcalls| <= j < |refills| && !Succeeds(refills[j])
    ensures var r, refills := Run(Init(physAddr, init), trace, maxLength).ring, Refills(physAddr, init, trace, maxLength);
            var i := LastSuccess(refills, j);
            && Shape(r) && i < |r.upcalls| && Succeeds(refills[i])
            && r.packets[Slot(j)] == refills[j].alloc
            && r.upcalls[i].mbuf == refills[i].alloc.value && r.chain[Slot(j)] == BdFor(r.upcalls[i].mbuf)
  {
    hide Init, Run, Refills, AllSucceed, Tally, Slot, BdFor, Used;
    RunLedger(physAddr, init, trace, maxLength);
    FirstRefills(physAddr, init, trace, maxLength);
    LastSuccessIs(Refills(physAddr, init, trace, maxLength), j);
  }

  /**
   Field by field, in every unfaulted state of every run of a filled ring: each descriptor
   addresses the segment of its slot's last successful refill and carries bits 2 and 3, end
   and start, and no other flag.
   */
  lemma PostedDescriptors(physAddr: U64, init: seq<Refill>, trace: seq<RxEvent>, maxLength: U16, j: nat)
    requires AllSucceed(init, USABLE_BDS) && !Run(Init(physAddr, init), trace, maxLength).ring.faulted
    requires |Run(Init(physAddr, init), trace, maxLength).ring.upcalls| <= j < |Refills(physAddr, init, trace, maxLength)|
    ensures var r, refills := Run(Init(physAddr, init), trace, maxLength).ring, Refills(physAddr, init, trace, maxLength);
            var i := LastSuccess(refills, j);
            && |r.chain| == 1024 && i < |refills| && refills[i].alloc.Some?
            && var bd, segment := r.chain[j % 1023], refills[i].alloc.value.segment;
               && bd.addrHi == segment.location / 0x1_0000_0000 && bd.addrLo == segment.location % 0x1_0000_0000
               && bd.length == segment.length && bd.flags == 0x4 + 0x8
  {
    hide Init, Run, Refills, AllSucceed, Tally, BdFor, Used, LastSuccess;
    var refills := Refills(physAddr, init, trace, maxLength);
    RunLedger(physAddr, init, trace, maxLength);
    FirstRefills(physAddr, init, trace, maxLength);
    LastSuccessIs(refills, j);
    BdFields(refills[LastSuccess(refills, j)].alloc.value);
  }

  lemma BdFields(m: Mbuf)
    ensures BdFor(m).addrHi == m.segment.location / 0x1_0000_0000 && BdFor(m).addrLo == m.segment.location % 0x1_0000_0000
    ensures BdFor(m).length == m.segment.length && BdFor(m).flags == 0x4 + 0x8
  {
  }

  function Receives(n: nat, h: Header): seq<RxEvent> {
    seq(n, _ => Receive(h))
  }

  /** The hardware has written `h` at the address in descriptor `bd`. */
  ghost predicate WrittenAt(mem: map<U64, Header>, bd: RxBd, h: Header) {
    JoinAddr(bd.addrHi, bd.addrLo) in mem && mem[JoinAddr(bd.addrHi, bd.addrLo)] == h
  }

  lemma ReceiveOne(s: RxSys, p: nat, h: Header, maxLength: U16)
    requires Tally(s, p) && |s.received| < p
    ensures Shape(s.ring)
    ensures var s' := Step(s, Receive(h), maxLength);
            && Tally(s', p) && s'.ring == s.ring && |s'.received| == |s.received| + 1
            && WrittenAt(s'.mem, s.ring.chain[Slot(|s.received|)], h)
  {
    TallyHardware(s, p, Receive(h), maxLength);
    hide IndexAfter, NextBd, Dist, InCycle, Normalize;
    IndexAfterFacts(|s.received|);
    DistOfCounters(|s.received|, p);
  }

  /** A run of receptions consumes the released descriptors in order. */
  lemma {:induction false} ReceiveMany(s: RxSys, p: nat, n: nat, h: Header, maxLength: U16)
    requires Tally(s, p) && |s.received| + n <= p
    ensures SysShape(s)
    ensures var s' := Run(s, Receives(n, h), maxLength);
            && Tally(s', p) && s'.ring == s.ring && |s'.received| == |s.received| + n
            && (n > 0 ==> WrittenAt(s'.mem, s.ring.chain[Slot(|s.received| + n - 1)], h))
  {
    hide Tally, Step, WrittenAt, Slot, Shape, SysShape;
    TallyShape(s, p);
    if n > 0 {
      ReceiveMany(s, p, n - 1, h, maxLength);
      assert Receives(n, h)[..n - 1] == Receives(n - 1, h);
      ReceiveOne(Run(s, Receives(n - 1, h), maxLength), p, h, maxLength);
    }
  }

  lemma BdAddress(m: Mbuf)
    ensures JoinAddr(BdFor(m).addrHi, BdFor(m).addrLo) == m.segment.location
  {
  }

  /**
   In every unfaulted state of every run of a filled ring: if the refill of a released counter
   the hardware has not used yet failed, receptions alone lead to a state in which the
   hardware has written a packet into the buffer of one that was freed or delivered before.
   */
  lemma HardwareWritesGivenAway(physAddr: U64, init: seq<Refill>, trace: seq<RxEvent>, maxLength: U16, j: nat, h: Header)
    requires AllSucceed(init, USABLE_BDS) && !Run(Init(physAddr, init), trace, maxLength).ring.faulted
    requires var s, refills := Run(Init(physAddr, init), trace, maxLength), Refills(physAddr, init, trace, maxLength);
             |s.received| <= j < Count(refills) && !Succeeds(refills[j])
    ensures var s, refills := Run(Init(physAddr, init), trace, maxLength), Refills(physAddr, init, trace, maxLength);
            var i, s' := LastSuccess(refills, j), Run(s, Receives(j + 1 - |s.received|, h), maxLength);
            && i < |s.ring.upcalls| && s'.ring == s.ring
            && s.ring.upcalls[i].mbuf.segment.location in s'.mem && s'.mem[s.ring.upcalls[i].mbuf.segment.location] == h
  {
    hide Init, Run, Refills, AllSucceed, Tally, Slot, BdFor, Count, Holds, InTurn, LastSuccess, Shape, SysShape;
    var s, refills := Run(Init(physAddr, init), trace, maxLength), Refills(physAddr, init, trace, maxLength);
    RunLedger(physAddr, init, trace, maxLength);
    LedgerBasics(s, refills);
    FailedRefillLeavesStaleDescriptor(physAddr, init, trace, maxLength, j);
    ReceiveMany(s, Count(refills), j + 1 - |s.received|, h, maxLength);
    BdAddress(s.ring.upcalls[LastSuccess(refills, j)].mbuf);
  }

  lemma PublishOne(s: RxSys, p: nat, atLink: bool, maxLength: U16)
    requires Tally(s, p)
    ensures var s' := Step(s, Publish(atLink), maxLength);
            Tally(s', p) && s'.ring == s.ring && s'.published == |s.received|
  {
    TallyHardware(s, p, Publish(atLink), maxLength);
  }

  /** The state in which the hardware has used and published every released descriptor. */
  function UsedUp(s: RxSys, n: nat, h: Header, atLink: bool, maxLength: U16): (s': RxSys)
    requires SysShape(s)
    ensures SysShape(s')
  {
    Step(Run(s, Receives(n, h), maxLength), Publish(atLink), maxLength)
  }

  /**
   In every unfaulted state of every run of a filled ring: once the hardware has used up what
   was released, the next interrupt meets an empty slot if and only if a released slot is one
   whose refill found no packet, whatever its own refills do.
   */
  lemma HandlerMeetsEmptySlotIff(physAddr: U64, init: seq<Refill>, trace: seq<RxEvent>, maxLength: U16,
                                 h: Header, atLink: bool, answers: seq<Refill>)
    requires AllSucceed(init, USABLE_BDS) && !Run(Init(physAddr, init), trace, maxLength).ring.faulted
    ensures var s, refills := Run(Init(physAddr, init), trace, maxLength), Refills(physAddr, init, trace, maxLength);
            && |s.received| <= Count(refills)
            && var s' := UsedUp(s, Count(refills) - |s.received|, h, atLink, maxLength);
               Step(s', Interrupt(answers), maxLength).ring.faulted <==>
               exists j :: |s.ring.upcalls| <= j < Count(refills) && refills[j].alloc.None?
  {
    hide Init, Run, Step, Refills, AllSucceed, Tally, Count, Holds, InTurn, Shape, SysShape;
    var s, refills := Run(Init(physAddr, init), trace, maxLength), Refills(physAddr, init, trace, maxLength);
    RunLedger(physAddr, init, trace, maxLength);
    LedgerBasics(s, refills);
    var p, n := Count(refills), Count(refills) - |s.received|;
    ReceiveMany(s, p, n, h, maxLength);
    PublishOne(Run(s, Receives(n, h), maxLength), p, atLink, maxLength);
    LedgerInterrupt(UsedUp(s, n, h, atLink, maxLength), refills, answers, maxLength);
  }

  // ----- A run -----

  /** Packets `k` with buffers of 2048 bytes one after the other. */
  function Buffer(k: nat): Refill
    requires k < TWO16
  {
    Refill(Some(Mbuf(k, Segment(2048 * k, 2048))), true)
  }

  function Buffers(): (answers: seq<Refill>)
    ensures |answers| == USABLE_BDS
  {
    seq(USABLE_BDS, k requires 0 <= k < USABLE_BDS => Buffer(k))
  }

  lemma BuffersSucceed()
    ensures AllSucceed(Buffers(), USABLE_BDS)
  {
    forall i | 0 <= i < USABLE_BDS
      ensures AnswerAt(Buffers(), i) == Buffer(i)
    {
    }
  }

  /** One packet arrives, is published, and its slot is refilled with answer `a`. */
  function OneTurn(h: Header, a: Refill): seq<RxEvent> {
    [Receive(h), Publish(false), Interrupt([a])]
  }

  /** All that is received has been handled, as before so after one more turn. */
  ghost predicate Settled(trace: seq<RxEvent>, maxLength: U16, refills: seq<Refill>) {
    var s := Run(Init(0, Buffers()), trace, maxLength);
    && !s.ring.faulted && |s.received| == s.published == |s.ring.upcalls|
    && refills == Refills(0, Buffers(), trace, maxLength)
  }

  lemma TurnSettles(trace: seq<RxEvent>, h: Header, a: Refill, maxLength: U16, refills: seq<Refill>)
    requires Settled(trace, maxLength, refills)
    requires var c := |Run(Init(0, Buffers()), trace, maxLength).ring.upcalls|;
             c < Count(refills) && c < |refills| && refills[c].alloc.Some?
    ensures var trace' := trace + OneTurn(h, a);
            && Settled(trace', maxLength, refills + [a])
            && |Run(Init(0, Buffers()), trace', maxLength).ring.upcalls| == |Run(Init(0, Buffers()), trace, maxLength).ring.upcalls| + 1
  {
    hide Init, Run, Step, Buffers, Tally, Holds, InTurn, Count, AllSucceed, Refills, Used, RefillsAsked, Shape, SysShape;
    BuffersSucceed();
    RunLedger(0, Buffers(), trace, maxLength);
    var s0 := Run(Init(0, Buffers()), trace, maxLength);
    var t1 := trace + [Receive(h)];
    var t2 := t1 + [Publish(false)];
    LedgerBasics(s0, refills);
    ReceiveOne(s0, Count(refills), h, maxLength);
    RefillsSnoc(0, Buffers(), trace, Receive(h), maxLength);
    RefillsSnoc(0, Buffers(), t1, Publish(false), maxLength);
    RefillsSnoc(0, Buffers(), t2, Interrupt([a]), maxLength);
    var s1 := Run(Init(0, Buffers()), t1, maxLength);
    var s2 := Run(Init(0, Buffers()), t2, maxLength);
    PublishOne(s1, Count(refills), false, maxLength);
    PublishKeeps(s1, false, maxLength);
    LedgerInterrupt(s2, refills, [a], maxLength);
    InterruptKeeps(s2, [a], maxLength);
    assert refills + [] + [] + Used([a], 1) == refills + [a] by { UsedOne(a); }
    assert t2 + [Interrupt([a])] == trace + OneTurn(h, a);
  }

  lemma UsedOne(a: Refill)
    ensures Used([a], 1) == [a]
  {
  }

  lemma PublishKeeps(s: RxSys, atLink: bool, maxLength: U16)
    requires SysShape(s)
    ensures Step(s, Publish(atLink), maxLength).received == s.received
  {
  }

  lemma InterruptKeeps(s: RxSys, answers: seq<Refill>, maxLength: U16)
    requires SysShape(s)
    ensures var s' := Step(s, Interrupt(answers), maxLength); s'.received == s.received && s'.published == s.published
  {
  }

  /**
   A run from initialisation in which no interrupt has a success after a failure, and which
   goes wrong: one packet arrives and its refill finds no packet, another arrives and its
   refill succeeds. Receptions then write into the buffer of packet 0, which was disposed of,
   and the interrupt after them meets an empty slot.
   */
  lemma FaultingRun(h: Header, maxLength: U16) returns (trace: seq<RxEvent>)
    ensures trace == OneTurn(h, Refill(None, false)) + OneTurn(h, Buffer(2000))
    ensures var s := Run(Init(0, Buffers()), trace, maxLength);
            && !s.ring.faulted && |s.ring.upcalls| == |s.received| == 2 && s.ring.upcalls[0].mbuf == Buffer(0).alloc.value
            && var s' := Run(s, Receives(1022, h), maxLength);
               0 in s'.mem && s'.mem[0] == h && Step(Step(s', Publish(false), maxLength), Interrupt([]), maxLength).ring.faulted
  {
    hide Init, Run, Step, Buffers, AllSucceed, Refills, Successes, Used, LastSuccess, DescriptorOf;
    trace := OneTurn(h, Refill(None, false)) + OneTurn(h, Buffer(2000));
    var t1 := OneTurn(h, Refill(None, false));
    var r0 := Used(Buffers(), USABLE_BDS);
    var r1 := r0 + [Refill(None, false)];
    var r2 := r1 + [Buffer(2000)];
    BuffersSucceed();
    StartSettled(maxLength);
    FirstBuffers();
    TurnSettles([], h, Refill(None, false), maxLength, r0);
    assert [] + t1 == t1;
    TurnSettles(t1, h, Buffer(2000), maxLength, r1);
    LastOfFailed(r2);
    HardwareWritesGivenAway(0, Buffers(), trace, maxLength, USABLE_BDS, h);
    HandlerMeetsEmptySlotIff(0, Buffers(), trace, maxLength, h, false, []);
    UpcallsInTurn(0, Buffers(), trace, maxLength);
  }

  lemma StartSettled(maxLength: U16)
    ensures Settled([], maxLength, Used(Buffers(), USABLE_BDS))
    ensures |Run(Init(0, Buffers()), [], maxLength).ring.upcalls| == 0
  {
    hide InitRing, Buffers, Leading, AllSucceed, SuccessBytes;
    BuffersSucceed();
    LeadingIs(Buffers(), USABLE_BDS);
    InitRingCounts(0, Buffers());
  }

  /** How many of the refills used succeeded, step by step. */
  lemma FirstBuffers()
    ensures var r0 := Used(Buffers(), USABLE_BDS); var r1 := r0 + [Refill(None, false)];
            && Count(r0) == Count(r1) == USABLE_BDS && Count(r1 + [Buffer(2000)]) == USABLE_BDS + 1
            && r0[0] == Buffer(0) && r0[1].alloc.Some?
  {
    hide Buffers, Successes, AllSucceed;
    var none, fails, b := [], [Refill(None, false)], [Buffer(2000)];
    var r0 := Used(Buffers(), USABLE_BDS);
    BuffersSucceed();
    FirstAnswers();
    AllSucceedCounted(Buffers(), 0, USABLE_BDS);
    CountAppend(none, Buffers(), USABLE_BDS);
    CountAppend(r0, fails, 1);
    CountAppend(r0 + fails, b, 1);
    UsedOne(fails[0]);
    UsedOne(b[0]);
    assert none + r0 == r0;
    SingleCounts();
  }

  lemma FirstAnswers()
    ensures AnswerAt(Buffers(), 0) == Buffer(0) && AnswerAt(Buffers(), 1) == Buffer(1)
    ensures forall i {:trigger AnswerAt(Buffers(), i)} | 0 <= i < USABLE_BDS :: Succeeds(AnswerAt(Buffers(), i))
  {
  }

  lemma SingleCounts()
    ensures Successes([], 0, 0) == 0
    ensures Successes([Refill(None, false)], 0, 1) == 0 && Successes([Buffer(2000)], 0, 1) == 1
  {
  }

  lemma LastOfFailed(refills: seq<Refill>)
    requires |refills| > USABLE_BDS && !Succeeds(refills[USABLE_BDS]) && Succeeds(refills[0])
    ensures LastSuccess(refills, USABLE_BDS) == 0
  {
  }
}
