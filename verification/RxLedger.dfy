/**
 The ledger of a receive ring: all the refill answers a run has used, in order, whether they
 were successes or not. In every unfaulted state of every run the ledger determines the
 contents of the ring, its descriptors, its indices and what was freed or delivered.

 Refill `j` of the ledger is the one that filled counter `j`: the first ring of them at
 start, and from then on refill `j` in the turn of upcall `j - 1023`.
 */
module RxLedger {
  import opened Machine
  import opened RingIndex
  import opened RxRing
  import opened RxSystem
  import opened RxBatches
  import opened RxRefills

  // ----- The refills of a run -----

  /** The first `n` answers, padded as the allocator runs out. */
  function Used(answers: seq<Refill>, n: nat): (used: seq<Refill>)
    ensures |used| == n
    ensures forall i | 0 <= i < n :: used[i] == AnswerAt(answers, i)
  {
    seq(n, i requires 0 <= i < n => AnswerAt(answers, i))
  }

  /** Initialisation asks for a whole ring of refills but stops at the first that fails. */
  function Asked(init: seq<Refill>): (n: nat)
    ensures n <= USABLE_BDS
  {
    if Leading(init, USABLE_BDS) == USABLE_BDS then USABLE_BDS else Leading(init, USABLE_BDS) + 1
  }

  /** The answers used by a run, from initialisation on. */
  function Refills(physAddr: U64, init: seq<Refill>, trace: seq<RxEvent>, maxLength: U16): seq<Refill> {
    if trace == [] then Used(init, Asked(init))
    else
      var s, e := Run(Init(physAddr, init), trace[..|trace| - 1], maxLength), trace[|trace| - 1];
      Refills(physAddr, init, trace[..|trace| - 1], maxLength)
      + (if e.Interrupt? then Used(e.answers, RefillsAsked(s, e, maxLength)) else [])
  }

  /** How many of the refills succeeded. */
  function Count(refills: seq<Refill>): (n: nat)
    ensures n <= |refills|
  {
    Successes(refills, 0, |refills|)
  }

  lemma {:induction false} SameSuccesses(a: seq<Refill>, k: nat, b: seq<Refill>, l: nat, n: nat)
    requires forall i {:trigger AnswerAt(a, i)} | k <= i < k + n :: AnswerAt(a, i) == AnswerAt(b, i - k + l)
    ensures Successes(a, k, n) == Successes(b, l, n)
    decreases n
  {
    if n != 0 {
      assert AnswerAt(a, k) == AnswerAt(b, l);
      SameSuccesses(a, k + 1, b, l + 1, n - 1);
    }
  }

  lemma CountAppend(refills: seq<Refill>, answers: seq<Refill>, n: nat)
    ensures Count(refills + Used(answers, n)) == Count(refills) + Successes(answers, 0, n)
  {
    hide Successes;
    var all := refills + Used(answers, n);
    SuccessesSplit(all, 0, |refills|, n);
    SameSuccesses(all, 0, refills, 0, |refills|);
    SameSuccesses(all, |refills|, answers, 0, n);
  }

  /** A failure among the first `Count` refills is followed by a success. */
  lemma SuccessAfter(refills: seq<Refill>, j: nat)
    requires j < Count(refills) && !Succeeds(refills[j])
    ensures exists k :: j < k < |refills| && Succeeds(refills[k])
  {
    hide Successes;
    SuccessesSplit(refills, 0, j, |refills| - j);
    NoneSucceedCounted(refills, j, |refills| - j);
    var k :| j <= k < |refills| && Succeeds(AnswerAt(refills, k));
    assert k != j && Succeeds(refills[k]);
  }

  // ----- The ledger -----

  /** The descriptor at counter `j`: that of the last successful refill of its slot. */
  function DescriptorOf(refills: seq<Refill>, j: nat): RxBd
    requires j < |refills|
  {
    if Succeeds(refills[j]) then BdFor(refills[j].alloc.value)
    else if j < USABLE_BDS then ZERO_BD
    else DescriptorOf(refills, j - USABLE_BDS)
  }

  lemma {:induction false} DescriptorPrefix(refills: seq<Refill>, more: seq<Refill>, j: nat)
    requires j < |refills|
    ensures DescriptorOf(refills + more, j) == DescriptorOf(refills, j)
  {
    if !Succeeds(refills[j]) && j >= USABLE_BDS {
      DescriptorPrefix(refills, more, j - USABLE_BDS);
    }
  }

  /** What the slots hold, the ring at counter `c` and the refills up to one ring later being known. */
  ghost predicate Holds(r: RxState, c: nat, refills: seq<Refill>) {
    && Shape(r) && |refills| == c + USABLE_BDS
    && forall j | c <= j < |refills| ::
         r.packets[Slot(j)] == refills[j].alloc && r.chain[Slot(j)] == DescriptorOf(refills, j)
  }

  /** Upcall `k` is about the packet that refill `k` obtained. */
  ghost predicate InTurn(upcalls: seq<Upcall>, refills: seq<Refill>) {
    && |upcalls| <= |refills|
    && forall k | 0 <= k < |upcalls| :: refills[k].alloc == Some(upcalls[k].mbuf)
  }

  ghost predicate Ledger(s: RxSys, refills: seq<Refill>) {
    && Tally(s, Count(refills))
    && Holds(s.ring, |s.ring.upcalls|, refills)
    && InTurn(s.ring.upcalls, refills)
  }

  lemma LedgerBasics(s: RxSys, refills: seq<Refill>)
    requires Ledger(s, refills)
    ensures SysShape(s) && Shape(s.ring) && |refills| == |s.ring.upcalls| + USABLE_BDS
    ensures |s.ring.upcalls| <= s.published <= |s.received| <= Count(refills) <= |refills|
    ensures s.ring.cons == IndexAfter(|s.ring.upcalls|) && s.ring.hostBidx == IndexAfter(Count(refills))
    ensures At(s.ring, |s.ring.upcalls|, Count(refills)) && !s.ring.faulted
    ensures Normalize(s.rawCons) == IndexAfter(s.published)
  {
  }

  /** Refilling the batch from `c` to `q` moves the ring one stretch along the ledger. */
  lemma HoldsAfterBatch(r: RxState, r': RxState, c: nat, q: nat, refills: seq<Refill>, answers: seq<Refill>)
    requires Holds(r, c, refills) && Shape(r') && c <= q <= c + USABLE_BDS
    requires Contents(r, r', c, q, answers, 0)
    ensures Holds(r', q, refills + Used(answers, q - c))
  {
    hide Slot, BdFor;
    var all := refills + Used(answers, q - c);
    forall j | q <= j < |all|
      ensures r'.packets[Slot(j)] == all[j].alloc && r'.chain[Slot(j)] == DescriptorOf(all, j)
    {
      if j < |refills| {
        DescriptorPrefix(refills, Used(answers, q - c), j);
      } else {
        var i := j - USABLE_BDS;
        SlotPeriod(i);
        DescriptorPrefix(refills, Used(answers, q - c), i);
        assert all[j] == AnswerAt(answers, 0 + (i - c));
      }
    }
  }

  lemma InTurnAfterBatch(r: RxState, r': RxState, c: nat, q: nat, refills: seq<Refill>, more: seq<Refill>)
    requires Holds(r, c, refills) && c == |r.upcalls| <= q <= c + USABLE_BDS && Disposed(r, r', c, q)
    requires InTurn(r.upcalls, refills)
    ensures InTurn(r'.upcalls, refills + more)
  {
    hide Slot;
    forall k | 0 <= k < q
      ensures refills[k].alloc == Some(r'.upcalls[k].mbuf)
    {
      if k < c {
        assert r'.upcalls[k] == r.upcalls[k];
      } else {
        assert r.packets[Slot(k)] == Some(r'.upcalls[c + (k - c)].mbuf);
      }
    }
  }

  /** What an interrupt does, in terms of the ledger: an exact condition for meeting an empty slot. */
  lemma LedgerInterrupt(s: RxSys, refills: seq<Refill>, answers: seq<Refill>, maxLength: U16)
    requires Ledger(s, refills)
    ensures var s' := Step(s, Interrupt(answers), maxLength); var n := s.published - |s.ring.upcalls|;
            && 0 <= n && s.published <= |refills|
            && (s'.ring.faulted <==> exists j :: |s.ring.upcalls| <= j < s.published && refills[j].alloc.None?)
            && (!s'.ring.faulted ==> && RefillsAsked(s, Interrupt(answers), maxLength) == n
                                     && |s'.ring.upcalls| == s.published
                                     && Ledger(s', refills + Used(answers, n)))
  {
    hide TakeAll, Slot, IndexAfter, Dist, InCycle, Tally, Contents, Disposed, InTurn, Holds, At, EmptySlot, Normalize, Shape, SysShape, Count;
    var c, p, q, env := |s.ring.upcalls|, Count(refills), s.published, RxEnv(maxLength, s.mem, answers);
    LedgerBasics(s, refills);
    var s' := Step(s, Interrupt(answers), maxLength);
    DistOfCounters(c, q);
    IndexAfterFacts(q);
    EmptySlotIff(s.ring, c, q, refills);
    if c == q {
      NoBatchContents(s.ring, c, answers, 0);
      NoDisposals(s.ring, c);
    } else {
      BatchContents(s.ring, c, p, q, {}, env, 0);
      BatchDisposals(s.ring, c, p, q, {}, env, 0);
      BatchFaults(s.ring, IndexAfter(q), env);
    }
    if !s'.ring.faulted {
      TallyInterrupt(s, p, answers, maxLength);
      CountAppend(refills, answers, q - c);
      DoorbellKeeps(s.ring, if c == q then s.ring else TakeAll(s.ring, IndexAfter(q), {}, env, 0), s'.ring, c, q, answers);
      HoldsAfterBatch(s.ring, s'.ring, c, q, refills, answers);
      InTurnAfterBatch(s.ring, s'.ring, c, q, refills, Used(answers, q - c));
    }
  }

  lemma EmptySlotIff(r: RxState, c: nat, q: nat, refills: seq<Refill>)
    requires Holds(r, c, refills) && c <= q <= c + USABLE_BDS
    ensures EmptySlot(r, c, q) <==> exists j :: c <= j < q && refills[j].alloc.None?
  {
    hide Slot;
    if j :| c <= j < q && refills[j].alloc.None? {
      EmptyAt(r, c, q, j);
    }
  }

  lemma BatchFaults(r: RxState, target: U16, env: RxEnv)
    requires Shape(r) && InCycle(target)
    ensures var r1, r' := TakeAll(r, target, {}, env, 0), HandleInterrupt(r, target, env);
            r'.faulted == r1.faulted && (!r1.faulted ==> r' == RingDoorbell(r1))
  {
  }

  lemma DoorbellKeeps(r: RxState, r1: RxState, r': RxState, c: nat, q: nat, answers: seq<Refill>)
    requires Shape(r) && Shape(r1) && c <= q && Contents(r, r1, c, q, answers, 0) && Disposed(r, r1, c, q)
    requires r' == r1 || r' == RingDoorbell(r1)
    ensures Shape(r') && Contents(r, r', c, q, answers, 0) && Disposed(r, r', c, q)
  {
    hide Slot, BdFor;
  }

  lemma LedgerHardware(s: RxSys, refills: seq<Refill>, e: RxEvent, maxLength: U16)
    requires Ledger(s, refills) && !e.Interrupt?
    ensures Ledger(Step(s, e, maxLength), refills) && Step(s, e, maxLength).ring == s.ring
  {
    hide Tally, Slot, Count;
    TallyShape(s, Count(refills));
    TallyHardware(s, Count(refills), e, maxLength);
    HardwareKeepsRing(s, e, maxLength);
  }

  lemma TallyShape(s: RxSys, p: nat)
    requires Tally(s, p)
    ensures SysShape(s) && Shape(s.ring)
  {
  }

  lemma HardwareKeepsRing(s: RxSys, e: RxEvent, maxLength: U16)
    requires SysShape(s) && !e.Interrupt?
    ensures Step(s, e, maxLength).ring == s.ring
  {
  }

  // ----- Every run -----

  lemma RefillsSnoc(physAddr: U64, init: seq<Refill>, trace: seq<RxEvent>, e: RxEvent, maxLength: U16)
    ensures var s := Run(Init(physAddr, init), trace, maxLength); var refills := Refills(physAddr, init, trace, maxLength);
            && Run(Init(physAddr, init), trace + [e], maxLength) == Step(s, e, maxLength)
            && Refills(physAddr, init, trace + [e], maxLength) ==
               refills + (if e.Interrupt? then Used(e.answers, RefillsAsked(s, e, maxLength)) else [])
  {
    hide Init, Step, Used, RefillsAsked;
    assert (trace + [e])[..|trace|] == trace;
  }

  lemma LedgerAtStart(physAddr: U64, init: seq<Refill>, maxLength: U16)
    requires AllSucceed(init, USABLE_BDS)
    ensures Ledger(Init(physAddr, init), Used(init, USABLE_BDS))
  {
    hide Leading, SuccessBytes, InitRing, Wrap32, Tally, Init, Successes;
    var s, all := Init(physAddr, init), Used(init, USABLE_BDS);
    LeadingIs(init, USABLE_BDS);
    InitRingCounts(physAddr, init);
    assert Run(s, [], maxLength) == s;
    RunTally(physAddr, init, [], maxLength);
    NoPosts(physAddr, init, maxLength);
    CountAppend([], init, USABLE_BDS);
    assert [] + all == all;
    AllSucceedCounted(init, 0, USABLE_BDS);
    InitialSlots(physAddr, init);
    forall j | 0 <= j < USABLE_BDS
      ensures Slot(j) == j
    {
      QuotientIsUnique(j, 0, j);
    }
    TallyShape(s, USABLE_BDS);
  }

  lemma NoPosts(physAddr: U64, init: seq<Refill>, maxLength: U16)
    ensures TotalPosts(physAddr, init, [], maxLength) == Leading(init, USABLE_BDS)
    ensures Successes([], 0, 0) == 0
  {
  }

  lemma InitialSlots(physAddr: U64, init: seq<Refill>)
    requires AllSucceed(init, USABLE_BDS)
    ensures var r := Init(physAddr, init).ring;
            && Shape(r)
            && forall j | 0 <= j < USABLE_BDS :: r.packets[j] == AnswerAt(init, j).alloc && r.chain[j] == BdFor(AnswerAt(init, j).alloc.value)
  {
    InitSlotsFill(ResetRing(ZeroRing(), physAddr), USABLE_BDS, init);
    hide InitSlots, BdFor, AllSucceed;
  }

  /** In every unfaulted state of every run of a filled ring the ledger holds. */
  lemma {:induction false} RunLedger(physAddr: U64, init: seq<Refill>, trace: seq<RxEvent>, maxLength: U16)
    requires AllSucceed(init, USABLE_BDS)
    requires !Run(Init(physAddr, init), trace, maxLength).ring.faulted
    ensures Ledger(Run(Init(physAddr, init), trace, maxLength), Refills(physAddr, init, trace, maxLength))
  {
    hide Init, Step, Ledger, Leading, AllSucceed, Used, RefillsAsked;
    if trace == [] {
      LeadingIs(init, USABLE_BDS);
      LedgerAtStart(physAddr, init, maxLength);
    } else {
      var before, e := trace[..|trace| - 1], trace[|trace| - 1];
      var s, refills := Run(Init(physAddr, init), before, maxLength), Refills(physAddr, init, before, maxLength);
      RefillsSnoc(physAddr, init, before, e, maxLength);
      assert trace == before + [e];
      if s.ring.faulted {
        FaultStays(s, e, maxLength);
      } else {
        RunLedger(physAddr, init, before, maxLength);
        if e.Interrupt? {
          LedgerInterrupt(s, refills, e.answers, maxLength);
        } else {
          LedgerHardware(s, refills, e, maxLength);
          assert refills + [] == refills;
        }
      }
    }
  }

  /** A ring that could not be filled uses no refills after its start. */
  lemma {:induction false} UnfilledLedger(physAddr: U64, init: seq<Refill>, trace: seq<RxEvent>, maxLength: U16)
    requires !AllSucceed(init, USABLE_BDS)
    ensures Refills(physAddr, init, trace, maxLength) == Used(init, Leading(init, USABLE_BDS) + 1)
  {
    hide Init, Step, Run, Leading, AllSucceed, Used, Idle;
    if trace == [] {
      LeadingIs(init, USABLE_BDS);
    } else {
      var before, e := trace[..|trace| - 1], trace[|trace| - 1];
      UnfilledLedger(physAddr, init, before, maxLength);
      RefillsSnoc(physAddr, init, before, e, maxLength);
      assert trace == before + [e];
      UnfilledRingReceivesNothing(physAddr, init, before, maxLength);
      UnfilledRingReceivesNothing(physAddr, init, trace, maxLength);
      SameRing(Run(Init(physAddr, init), before, maxLength), Run(Init(physAddr, init), trace, maxLength), Init(physAddr, init).ring);
      assert Used([], 0) == [];
    }
  }

  lemma SameRing(s: RxSys, s': RxSys, r: RxState)
    requires Idle(s, r) && Idle(s', r)
    ensures s'.ring == s.ring == r && r.cons == r.hostBidx == 0 && !r.faulted
  {
  }

  /**
   In every unfaulted state of every run, filled or not and whatever failed, upcall `k` is
   about the packet that refill `k` of the run obtained: packets leave the ring in the order
   in which they entered it, each once.
   */
  lemma UpcallsInTurn(physAddr: U64, init: seq<Refill>, trace: seq<RxEvent>, maxLength: U16)
    requires !Run(Init(physAddr, init), trace, maxLength).ring.faulted
    ensures InTurn(Run(Init(physAddr, init), trace, maxLength).ring.upcalls, Refills(physAddr, init, trace, maxLength))
  {
    hide Init, Run, Refills, AllSucceed, Tally, Idle, Holds;
    if AllSucceed(init, USABLE_BDS) {
      RunLedger(physAddr, init, trace, maxLength);
    } else {
      UnfilledRingReceivesNothing(physAddr, init, trace, maxLength);
      SameRing(Run(Init(physAddr, init), trace, maxLength), Run(Init(physAddr, init), trace, maxLength), Init(physAddr, init).ring);
      InitRingCounts(physAddr, init);
    }
  }
}
