/**
 Runs of the receive ring in which refills may fail at any time: what the producer and the
 byte counter have counted, when producer and slots are still aligned, and which
 descriptors reach the hardware without a buffer of their own.
 */
module RxRefills {
  import opened Machine
  import opened RingIndex
  import opened RxRing
  import opened RxSystem
  import opened RxBatches

  // ----- A ring filled at start, wholly or in part -----

  /** How many slots are filled before the first failure. */
  function Leading(answers: seq<Refill>, n: nat): (l: nat)
    ensures l <= n
  {
    if n == 0 then 0
    else if Leading(answers, n - 1) == n - 1 && Succeeds(AnswerAt(answers, n - 1)) then n
    else Leading(answers, n - 1)
  }

  lemma {:induction false} LeadingIs(answers: seq<Refill>, n: nat)
    ensures AllSucceed(answers, Leading(answers, n))
    ensures Leading(answers, n) < n ==> !Succeeds(AnswerAt(answers, Leading(answers, n)))
    ensures Leading(answers, n) == n <==> AllSucceed(answers, n)
  {
    if n != 0 {
      LeadingIs(answers, n - 1);
      assert AnswerAt(answers, n - 1) == AnswerAt(answers, n - 1);
    }
  }

  lemma {:induction false} BytesSnoc(answers: seq<Refill>, k: nat, n: nat)
    ensures SuccessBytes(answers, k, n + 1) ==
            SuccessBytes(answers, k, n)
            + (if Succeeds(AnswerAt(answers, k + n)) then AnswerAt(answers, k + n).alloc.value.segment.length else 0)
    decreases n
  {
    if n != 0 {
      BytesSnoc(answers, k + 1, n - 1);
    }
  }

  /** What initialisation, complete or not, has posted, and what it leaves alone. */
  ghost predicate Started(r: RxState, r': RxState, ok: bool, n: nat, answers: seq<Refill>) {
    && n <= USABLE_BDS && ok == (Leading(answers, n) == n)
    && r'.prod == Advance(r.prod, Leading(answers, n))
    && r'.bufferSize == Wrap32(r.bufferSize + SuccessBytes(answers, 0, Leading(answers, n)))
    && r'.hostBidx == r.hostBidx && r'.hostBseq == r.hostBseq && r'.cons == r.cons
    && r'.upcalls == r.upcalls && r'.faulted == r.faulted
    && (ok ==> |r'.packets| == USABLE_BDS
               && (forall i | 0 <= i < n :: r'.packets[i].Some?) && (forall i | n <= i < USABLE_BDS :: r'.packets[i] == None))
  }

  /**
   Initialisation succeeds exactly when every answer does; otherwise the producer and the
   byte counter have counted the slots before the first failure, and no doorbell has rung.
   */
  lemma {:induction false} InitCounts(r: RxState, n: nat, answers: seq<Refill>)
    requires Shape(r) && n <= USABLE_BDS && |r.packets| == USABLE_BDS
    requires forall i | 0 <= i < USABLE_BDS :: r.packets[i] == None
    ensures var (r', ok) := InitSlots(r, n, answers); Started(r, r', ok, n, answers)
  {
    if n != 0 {
      InitCounts(r, n - 1, answers);
      InitCountsStep(r, InitSlots(r, n - 1, answers).0, InitSlots(r, n - 1, answers).1, n - 1, answers);
    } else {
      U32Fixed(r.bufferSize);
    }
  }

  lemma U32Fixed(x: U32)
    ensures Wrap32(x) == x
  {
  }

  lemma InitCountsStep(r: RxState, r1: RxState, ok: bool, n: nat, answers: seq<Refill>)
    requires Shape(r1) && n < USABLE_BDS && Started(r, r1, ok, n, answers)
    ensures var (r', ok') := if ok then InitDescriptor(r1, n, false, AnswerAt(answers, n)) else (r1, false);
            Started(r, r', ok', n + 1, answers)
  {
    hide NextBd, Wrap32, InCycle, BdIndex, SuccessBytes, BdFor;
    BytesSnoc(answers, 0, n);
    var a := AnswerAt(answers, n);
    if ok && Succeeds(a) {
      RefillEffect(r1, n, false, a);
      Wrap32Absorbs(r.bufferSize + SuccessBytes(answers, 0, n), a.alloc.value.segment.length);
    }
  }

  // ----- Filling from any state -----

  /** The bytes in the buffers of the first `n` slots. */
  function SlotBytes(packets: seq<Option<Mbuf>>, n: nat): nat
    requires n <= |packets|
  {
    if n == 0 then 0
    else SlotBytes(packets, n - 1) + (if packets[n - 1].Some? then packets[n - 1].value.segment.length else 0)
  }

  /** What slot `i` holds after a fill: the packet that was there, or else what the allocator gave. */
  function KeptOr(r: RxState, i: nat, answers: seq<Refill>): Option<Mbuf>
    requires i < |r.packets|
  {
    if r.packets[i].Some? then r.packets[i] else AnswerAt(answers, i).alloc
  }

  /** The first `n` slots of `r'` are filled, keeping packets already there, and the others are as in `r`. */
  ghost predicate FilledFrom(r: RxState, r': RxState, n: nat, answers: seq<Refill>) {
    && Shape(r) && Shape(r') && n <= USABLE_BDS
    && r' == r.(chain := r'.chain, packets := r'.packets, prod := Advance(r.prod, n),
                bufferSize := Wrap32(r.bufferSize + SlotBytes(r'.packets, n)))
    && (forall i | 0 <= i < n :: r'.packets[i] == KeptOr(r, i, answers) && r'.packets[i].Some?
                                 && r'.chain[i] == BdFor(r'.packets[i].value))
    && (forall i | n <= i < USABLE_BDS :: r'.packets[i] == r.packets[i] && r'.chain[i] == r.chain[i])
  }

  lemma {:induction false} SlotBytesSame(a: seq<Option<Mbuf>>, b: seq<Option<Mbuf>>, n: nat)
    requires n <= |a| && n <= |b| && a[..n] == b[..n]
    ensures SlotBytes(a, n) == SlotBytes(b, n)
  {
    if n != 0 {
      assert a[..n][n - 1] == b[..n][n - 1];
      assert a[..n - 1] == a[..n][..n - 1] == b[..n - 1];
      SlotBytesSame(a, b, n - 1);
    }
  }

  /**
   From any state, whatever packets are still in the slots: filling succeeds exactly when every
   slot has or gets a packet that maps to one segment, and then every slot holds the packet it
   had, or else the one allocated for it, behind a descriptor of its own.
   */
  lemma {:induction false} InitAnyState(r: RxState, n: nat, answers: seq<Refill>)
    requires Shape(r) && n <= USABLE_BDS
    ensures var (r', ok) := InitSlots(r, n, answers);
            && (ok <==> forall i | 0 <= i < n :: KeptOr(r, i, answers).Some? && AnswerAt(answers, i).mapped)
            && (ok ==> FilledFrom(r, r', n, answers))
  {
    hide FilledFrom, InitDescriptor, KeptOr;
    if n == 0 {
      FilledNothing(r, answers);
    } else {
      InitAnyState(r, n - 1, answers);
      var (r1, ok) := InitSlots(r, n - 1, answers);
      if ok {
        FilledOneMore(r, r1, n - 1, answers);
      }
    }
  }

  lemma FilledNothing(r: RxState, answers: seq<Refill>)
    requires Shape(r)
    ensures FilledFrom(r, r, 0, answers)
  {
  }

  lemma FilledOneMore(r: RxState, r1: RxState, n: nat, answers: seq<Refill>)
    requires Shape(r1) && n < USABLE_BDS && FilledFrom(r, r1, n, answers)
    ensures var (r', ok) := InitDescriptor(r1, n, false, AnswerAt(answers, n));
            && (ok <==> KeptOr(r, n, answers).Some? && AnswerAt(answers, n).mapped)
            && (ok ==> FilledFrom(r, r', n + 1, answers))
  {
    hide NextBd, InCycle, Wrap32, AddrHi, AddrLo;
    var (r', ok) := InitDescriptor(r1, n, false, AnswerAt(answers, n));
    assert r'.packets[..n] == r1.packets[..n];
    SlotBytesSame(r1.packets, r'.packets, n);
    if ok {
      Wrap32Absorbs(r.bufferSize + SlotBytes(r1.packets, n), r'.packets[n].value.segment.length);
    }
  }

  /** So initialisation, from any state, leaves a full ring with its indices one page apart and both doorbells rung. */
  lemma FullAfterInit(r: RxState, physAddr: U64, answers: seq<Refill>)
    requires Shape(r)
    ensures var (r', ok) := InitRing(r, physAddr, answers);
            && (ok <==> forall i | 0 <= i < USABLE_BDS :: KeptOr(r, i, answers).Some? && AnswerAt(answers, i).mapped)
            && (ok ==> && r'.cons == 0 && r'.prod == 1024 == r'.hostBidx
                       && r'.hostBseq == r'.bufferSize == SlotBytes(r'.packets, USABLE_BDS) % 0x1_0000_0000
                       && forall i | 0 <= i < USABLE_BDS :: r'.packets[i] == KeptOr(r, i, answers) && r'.packets[i].Some?
                                                            && r'.chain[i] == BdFor(r'.packets[i].value))
            && (!ok ==> r'.hostBidx == r.hostBidx && r'.hostBseq == r.hostBseq)
  {
    hide InitSlots, KeptOr, BdFor, NextBd, SlotBytes;
    var r0 := ResetRing(r, physAddr);
    InitAnyState(r0, USABLE_BDS, answers);
    assert forall i | 0 <= i < USABLE_BDS :: KeptOr(r0, i, answers) == KeptOr(r, i, answers) by { SameKept(r, r0, answers); }
    OneRingLater(0);
    FailedKeepsDoorbell(r0, USABLE_BDS, answers);
  }

  lemma SameKept(r: RxState, r0: RxState, answers: seq<Refill>)
    requires r0.packets == r.packets
    ensures forall i | 0 <= i < |r.packets| :: KeptOr(r0, i, answers) == KeptOr(r, i, answers)
  {
  }

  lemma {:induction false} FailedKeepsDoorbell(r: RxState, n: nat, answers: seq<Refill>)
    requires Shape(r) && n <= USABLE_BDS
    ensures var r' := InitSlots(r, n, answers).0; r'.hostBidx == r.hostBidx && r'.hostBseq == r.hostBseq
  {
    if n != 0 {
      FailedKeepsDoorbell(r, n - 1, answers);
    }
  }

  // ----- Accounting over runs -----

  /** The refills asked for by one step: one for each upcall it makes. */
  function RefillsAsked(s: RxSys, e: RxEvent, maxLength: U16): nat
    requires SysShape(s)
  {
    |Step(s, e, maxLength).ring.upcalls| - |s.ring.upcalls|
  }

  /** How many refills of a run succeeded, and the bytes they posted. */
  function Posts(s: RxSys, trace: seq<RxEvent>, maxLength: U16): nat
    requires SysShape(s)
  {
    if trace == [] then 0
    else
      var s1, e := Run(s, trace[..|trace| - 1], maxLength), trace[|trace| - 1];
      Posts(s, trace[..|trace| - 1], maxLength)
      + (if e.Interrupt? then Successes(e.answers, 0, RefillsAsked(s1, e, maxLength)) else 0)
  }

  function PostedBytes(s: RxSys, trace: seq<RxEvent>, maxLength: U16): nat
    requires SysShape(s)
  {
    if trace == [] then 0
    else
      var s1, e := Run(s, trace[..|trace| - 1], maxLength), trace[|trace| - 1];
      PostedBytes(s, trace[..|trace| - 1], maxLength)
      + (if e.Interrupt? then SuccessBytes(e.answers, 0, RefillsAsked(s1, e, maxLength)) else 0)
  }

  /** Every refill of a run succeeded. */
  ghost predicate EveryRefillSucceeded(s: RxSys, trace: seq<RxEvent>, maxLength: U16)
    requires SysShape(s)
  {
    trace == [] ||
    var s1, e := Run(s, trace[..|trace| - 1], maxLength), trace[|trace| - 1];
    && EveryRefillSucceeded(s, trace[..|trace| - 1], maxLength)
    && (e.Interrupt? ==> AllSucceed(e.answers, RefillsAsked(s1, e, maxLength)))
  }

  /** One step adds to producer and byte counter what its successful refills post. */
  lemma StepCounts(s: RxSys, e: RxEvent, maxLength: U16)
    requires SysShape(s)
    ensures var s' := Step(s, e, maxLength);
            if e.Interrupt? then Counted(s.ring, s'.ring, e.answers, 0, RefillsAsked(s, e, maxLength))
            else s'.ring == s.ring
  {
    hide Counted, TakeAll, Dist, Normalize;
    if e.Interrupt? {
      var env := RxEnv(maxLength, s.mem, e.answers);
      ProducerCountsSuccesses(s.ring, Target(s), {}, env, 0);
      CountedNone(s.ring, e.answers, 0);
      var r1 := TakeAll(s.ring, Target(s), {}, env, 0);
      CountedDoorbell(s.ring, r1, e.answers, |r1.upcalls| - |s.ring.upcalls|);
    }
  }

  lemma CountedDoorbell(r: RxState, r': RxState, answers: seq<Refill>, n: nat)
    requires Counted(r, r', answers, 0, n)
    ensures Counted(r, RingDoorbell(r'), answers, 0, n)
  {
  }

  lemma {:induction false} AdvanceAdds(x: U16, a: nat, b: nat)
    ensures Advance(Advance(x, a), b) == Advance(x, a + b)
  {
    if b != 0 {
      AdvanceAdds(x, a, b - 1);
    }
  }

  lemma AccountedStep(r: RxState, r1: RxState, r2: RxState, n: nat, bytes: nat, answers: seq<Refill>, k: nat)
    requires Accounted(r, r1, n, bytes) && Counted(r1, r2, answers, 0, k)
    ensures Accounted(r, r2, n + Successes(answers, 0, k), bytes + SuccessBytes(answers, 0, k))
  {
    hide Successes, SuccessBytes, Wrap32, Advance;
    AdvanceAdds(r.prod, n, Successes(answers, 0, k));
    Wrap32Absorbs(r.bufferSize + bytes, SuccessBytes(answers, 0, k));
  }

  /** One more event of a run, in each of the records kept of it. */
  lemma RecordSnoc(s: RxSys, trace: seq<RxEvent>, e: RxEvent, maxLength: U16)
    requires SysShape(s)
    ensures var s1 := Run(s, trace, maxLength);
            var n := RefillsAsked(s1, e, maxLength);
            && Run(s, trace + [e], maxLength) == Step(s1, e, maxLength)
            && Posts(s, trace + [e], maxLength) == Posts(s, trace, maxLength) + (if e.Interrupt? then Successes(e.answers, 0, n) else 0)
            && PostedBytes(s, trace + [e], maxLength) ==
               PostedBytes(s, trace, maxLength) + (if e.Interrupt? then SuccessBytes(e.answers, 0, n) else 0)
            && (EveryRefillSucceeded(s, trace + [e], maxLength) <==>
                  EveryRefillSucceeded(s, trace, maxLength) && (e.Interrupt? ==> AllSucceed(e.answers, n)))
  {
    hide Step, Successes, SuccessBytes, AllSucceed;
    assert (trace + [e])[..|trace|] == trace;
  }

  /**
   From any state and over any run, whatever the allocator answers and even if a handler
   meets an empty slot: the producer has advanced by exactly the successful refills and the
   byte counter by exactly their lengths.
   */
  lemma {:induction false} RunCounts(s: RxSys, trace: seq<RxEvent>, maxLength: U16)
    requires SysShape(s)
    ensures Accounted(s.ring, Run(s, trace, maxLength).ring, Posts(s, trace, maxLength), PostedBytes(s, trace, maxLength))
    decreases |trace|, 1
  {
    if trace == [] {
      U32Fixed(s.ring.bufferSize);
    } else {
      RunCountsStep(s, trace[..|trace| - 1], trace[|trace| - 1], maxLength);
      assert trace == trace[..|trace| - 1] + [trace[|trace| - 1]];
    }
  }

  lemma {:induction false} RunCountsStep(s: RxSys, trace: seq<RxEvent>, e: RxEvent, maxLength: U16)
    requires SysShape(s)
    ensures Accounted(s.ring, Run(s, trace + [e], maxLength).ring,
                      Posts(s, trace + [e], maxLength), PostedBytes(s, trace + [e], maxLength))
    decreases |trace| + 1, 0
  {
    hide Run, Step, Posts, PostedBytes, Accounted, Counted, Successes, SuccessBytes, EveryRefillSucceeded, AllSucceed, SysShape;
    RunCounts(s, trace, maxLength);
    RecordSnoc(s, trace, e, maxLength);
    var s1 := Run(s, trace, maxLength);
    StepCounts(s1, e, maxLength);
    if e.Interrupt? {
      AccountedStep(s.ring, s1.ring, Step(s1, e, maxLength).ring, Posts(s, trace, maxLength), PostedBytes(s, trace, maxLength),
                    e.answers, RefillsAsked(s1, e, maxLength));
    }
  }

  /** Posts never exceed upcalls, and equal them exactly when every refill succeeded. */
  lemma {:induction false} PostsBounded(s: RxSys, trace: seq<RxEvent>, maxLength: U16)
    requires SysShape(s)
    ensures var made := |Run(s, trace, maxLength).ring.upcalls| - |s.ring.upcalls|;
            && Posts(s, trace, maxLength) <= made
            && (Posts(s, trace, maxLength) == made <==> EveryRefillSucceeded(s, trace, maxLength))
  {
    if trace != [] {
      var init, e := trace[..|trace| - 1], trace[|trace| - 1];
      PostsBounded(s, init, maxLength);
      StepCounts(Run(s, init, maxLength), e, maxLength);
      if e.Interrupt? {
        AllSucceedCounted(e.answers, 0, RefillsAsked(Run(s, init, maxLength), e, maxLength));
      }
    }
  }

  /** The descriptors posted in all: the slots filled at start and the successful refills. */
  function TotalPosts(physAddr: U64, init: seq<Refill>, trace: seq<RxEvent>, maxLength: U16): nat {
    Leading(init, USABLE_BDS) + Posts(Init(physAddr, init), trace, maxLength)
  }

  lemma InitRingCounts(physAddr: U64, init: seq<Refill>)
    ensures var r := Init(physAddr, init).ring;
            && r.prod == IndexAfter(Leading(init, USABLE_BDS))
            && r.bufferSize == Wrap32(SuccessBytes(init, 0, Leading(init, USABLE_BDS)))
            && r.cons == 0 && r.upcalls == [] && !r.faulted
            && (AllSucceed(init, USABLE_BDS) ==> r.hostBidx == r.prod && r.hostBseq == r.bufferSize
                                                 && forall i | 0 <= i < USABLE_BDS :: r.packets[i].Some?)
            && (!AllSucceed(init, USABLE_BDS) ==> r.hostBidx == 0 && r.hostBseq == 0)
  {
    InitCounts(ResetRing(ZeroRing(), physAddr), USABLE_BDS, init);
    LeadingIs(init, USABLE_BDS);
    hide InitSlots, Leading, SuccessBytes, AllSucceed;
  }

  /**
   In every reachable state, whatever the allocator ever answered, at start or later: the
   producer has advanced by exactly the successful refills, and the byte counter is the
   total length they posted, modulo 2^32.
   */
  lemma ProducerInEveryState(physAddr: U64, init: seq<Refill>, trace: seq<RxEvent>, maxLength: U16)
    ensures var s := Run(Init(physAddr, init), trace, maxLength);
            && s.ring.prod == IndexAfter(TotalPosts(physAddr, init, trace, maxLength))
            && s.ring.bufferSize == Wrap32(SuccessBytes(init, 0, Leading(init, USABLE_BDS))
                                           + PostedBytes(Init(physAddr, init), trace, maxLength))
  {
    hide Init, Run, Posts, PostedBytes, Leading, SuccessBytes, Wrap32, NextBd;
    InitRingCounts(physAddr, init);
    RunCounts(Init(physAddr, init), trace, maxLength);
    AdvanceAdds(0, Leading(init, USABLE_BDS), Posts(Init(physAddr, init), trace, maxLength));
    Wrap32Absorbs(SuccessBytes(init, 0, Leading(init, USABLE_BDS)), PostedBytes(Init(physAddr, init), trace, maxLength));
  }

  // ----- Consumer, hardware and producer in order -----

  /** What holds in every unfaulted state of a ring that was filled at start; `p` descriptors were posted. */
  ghost predicate Tally(s: RxSys, p: nat) {
    && SysShape(s)
    && At(s.ring, |s.ring.upcalls|, p)
    && |s.ring.upcalls| <= s.published <= |s.received| <= p <= |s.ring.upcalls| + USABLE_BDS
    && s.hwCons == IndexAfter(|s.received|)
    && Normalize(s.rawCons) == IndexAfter(s.published)
    && s.ring.hostBidx == s.ring.prod && s.ring.hostBseq == s.ring.bufferSize
  }

  lemma TallyInterrupt(s: RxSys, p: nat, answers: seq<Refill>, maxLength: U16)
    requires Tally(s, p) && !Step(s, Interrupt(answers), maxLength).ring.faulted
    ensures var s' := Step(s, Interrupt(answers), maxLength); var n := RefillsAsked(s, Interrupt(answers), maxLength);
            n == s.published - |s.ring.upcalls| && Tally(s', p + Successes(answers, 0, n))
  {
    hide TakeAll, IndexAfter, Dist, Successes, BdIndex, InCycle, NextBd;
    var c, q, env := |s.ring.upcalls|, s.published, RxEnv(maxLength, s.mem, answers);
    DistOfCounters(c, q);
    if c == q {
      SuccessesNone(answers);
    } else {
      BatchIndices(s.ring, c, p, q, {}, env, 0);
    }
  }

  lemma SuccessesNone(answers: seq<Refill>)
    ensures Successes(answers, 0, 0) == 0
  {
  }

  lemma TallyHardware(s: RxSys, p: nat, e: RxEvent, maxLength: U16)
    requires Tally(s, p) && !e.Interrupt?
    ensures var s' := Step(s, e, maxLength);
            && Tally(s', p)
            && (e.Receive? ==> |s'.received| == if |s.received| < p then |s.received| + 1 else |s.received|)
            && (e.Publish? ==> s'.published == |s'.received|)
  {
    hide IndexAfter, Dist, BdIndex, InCycle, NextBd, Normalize, RawIndex;
    IndexAfterFacts(|s.received|);
    DistOfCounters(|s.received|, p);
    PublishedIndex(s.hwCons, e.Publish? && e.atLink);
  }

  /** A faulted handler never recovers. */
  lemma FaultStays(s: RxSys, e: RxEvent, maxLength: U16)
    requires SysShape(s) && s.ring.faulted
    ensures Step(s, e, maxLength).ring.faulted
  {
  }

  /** Consumer, status block, hardware and producer keep their order in every unfaulted state. */
  lemma {:induction false} RunTally(physAddr: U64, init: seq<Refill>, trace: seq<RxEvent>, maxLength: U16)
    requires AllSucceed(init, USABLE_BDS)
    requires !Run(Init(physAddr, init), trace, maxLength).ring.faulted
    ensures Tally(Run(Init(physAddr, init), trace, maxLength), TotalPosts(physAddr, init, trace, maxLength))
    decreases |trace|, 1
  {
    if trace == [] {
      hide Leading, SuccessBytes, InitRing, Wrap32;
      InitRingCounts(physAddr, init);
      LeadingIs(init, USABLE_BDS);
    } else {
      RunTallyStep(physAddr, init, trace[..|trace| - 1], trace[|trace| - 1], maxLength);
      assert trace == trace[..|trace| - 1] + [trace[|trace| - 1]];
    }
  }

  lemma {:induction false} RunTallyStep(physAddr: U64, init: seq<Refill>, trace: seq<RxEvent>, e: RxEvent, maxLength: U16)
    requires AllSucceed(init, USABLE_BDS)
    requires !Run(Init(physAddr, init), trace + [e], maxLength).ring.faulted
    ensures Tally(Run(Init(physAddr, init), trace + [e], maxLength), TotalPosts(physAddr, init, trace + [e], maxLength))
    decreases |trace| + 1, 0
  {
    hide Init, Run, Step, Tally, Posts, PostedBytes, Leading, Successes, SuccessBytes, EveryRefillSucceeded, AllSucceed, SysShape;
    var s := Run(Init(physAddr, init), trace, maxLength);
    RecordSnoc(Init(physAddr, init), trace, e, maxLength);
    if s.ring.faulted {
      FaultStays(s, e, maxLength);
    } else {
      RunTally(physAddr, init, trace, maxLength);
      if e.Interrupt? {
        TallyInterrupt(s, TotalPosts(physAddr, init, trace, maxLength), e.answers, maxLength);
      } else {
        TallyHardware(s, TotalPosts(physAddr, init, trace, maxLength), e, maxLength);
      }
    }
  }

  /** The doorbells of every unfaulted run of a filled ring show exactly those totals. */
  lemma DoorbellsInEveryState(physAddr: U64, init: seq<Refill>, trace: seq<RxEvent>, maxLength: U16)
    requires AllSucceed(init, USABLE_BDS) && !Run(Init(physAddr, init), trace, maxLength).ring.faulted
    ensures var r := Run(Init(physAddr, init), trace, maxLength).ring;
            && r.hostBidx == IndexAfter(TotalPosts(physAddr, init, trace, maxLength))
            && r.hostBseq == Wrap32(SuccessBytes(init, 0, USABLE_BDS) + PostedBytes(Init(physAddr, init), trace, maxLength))
  {
    hide Init, Run, Posts, PostedBytes, SuccessBytes, AllSucceed, Wrap32, IndexAfter;
    LeadingIs(init, USABLE_BDS);
    RunTally(physAddr, init, trace, maxLength);
    ProducerInEveryState(physAddr, init, trace, maxLength);
  }

  /**
   In every unfaulted state of every run: the producer is one page ahead of the consumer if
   and only if the ring was filled at start and every refill since has succeeded.
   */
  lemma AlignedIffAllRefilled(physAddr: U64, init: seq<Refill>, trace: seq<RxEvent>, maxLength: U16)
    requires !Run(Init(physAddr, init), trace, maxLength).ring.faulted
    ensures var r := Run(Init(physAddr, init), trace, maxLength).ring;
            r.prod == Wrap16(r.cons + PAGE_BDS) <==>
            AllSucceed(init, USABLE_BDS) && EveryRefillSucceeded(Init(physAddr, init), trace, maxLength)
  {
    hide Init, Run, Posts, EveryRefillSucceeded, AllSucceed, Leading, IndexAfter, Wrap16, Tally, Idle;
    var s, p := Run(Init(physAddr, init), trace, maxLength), TotalPosts(physAddr, init, trace, maxLength);
    LeadingIs(init, USABLE_BDS);
    if AllSucceed(init, USABLE_BDS) {
      RunTally(physAddr, init, trace, maxLength);
      TallyAligned(s, p);
      InitRingCounts(physAddr, init);
      PostsBounded(Init(physAddr, init), trace, maxLength);
    } else {
      UnfilledRingReceivesNothing(physAddr, init, trace, maxLength);
      UnfilledNotAligned(physAddr, init, s);
    }
  }

  lemma TallyAligned(s: RxSys, p: nat)
    requires Tally(s, p)
    ensures s.ring.prod == Wrap16(s.ring.cons + PAGE_BDS) <==> p == |s.ring.upcalls| + USABLE_BDS
  {
    hide IndexAfter, Dist, Wrap16;
    OneRingLater(|s.ring.upcalls|);
    DistOfCounters(p, |s.ring.upcalls| + USABLE_BDS);
  }

  lemma UnfilledNotAligned(physAddr: U64, init: seq<Refill>, s: RxSys)
    requires !AllSucceed(init, USABLE_BDS) && Idle(s, Init(physAddr, init).ring)
    ensures s.ring.prod != Wrap16(s.ring.cons + PAGE_BDS)
  {
    hide Init, Leading, Dist, IndexAfter, AllSucceed;
    InitRingCounts(physAddr, init);
    LeadingIs(init, USABLE_BDS);
    DistOfCounters(Leading(init, USABLE_BDS), USABLE_BDS);
    FirstRing();
  }

  lemma FirstRing()
    ensures IndexAfter(USABLE_BDS) == Wrap16(0 + PAGE_BDS)
  {
    OneRingLater(0);
  }

  /** Nothing has been posted to the hardware and nothing has happened. */
  ghost predicate Idle(s: RxSys, r: RxState) {
    && s.ring == r && r.hostBidx == 0 && r.cons == 0 && !r.faulted
    && s.hwCons == 0 && Normalize(s.rawCons) == 0 && s.received == [] && s.published == 0
  }

  /**
   When the ring could not be filled, initialisation rings no doorbell; as its failure is
   ignored, the enabled driver then receives nothing, ever.
   */
  lemma {:induction false} UnfilledRingReceivesNothing(physAddr: U64, answers: seq<Refill>, trace: seq<RxEvent>, maxLength: U16)
    requires !AllSucceed(answers, USABLE_BDS)
    ensures Idle(Run(Init(physAddr, answers), trace, maxLength), Init(physAddr, answers).ring)
  {
    if trace == [] {
      hide Leading, SuccessBytes, InitRing, Wrap32, AllSucceed;
      InitRingCounts(physAddr, answers);
    } else {
      UnfilledRingReceivesNothing(physAddr, answers, trace[..|trace| - 1], maxLength);
      IdleStep(Run(Init(physAddr, answers), trace[..|trace| - 1], maxLength), Init(physAddr, answers).ring,
               trace[|trace| - 1], maxLength);
    }
  }

  lemma IdleStep(s: RxSys, r: RxState, e: RxEvent, maxLength: U16)
    requires SysShape(s) && Idle(s, r)
    ensures Idle(Step(s, e, maxLength), r)
  {
    hide HandleInterrupt, Obtained;
    PublishedIndex(0, e.Publish? && e.atLink);
  }

  /** A run in which something is received exists if and only if the ring could be filled. */
  lemma ReceivesIffFilled(physAddr: U64, answers: seq<Refill>, h: Header, maxLength: U16)
    ensures Run(Init(physAddr, answers), [Receive(h)], maxLength).received == [h] <==> AllSucceed(answers, USABLE_BDS)
    ensures AllSucceed(answers, USABLE_BDS) <==>
            exists trace :: Run(Init(physAddr, answers), trace, maxLength).received != []
  {
    hide Leading, SuccessBytes, InitRing, Wrap32, AllSucceed, Dist, Idle, Tally, InCycle, NextBd, BdIndex;
    var s := Init(physAddr, answers);
    assert [Receive(h)][..0] == [];
    if AllSucceed(answers, USABLE_BDS) {
      OneReceived(physAddr, answers, h, maxLength);
    } else {
      forall trace
        ensures Run(s, trace, maxLength).received == []
      {
        UnfilledRingReceivesNothing(physAddr, answers, trace, maxLength);
        IdleReceived(Run(s, trace, maxLength), s.ring);
      }
    }
  }

  lemma IdleReceived(s: RxSys, r: RxState)
    requires Idle(s, r)
    ensures s.received == []
  {
  }

  lemma OneReceived(physAddr: U64, answers: seq<Refill>, h: Header, maxLength: U16)
    requires AllSucceed(answers, USABLE_BDS)
    ensures Step(Init(physAddr, answers), Receive(h), maxLength).received == [h]
    ensures Run(Init(physAddr, answers), [Receive(h)], maxLength).received == [h]
  {
    hide Leading, SuccessBytes, InitRing, Wrap32, AllSucceed, Dist, IndexAfter, NextBd, BdIndex;
    assert [Receive(h)][..0] == [];
    InitRingCounts(physAddr, answers);
    LeadingIs(answers, USABLE_BDS);
    DistOfCounters(0, USABLE_BDS);
    IndexZero();
  }

  lemma IndexZero()
    ensures IndexAfter(0) == 0
  {
  }
}
