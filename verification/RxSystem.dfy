/**
 The receive ring and the hardware that fills its buffers, as a step system.

 The hardware takes the next posted descriptor while its own index differs from the
 doorbell, writes a received packet's header at the descriptor's address, and publishes its
 index in the status block whenever it likes.
 */
module RxSystem {
  import opened Machine
  import opened RingIndex
  import opened RxRing

  /**
   `received`, `obtained` and `published` are histories: the headers the hardware wrote, the
   packets the allocator handed out, and how many descriptors the status block reports. The
   number of descriptors the driver has processed is the number of its upcalls.
   */
  datatype RxSys = RxSys(
    ring: RxState,
    hwCons: U16,
    rawCons: U16,
    mem: map<U64, Header>,
    received: seq<Header>,
    obtained: seq<Mbuf>,
    published: nat)

  datatype RxEvent = Receive(header: Header) | Publish(atLink: bool) | Interrupt(answers: seq<Refill>)

  ghost predicate SysShape(s: RxSys) {
    Shape(s.ring) && InCycle(s.hwCons)
  }

  /** The packets among `n` answers from the k-th on. */
  function Obtained(answers: seq<Refill>, k: nat, n: nat): seq<Mbuf> {
    if n == 0 then [] else Obtained(answers, k, n - 1) + AllocOf(AnswerAt(answers, k + n - 1))
  }

  function AllocOf(a: Refill): seq<Mbuf> {
    if a.alloc.Some? then [a.alloc.value] else []
  }

  function ZeroRing(): (r: RxState)
    ensures Shape(r)
  {
    RxState(seq(PAGE_BDS, _ => ZERO_BD), 0, 0, 0, seq(USABLE_BDS, _ => None), 0, 0, [], false)
  }

  function Init(physAddr: U64, answers: seq<Refill>): (s: RxSys)
    ensures SysShape(s)
  {
    RxSys(InitRing(ZeroRing(), physAddr, answers).0, 0, 0, map[], [], Obtained(answers, 0, USABLE_BDS), 0)
  }

  function Target(s: RxSys): (t: U16)
    ensures InCycle(t)
  {
    NormalizeIntoCycle(s.rawCons);
    Normalize(s.rawCons)
  }

  function BatchSize(s: RxSys): nat {
    Dist(s.ring.cons, Target(s))
  }

  function Step(s: RxSys, e: RxEvent, maxLength: U16): (s': RxSys)
    requires SysShape(s)
    ensures SysShape(s') && s.ring.upcalls <= s'.ring.upcalls
  {
    match e
    case Receive(h) =>
      if s.hwCons == s.ring.hostBidx then s
      else
        NextStaysInCycle(s.hwCons);
        var bd := s.ring.chain[BdIndex(s.hwCons)];
        s.(mem := s.mem[JoinAddr(bd.addrHi, bd.addrLo) := h], received := s.received + [h], hwCons := NextBd(s.hwCons))
    case Publish(atLink) =>
      s.(rawCons := RawIndex(s.hwCons, atLink), published := |s.received|)
    case Interrupt(answers) =>
      if s.ring.faulted || s.ring.cons == Target(s) then s
      else
        s.(ring := HandleInterrupt(s.ring, Target(s), RxEnv(maxLength, s.mem, answers)),
           obtained := s.obtained + Obtained(answers, 0, BatchSize(s)))
  }

  function Run(s: RxSys, trace: seq<RxEvent>, maxLength: U16): (s': RxSys)
    requires SysShape(s)
    ensures SysShape(s')
  {
    if trace == [] then s else Step(Run(s, trace[..|trace| - 1], maxLength), trace[|trace| - 1], maxLength)
  }

  // ----- Successful refills -----

  /** A packet whose buffer starts at no address at which one still held by the ring starts, slot `i` apart. */
  ghost predicate FreshFor(packets: seq<Option<Mbuf>>, i: nat, m: Mbuf) {
    forall j | 0 <= j < |packets| && j != i && packets[j].Some? ::
      packets[j].value.segment.location != m.segment.location
  }

  /** Every refill of the batch succeeds with a buffer the ring does not hold. */
  ghost predicate BatchSupplied(r: RxState, target: U16, mask: set<Checksum>, env: RxEnv, k: nat)
    requires Shape(r) && InCycle(target)
    decreases Dist(r.cons, target)
  {
    if r.faulted || r.cons == target then true
    else
      DistDecreases(r.cons, target);
      var a := AnswerAt(env.answers, k);
      && Succeeds(a)
      && FreshFor(r.packets, BdIndex(r.cons), a.alloc.value)
      && BatchSupplied(TakeOne(r, mask, env, a).0, target, TakeOne(r, mask, env, a).1, env, k + 1)
  }

  ghost predicate AllSucceed(answers: seq<Refill>, n: nat) {
    forall i {:trigger AnswerAt(answers, i)} | 0 <= i < n :: Succeeds(AnswerAt(answers, i))
  }

  ghost predicate InitSupplied(answers: seq<Refill>) {
    && AllSucceed(answers, USABLE_BDS)
    && (forall i, j | 0 <= i < j < USABLE_BDS ::
          AnswerAt(answers, i).alloc.value.segment.location != AnswerAt(answers, j).alloc.value.segment.location)
  }

  ghost predicate RunSupplied(s: RxSys, trace: seq<RxEvent>, maxLength: U16)
    requires SysShape(s)
  {
    trace == [] ||
    var s1, e := Run(s, trace[..|trace| - 1], maxLength), trace[|trace| - 1];
    && RunSupplied(s, trace[..|trace| - 1], maxLength)
    && (e.Interrupt? ==> BatchSupplied(s1.ring, Target(s1), {}, RxEnv(maxLength, s1.mem, e.answers), 0))
  }

  // ----- The invariant -----

  function TotalLength(ms: seq<Mbuf>): nat {
    if ms == [] then 0 else TotalLength(ms[..|ms| - 1]) + ms[|ms| - 1].segment.length
  }

  /** What the driver must do with a packet whose header is `h`. */
  predicate Handled(u: Upcall, m: Mbuf, h: Header, maxLength: U16) {
    u.mbuf == m &&
    if Rejected(h, maxLength) then u.Freed?
    else u.Delivered? && u.length == PayloadLength(h) && OwnMask(h) <= u.valid
  }

  /** The ring holds exactly the last 1023 packets obtained, packet `k` in slot `Slot(k)`. */
  ghost predicate Window(r: RxState, obtained: seq<Mbuf>) {
    var c := |r.upcalls|;
    && Shape(r) && !r.faulted
    && |obtained| == c + USABLE_BDS
    && r.cons == IndexAfter(c)
    && r.prod == IndexAfter(c + USABLE_BDS)
    && r.bufferSize == Wrap32(TotalLength(obtained))
    && (forall k | c <= k < c + USABLE_BDS ::
          r.packets[Slot(k)] == Some(obtained[k]) && r.chain[Slot(k)] == BdFor(obtained[k]))
    && (forall j, k | c <= j < k < c + USABLE_BDS ::
          obtained[j].segment.location != obtained[k].segment.location)
  }

  /** The headers written for packets not yet processed are still in their buffers. */
  ghost predicate Pending(r: RxState, obtained: seq<Mbuf>, received: seq<Header>, mem: map<U64, Header>) {
    && |r.upcalls| <= |received| <= |obtained|
    && (forall k | |r.upcalls| <= k < |received| :: HeaderOf(mem, obtained[k]) == received[k])
  }

  ghost predicate AllHandled(r: RxState, obtained: seq<Mbuf>, received: seq<Header>, maxLength: U16) {
    && |r.upcalls| <= |received| <= |obtained|
    && (forall k | 0 <= k < |r.upcalls| :: Handled(r.upcalls[k], obtained[k], received[k], maxLength))
  }

  ghost predicate Inv(s: RxSys, maxLength: U16) {
    && SysShape(s)
    && Window(s.ring, s.obtained)
    && |s.ring.upcalls| <= s.published <= |s.received| <= |s.obtained|
    && s.hwCons == IndexAfter(|s.received|)
    && Normalize(s.rawCons) == IndexAfter(s.published)
    && s.ring.hostBidx == s.ring.prod
    && s.ring.hostBseq == s.ring.bufferSize
    && Pending(s.ring, s.obtained, s.received, s.mem)
    && AllHandled(s.ring, s.obtained, s.received, maxLength)
  }

  // ----- Initialisation -----

  lemma {:induction false} ObtainedAll(answers: seq<Refill>, n: nat)
    requires AllSucceed(answers, n)
    ensures |Obtained(answers, 0, n)| == n
    ensures forall i | 0 <= i < n :: Obtained(answers, 0, n)[i] == AnswerAt(answers, i).alloc.value
  {
    if n != 0 {
      ObtainedAll(answers, n - 1);
    }
  }

  lemma {:induction false} ObtainedFirst(answers: seq<Refill>, k: nat, n: nat)
    requires n != 0
    ensures Obtained(answers, k, n) == AllocOf(AnswerAt(answers, k)) + Obtained(answers, k + 1, n - 1)
  {
    if n != 1 {
      ObtainedFirst(answers, k, n - 1);
    }
  }

  lemma TotalLengthSnoc(ms: seq<Mbuf>, m: Mbuf)
    ensures TotalLength(ms + [m]) == TotalLength(ms) + m.segment.length
  {
    assert (ms + [m])[..|ms|] == ms;
  }

  lemma RefillEffect(r: RxState, i: nat, force: bool, a: Refill)
    requires Shape(r) && i < USABLE_BDS && Succeeds(a) && (force || r.packets[i].None?)
    ensures InitDescriptor(r, i, force, a) ==
            (r.(packets := r.packets[i := a.alloc], chain := r.chain[i := BdFor(a.alloc.value)],
                bufferSize := Wrap32(r.bufferSize + a.alloc.value.segment.length), prod := NextBd(r.prod)), true)
  {
  }

  /** The ring `r` after its first `n` slots were filled from the answers. */
  ghost predicate Filled(r: RxState, r': RxState, n: nat, answers: seq<Refill>) {
    && |r'.chain| == PAGE_BDS && |r'.packets| == USABLE_BDS && n <= USABLE_BDS
    && AllSucceed(answers, n)
    && r' == r.(chain := r'.chain, packets := r'.packets, prod := IndexAfter(n),
                bufferSize := Wrap32(TotalLength(Obtained(answers, 0, n))))
    && (forall i | 0 <= i < n :: r'.packets[i] == AnswerAt(answers, i).alloc
                                 && r'.chain[i] == BdFor(AnswerAt(answers, i).alloc.value))
    && (forall i | n <= i < USABLE_BDS :: r'.packets[i] == None)
  }

  lemma FillOneMore(r: RxState, r1: RxState, n: nat, answers: seq<Refill>)
    requires Shape(r) && Shape(r1) && n < USABLE_BDS && AllSucceed(answers, n + 1) && Filled(r, r1, n, answers)
    ensures var (r', ok) := InitDescriptor(r1, n, false, AnswerAt(answers, n)); ok && Filled(r, r', n + 1, answers)
  {
    hide InitDescriptor, IndexAfter, NextBd, BdFor, Wrap32, InCycle, TotalLength, BdIndex;
    RefillEffect(r1, n, false, AnswerAt(answers, n));
    var m := AnswerAt(answers, n).alloc.value;
    IndexAfterFacts(n);
    TotalLengthSnoc(Obtained(answers, 0, n), m);
    Wrap32Absorbs(TotalLength(Obtained(answers, 0, n)), m.segment.length);
  }

  /** The initialisation loop fills slot after slot while every answer succeeds. */
  lemma {:induction false} InitSlotsFill(r: RxState, n: nat, answers: seq<Refill>)
    requires Shape(r) && n <= USABLE_BDS
    requires r.prod == 0 && r.bufferSize == 0 && forall i | 0 <= i < USABLE_BDS :: r.packets[i] == None
    requires AllSucceed(answers, n)
    ensures var (r', ok) := InitSlots(r, n, answers); ok && Filled(r, r', n, answers)
  {
    hide Filled, InitDescriptor, TotalLength, Obtained, Wrap32, IndexAfter, InCycle, BdFor;
    if n == 0 {
      NothingFilled(r, answers);
    } else {
      InitSlotsFill(r, n - 1, answers);
      FillOneMore(r, InitSlots(r, n - 1, answers).0, n - 1, answers);
    }
  }

  lemma NothingFilled(r: RxState, answers: seq<Refill>)
    requires Shape(r) && r.prod == 0 && r.bufferSize == 0 && forall i | 0 <= i < USABLE_BDS :: r.packets[i] == None
    ensures Filled(r, r, 0, answers)
  {
  }

  lemma InitInv(physAddr: U64, answers: seq<Refill>, maxLength: U16)
    requires InitSupplied(answers)
    ensures Inv(Init(physAddr, answers), maxLength)
  {
    var r := ResetRing(ZeroRing(), physAddr);
    InitSlotsFill(r, USABLE_BDS, answers);
    ObtainedAll(answers, USABLE_BDS);
    forall k: nat | k < USABLE_BDS
      ensures Slot(k) == k
    {
      QuotientIsUnique(k, 0, k);
    }
  }

  // ----- One descriptor -----

  lemma TakeOneAdvances(r: RxState, obtained: seq<Mbuf>, received: seq<Header>, mask: set<Checksum>, env: RxEnv, a: Refill)
    requires Window(r, obtained) && Succeeds(a) && FreshFor(r.packets, BdIndex(r.cons), a.alloc.value)
    requires Pending(r, obtained, received, env.mem) && |r.upcalls| < |received|
    ensures var r' := TakeOne(r, mask, env, a).0; var obtained' := obtained + [a.alloc.value];
            Window(r', obtained') && Pending(r', obtained', received, env.mem) && |r'.upcalls| == |r.upcalls| + 1
  {
    hide Slot, IndexAfter, NextBd, Pos, Rejected, OwnMask, PayloadLength, TotalLength;
    var c, m := |r.upcalls|, a.alloc.value;
    var r', obtained' := TakeOne(r, mask, env, a).0, obtained + [m];
    IndexAfterFacts(c);
    IndexAfterFacts(c + USABLE_BDS);
    SlotPeriod(c);
    TotalLengthSnoc(obtained, m);
    Wrap32Absorbs(TotalLength(obtained), m.segment.length);
    forall k | c < k < c + USABLE_BDS
      ensures Slot(k) != Slot(c) && obtained[k].segment.location != m.segment.location
    {
      SlotsDistinct(c, k);
    }
  }

  lemma TakeOneHandles(r: RxState, obtained: seq<Mbuf>, received: seq<Header>, mask: set<Checksum>, env: RxEnv, a: Refill)
    requires Window(r, obtained) && Pending(r, obtained, received, env.mem) && |r.upcalls| < |received|
    ensures var c := |r.upcalls|; var (r', mask') := TakeOne(r, mask, env, a); var h := received[c];
            && !r'.faulted
            && mask' == (if Rejected(h, env.maxLength) then mask else mask + OwnMask(h))
            && r'.upcalls == r.upcalls + [if Rejected(h, env.maxLength) then Freed(obtained[c])
                                          else Delivered(obtained[c], PayloadLength(h), mask')]
  {
    IndexAfterFacts(|r.upcalls|);
    hide Slot, IndexAfter, NextBd, Pos, InCycle, Rejected, OwnMask, PayloadLength;
    assert r.packets[Slot(|r.upcalls|)] == Some(obtained[|r.upcalls|]);
  }

  // ----- One interrupt -----

  /** The checksum mask the loop carries after the packets with headers `hs`. */
  function BatchMask(hs: seq<Header>, mask: set<Checksum>, maxLength: U16): set<Checksum> {
    if hs == [] then mask
    else
      var before := BatchMask(hs[..|hs| - 1], mask, maxLength);
      if Rejected(hs[|hs| - 1], maxLength) then before else before + OwnMask(hs[|hs| - 1])
  }

  /** What one batch does with the packets `ms` whose headers are `hs`. */
  function BatchUpcalls(ms: seq<Mbuf>, hs: seq<Header>, mask: set<Checksum>, maxLength: U16): (us: seq<Upcall>)
    requires |ms| == |hs|
    ensures |us| == |ms|
  {
    seq(|ms|, i requires 0 <= i < |ms| =>
      if Rejected(hs[i], maxLength) then Freed(ms[i])
      else Delivered(ms[i], PayloadLength(hs[i]), BatchMask(hs[..i + 1], mask, maxLength)))
  }

  lemma {:induction false} BatchMaskFirst(h: Header, hs: seq<Header>, mask: set<Checksum>, maxLength: U16)
    ensures BatchMask([h] + hs, mask, maxLength) ==
            BatchMask(hs, if Rejected(h, maxLength) then mask else mask + OwnMask(h), maxLength)
  {
    if hs == [] {
      assert [h] + hs == [h];
      assert [h][..0] == [];
    } else {
      BatchMaskFirst(h, hs[..|hs| - 1], mask, maxLength);
      assert ([h] + hs)[..|hs|] == [h] + hs[..|hs| - 1];
    }
  }

  lemma BatchUpcallsFirst(ms: seq<Mbuf>, hs: seq<Header>, mask: set<Checksum>, maxLength: U16)
    requires |ms| == |hs| != 0
    ensures var bad := Rejected(hs[0], maxLength);
            var mask' := if bad then mask else mask + OwnMask(hs[0]);
            BatchUpcalls(ms, hs, mask, maxLength) ==
            [if bad then Freed(ms[0]) else Delivered(ms[0], PayloadLength(hs[0]), mask')]
            + BatchUpcalls(ms[1..], hs[1..], mask', maxLength)
  {
    hide BatchMask, OwnMask, Rejected, PayloadLength;
    var bad := Rejected(hs[0], maxLength);
    var mask' := if bad then mask else mask + OwnMask(hs[0]);
    var us, vs := BatchUpcalls(ms, hs, mask, maxLength), BatchUpcalls(ms[1..], hs[1..], mask', maxLength);
    assert hs[..1] == [hs[0]] + [];
    BatchMaskFirst(hs[0], [], mask, maxLength);
    BatchMaskNone(mask', maxLength);
    forall i | 0 < i < |ms|
      ensures us[i] == vs[i - 1]
    {
      BatchMaskFirst(hs[0], hs[1..][..i], mask, maxLength);
      assert hs[..i + 1] == [hs[0]] + hs[1..][..i];
    }
  }

  lemma BatchMaskNone(mask: set<Checksum>, maxLength: U16)
    ensures BatchMask([], mask, maxLength) == mask
  {
  }

  lemma UnfoldBatch(r: RxState, target: U16, mask: set<Checksum>, env: RxEnv, k: nat)
    requires Shape(r) && InCycle(target) && !r.faulted && r.cons != target
    ensures var a := AnswerAt(env.answers, k); var (r1, mask1) := TakeOne(r, mask, env, a);
            && Dist(r.cons, target) == Dist(r1.cons, target) + 1
            && TakeAll(r, target, mask, env, k) == TakeAll(r1, target, mask1, env, k + 1)
            && (BatchSupplied(r, target, mask, env, k) ==>
                  && Succeeds(a) && FreshFor(r.packets, BdIndex(r.cons), a.alloc.value)
                  && BatchSupplied(r1, target, mask1, env, k + 1))
  {
    DistDecreases(r.cons, target);
    hide Dist, FreshFor;
  }

  lemma WindowBasics(r: RxState, obtained: seq<Mbuf>, received: seq<Header>, mem: map<U64, Header>)
    requires Window(r, obtained) && Pending(r, obtained, received, mem)
    ensures |received| <= |obtained| == |r.upcalls| + USABLE_BDS
    ensures Shape(r) && !r.faulted && r.cons == IndexAfter(|r.upcalls|)
  {
  }

  /** What a batch from stream position `c` to `q` leaves, given the upcalls before it. */
  ghost predicate BatchDone(r': RxState, before: seq<Upcall>, obtained: seq<Mbuf>, received: seq<Header>,
                            mask: set<Checksum>, env: RxEnv, k: nat, c: nat, q: nat)
    requires c <= q <= |received| && q <= |obtained|
  {
    && Window(r', obtained + Obtained(env.answers, k, q - c))
    && Pending(r', obtained + Obtained(env.answers, k, q - c), received, env.mem)
    && r'.upcalls == before + BatchUpcalls(obtained[c..q], received[c..q], mask, env.maxLength)
  }

  /** One turn followed by a batch is a batch. */
  lemma BatchCompose(r': RxState, before: seq<Upcall>, obtained: seq<Mbuf>, received: seq<Header>,
                     mask: set<Checksum>, mask1: set<Checksum>, u: Upcall, env: RxEnv, k: nat, c: nat, q: nat)
    requires c < q <= |received| <= |obtained| && AnswerAt(env.answers, k).alloc.Some?
    requires mask1 == if Rejected(received[c], env.maxLength) then mask else mask + OwnMask(received[c])
    requires u == if Rejected(received[c], env.maxLength) then Freed(obtained[c])
                  else Delivered(obtained[c], PayloadLength(received[c]), mask1)
    requires BatchDone(r', before + [u], obtained + [AnswerAt(env.answers, k).alloc.value], received, mask1, env, k + 1, c + 1, q)
    ensures BatchDone(r', before, obtained, received, mask, env, k, c, q)
  {
    hide Window, Pending, BatchMask, Rejected, OwnMask, PayloadLength, Obtained, BatchUpcalls;
    var m := AnswerAt(env.answers, k).alloc.value;
    ObtainedFirst(env.answers, k, q - c);
    assert (obtained + [m]) + Obtained(env.answers, k + 1, q - c - 1) == obtained + Obtained(env.answers, k, q - c);
    BatchUpcallsFirst(obtained[c..q], received[c..q], mask, env.maxLength);
    assert (obtained + [m])[c + 1..q] == obtained[c..q][1..];
    assert received[c + 1..q] == received[c..q][1..];
  }

  lemma EmptyBatch(r: RxState, obtained: seq<Mbuf>, received: seq<Header>, mask: set<Checksum>, env: RxEnv, k: nat)
    requires Window(r, obtained) && Pending(r, obtained, received, env.mem)
    requires |r.upcalls| <= |received| && InCycle(r.cons)
    ensures BatchDone(TakeAll(r, r.cons, mask, env, k), r.upcalls, obtained, received, mask, env, k, |r.upcalls|, |r.upcalls|)
  {
    assert obtained + Obtained(env.answers, k, 0) == obtained;
  }

  /** A batch up to stream position `q` with successful refills. */
  lemma {:induction false} TakeAllBatch(r: RxState, obtained: seq<Mbuf>, received: seq<Header>, mask: set<Checksum>,
                                        env: RxEnv, k: nat, q: nat)
    requires Window(r, obtained) && Pending(r, obtained, received, env.mem)
    requires |r.upcalls| <= q <= |received| && InCycle(IndexAfter(q))
    requires BatchSupplied(r, IndexAfter(q), mask, env, k)
    ensures BatchDone(TakeAll(r, IndexAfter(q), mask, env, k), r.upcalls, obtained, received, mask, env, k, |r.upcalls|, q)
    decreases q - |r.upcalls|
  {
    hide Slot, BdIndex, IndexAfter, NextBd, InCycle, Window, Pending, FreshFor, TakeOne, TakeAll, Obtained,
         BatchMask, BatchUpcalls, BatchSupplied, BatchDone, Rejected, OwnMask, PayloadLength, Shape, Dist;
    var c, a := |r.upcalls|, AnswerAt(env.answers, k);
    WindowBasics(r, obtained, received, env.mem);
    DistOfCounters(c, q);
    if c == q {
      EmptyBatch(r, obtained, received, mask, env, k);
    } else {
      UnfoldBatch(r, IndexAfter(q), mask, env, k);
      var (r1, mask1) := TakeOne(r, mask, env, a);
      TakeOneHandles(r, obtained, received, mask, env, a);
      TakeOneAdvances(r, obtained, received, mask, env, a);
      TakeAllBatch(r1, obtained + [a.alloc.value], received, mask1, env, k + 1, q);
      BatchCompose(TakeAll(r, IndexAfter(q), mask, env, k), r.upcalls, obtained, received,
                   mask, mask1, r1.upcalls[c], env, k, c, q);
    }
  }

  // ----- Every run -----

  /** A handled batch satisfies the per-packet contract. */
  lemma {:induction false} MaskCoversOwn(hs: seq<Header>, mask: set<Checksum>, maxLength: U16, i: nat)
    requires i < |hs| && !Rejected(hs[i], maxLength)
    ensures OwnMask(hs[i]) <= BatchMask(hs[..i + 1], mask, maxLength)
  {
    assert hs[..i + 1][..i] == hs[..i];
  }

  lemma BatchHandled(ms: seq<Mbuf>, hs: seq<Header>, maxLength: U16)
    requires |ms| == |hs|
    ensures forall i | 0 <= i < |ms| :: Handled(BatchUpcalls(ms, hs, {}, maxLength)[i], ms[i], hs[i], maxLength)
  {
    forall i | 0 <= i < |ms|
      ensures Handled(BatchUpcalls(ms, hs, {}, maxLength)[i], ms[i], hs[i], maxLength)
    {
      if !Rejected(hs[i], maxLength) {
        MaskCoversOwn(hs, {}, maxLength, i);
      }
    }
  }

  lemma ReceiveInv(s: RxSys, maxLength: U16, h: Header)
    requires Inv(s, maxLength)
    ensures Inv(Step(s, Receive(h), maxLength), maxLength)
    ensures s.hwCons != s.ring.hostBidx <==> |s.received| < |s.ring.upcalls| + USABLE_BDS
  {
    hide Slot, BdIndex, IndexAfter, NextBd, InCycle, Pos, TotalLength, Wrap32, Handled;
    var c, n := |s.ring.upcalls|, |s.received|;
    DistOfCounters(n, c + USABLE_BDS);
    IndexAfterFacts(n);
    if n < c + USABLE_BDS {
      var bd := s.ring.chain[BdIndex(s.hwCons)];
      assert bd == BdFor(s.obtained[n]);
      assert JoinAddr(bd.addrHi, bd.addrLo) == s.obtained[n].segment.location;
    }
  }

  lemma HandledExtends(r: RxState, r': RxState, obtained: seq<Mbuf>, more: seq<Mbuf>, received: seq<Header>,
                       maxLength: U16, q: nat)
    requires AllHandled(r, obtained, received, maxLength) && |r.upcalls| <= q <= |received|
    requires r'.upcalls == r.upcalls + BatchUpcalls(obtained[|r.upcalls|..q], received[|r.upcalls|..q], {}, maxLength)
    ensures AllHandled(r', obtained + more, received, maxLength)
  {
    hide Handled, BatchUpcalls;
    var c := |r.upcalls|;
    var us := BatchUpcalls(obtained[c..q], received[c..q], {}, maxLength);
    BatchHandled(obtained[c..q], received[c..q], maxLength);
    forall k | 0 <= k < q
      ensures Handled(r'.upcalls[k], (obtained + more)[k], received[k], maxLength)
    {
      if k < c {
        assert r'.upcalls[k] == r.upcalls[k];
      } else {
        assert r'.upcalls[k] == us[k - c];
      }
    }
  }

  lemma DoorbellKeeps(r: RxState, obtained: seq<Mbuf>, received: seq<Header>, mem: map<U64, Header>, maxLength: U16)
    requires Window(r, obtained) && Pending(r, obtained, received, mem) && AllHandled(r, obtained, received, maxLength)
    ensures var r' := RingDoorbell(r);
            Window(r', obtained) && Pending(r', obtained, received, mem) && AllHandled(r', obtained, received, maxLength)
  {
    hide Slot, IndexAfter, InCycle, Handled, HeaderOf, TotalLength, Wrap32;
  }

  lemma BatchSizeIs(s: RxSys, maxLength: U16)
    requires Inv(s, maxLength)
    ensures BatchSize(s) == s.published - |s.ring.upcalls|
    ensures s.ring.cons == Target(s) <==> s.published == |s.ring.upcalls|
  {
    DistOfCounters(|s.ring.upcalls|, s.published);
  }

  lemma InterruptIs(s: RxSys, maxLength: U16, answers: seq<Refill>)
    requires SysShape(s) && !s.ring.faulted && s.ring.cons != Target(s)
    ensures var r' := TakeAll(s.ring, Target(s), {}, RxEnv(maxLength, s.mem, answers), 0);
            !r'.faulted ==>
              Step(s, Interrupt(answers), maxLength) ==
              s.(ring := RingDoorbell(r'), obtained := s.obtained + Obtained(answers, 0, BatchSize(s)))
  {
    hide TakeAll, Obtained, BatchSize, Target;
  }

  lemma NoBatch(s: RxSys, maxLength: U16, answers: seq<Refill>)
    requires SysShape(s) && s.ring.cons == Target(s)
    ensures Step(s, Interrupt(answers), maxLength) == s
    ensures BatchUpcalls([], [], {}, maxLength) == []
  {
  }

  lemma InterruptInv(s: RxSys, maxLength: U16, answers: seq<Refill>)
    requires Inv(s, maxLength)
    requires BatchSupplied(s.ring, Target(s), {}, RxEnv(maxLength, s.mem, answers), 0)
    ensures Inv(Step(s, Interrupt(answers), maxLength), maxLength)
    ensures var c, q := |s.ring.upcalls|, s.published;
            Step(s, Interrupt(answers), maxLength).ring.upcalls ==
            s.ring.upcalls + BatchUpcalls(s.obtained[c..q], s.received[c..q], {}, maxLength)
  {
    hide Slot, BdIndex, IndexAfter, NextBd, InCycle, TotalLength, Handled, TakeAll, Obtained, BatchUpcalls, Dist,
         Normalize, BatchSupplied, Window, Pending, AllHandled, Shape, BatchSize, Step, HandleInterrupt;
    var c, q, env := |s.ring.upcalls|, s.published, RxEnv(maxLength, s.mem, answers);
    BatchSizeIs(s, maxLength);
    WindowBasics(s.ring, s.obtained, s.received, s.mem);
    if c == q {
      assert s.obtained[c..q] == [] && s.received[c..q] == [];
      NoBatch(s, maxLength, answers);
    } else {
      TakeAllBatch(s.ring, s.obtained, s.received, {}, env, 0, q);
      var r' := TakeAll(s.ring, Target(s), {}, env, 0);
      var more := Obtained(answers, 0, q - c);
      InterruptIs(s, maxLength, answers);
      HandledExtends(s.ring, r', s.obtained, more, s.received, maxLength, q);
      DoorbellKeeps(r', s.obtained + more, s.received, s.mem, maxLength);
      WindowBasics(r', s.obtained + more, s.received, s.mem);
    }
  }

  lemma StepInv(s: RxSys, e: RxEvent, maxLength: U16)
    requires Inv(s, maxLength)
    requires e.Interrupt? ==> BatchSupplied(s.ring, Target(s), {}, RxEnv(maxLength, s.mem, e.answers), 0)
    ensures Inv(Step(s, e, maxLength), maxLength)
  {
    hide Slot, IndexAfter, InCycle, Handled, HeaderOf, TotalLength, Wrap32, BatchSupplied, Window, Pending, AllHandled;
    match e
    case Receive(h) => ReceiveInv(s, maxLength, h);
    case Publish(atLink) =>
      PublishedIndex(s.hwCons, atLink);
      WindowBasics(s.ring, s.obtained, s.received, s.mem);
    case Interrupt(answers) => InterruptInv(s, maxLength, answers);
  }

  /**
   While every refill succeeds, the invariant holds after every interleaving of receptions,
   publications and interrupts.
   */
  lemma {:induction false} RunInv(physAddr: U64, init: seq<Refill>, trace: seq<RxEvent>, maxLength: U16)
    requires InitSupplied(init) && RunSupplied(Init(physAddr, init), trace, maxLength)
    ensures Inv(Run(Init(physAddr, init), trace, maxLength), maxLength)
  {
    if trace == [] {
      InitInv(physAddr, init, maxLength);
    } else {
      RunInv(physAddr, init, trace[..|trace| - 1], maxLength);
      StepInv(Run(Init(physAddr, init), trace[..|trace| - 1], maxLength), trace[|trace| - 1], maxLength);
    }
  }
}
