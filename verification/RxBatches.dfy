/**
 One interrupt of the receive ring whatever the allocator answers. The handler ignores a
 failed refill: these results say what each turn does, when the handler meets an empty
 slot, and which slots the batch leaves without a buffer of their own.
 */
module RxBatches {
  import opened Machine
  import opened RingIndex
  import opened RxRing
  import opened RxSystem

  /** How many of `n` answers from the k-th on are successes, and the bytes they post. */
  function Successes(answers: seq<Refill>, k: nat, n: nat): (s: nat)
    ensures s <= n
    decreases n
  {
    if n == 0 then 0
    else (if Succeeds(AnswerAt(answers, k)) then 1 else 0) + Successes(answers, k + 1, n - 1)
  }

  function SuccessBytes(answers: seq<Refill>, k: nat, n: nat): nat
    decreases n
  {
    if n == 0 then 0
    else
      (if Succeeds(AnswerAt(answers, k)) then AnswerAt(answers, k).alloc.value.segment.length else 0)
      + SuccessBytes(answers, k + 1, n - 1)
  }

  lemma {:induction false} AllSucceedCounted(answers: seq<Refill>, k: nat, n: nat)
    ensures Successes(answers, k, n) == n <==>
            forall i {:trigger AnswerAt(answers, i)} | k <= i < k + n :: Succeeds(AnswerAt(answers, i))
    decreases n
  {
    if n != 0 {
      AllSucceedCounted(answers, k + 1, n - 1);
      assert AnswerAt(answers, k) == AnswerAt(answers, k);
    }
  }

  lemma {:induction false} AdvanceFirst(x: U16, n: nat)
    ensures Advance(NextBd(x), n) == Advance(x, n + 1)
  {
    if n != 0 {
      AdvanceFirst(x, n - 1);
    }
  }

  lemma {:induction false} SuccessesSplit(answers: seq<Refill>, k: nat, a: nat, b: nat)
    ensures Successes(answers, k, a + b) == Successes(answers, k, a) + Successes(answers, k + a, b)
    decreases a
  {
    if a != 0 {
      SuccessesSplit(answers, k + 1, a - 1, b);
    }
  }

  lemma {:induction false} NoneSucceedCounted(answers: seq<Refill>, k: nat, n: nat)
    ensures Successes(answers, k, n) == 0 <==>
            forall i {:trigger AnswerAt(answers, i)} | k <= i < k + n :: !Succeeds(AnswerAt(answers, i))
    decreases n
  {
    if n != 0 {
      NoneSucceedCounted(answers, k + 1, n - 1);
      assert AnswerAt(answers, k) == AnswerAt(answers, k);
    }
  }

  /** Once one of the first `n` refills failed, no later one succeeded. */
  ghost predicate FailuresAreSuffix(answers: seq<Refill>, n: nat) {
    forall i, j {:trigger AnswerAt(answers, i), AnswerAt(answers, j)} | 0 <= i < j < n ::
      Succeeds(AnswerAt(answers, j)) ==> Succeeds(AnswerAt(answers, i))
  }

  /** Failures form a suffix exactly when as many leading refills succeeded as succeeded at all. */
  lemma SuffixCounted(answers: seq<Refill>, n: nat)
    ensures FailuresAreSuffix(answers, n) <==> AllSucceed(answers, Successes(answers, 0, n))
  {
    var s := Successes(answers, 0, n);
    if FailuresAreSuffix(answers, n) {
      forall i {:trigger AnswerAt(answers, i)} | 0 <= i < s
        ensures Succeeds(AnswerAt(answers, i))
      {
        if !Succeeds(AnswerAt(answers, i)) {
          SuccessesSplit(answers, 0, i, n - i);
          NoneSucceedCounted(answers, i, n - i);
        }
      }
    }
    if AllSucceed(answers, s) {
      AllSucceedCounted(answers, 0, s);
      SuccessesSplit(answers, 0, s, n - s);
      NoneSucceedCounted(answers, s, n - s);
    }
  }

  // ----- One turn -----

  /** One turn touches only the consumer's slot and moves the producer exactly on success. */
  lemma TakeOneEffect(r: RxState, mask: set<Checksum>, env: RxEnv, a: Refill)
    requires Shape(r) && !r.faulted
    ensures var r' := TakeOne(r, mask, env, a).0; var i := BdIndex(r.cons);
            && (r'.faulted <==> r.packets[i].None?)
            && (r'.faulted ==> r' == r.(cons := r'.cons, faulted := true))
            && (!r'.faulted ==>
                  && |r'.upcalls| == |r.upcalls| + 1
                  && r'.packets == r.packets[i := a.alloc]
                  && r'.chain == (if Succeeds(a) then r.chain[i := BdFor(a.alloc.value)] else r.chain)
                  && r'.prod == (if Succeeds(a) then NextBd(r.prod) else r.prod)
                  && r'.bufferSize == (if Succeeds(a) then Wrap32(r.bufferSize + a.alloc.value.segment.length)
                                       else r.bufferSize))
  {
    hide Rejected, OwnMask, PayloadLength, HeaderOf, BdFor, Wrap32, Pos;
    if a.alloc.Some? {
      BdLength(a.alloc.value);
    }
  }

  lemma BdLength(m: Mbuf)
    ensures BdFor(m).length == m.segment.length
  {
  }

  /** The producer and the byte counter of `r'` are those of `r` after `n` posts of `bytes` bytes. */
  ghost predicate Accounted(r: RxState, r': RxState, n: nat, bytes: nat) {
    r'.prod == Advance(r.prod, n) && r'.bufferSize == Wrap32(r.bufferSize + bytes)
  }

  /** What the producer and the byte counter owe to `n` answers from the k-th on. */
  ghost predicate Counted(r: RxState, r': RxState, answers: seq<Refill>, k: nat, n: nat) {
    Accounted(r, r', Successes(answers, k, n), SuccessBytes(answers, k, n))
  }

  lemma CountedFirst(r: RxState, r1: RxState, r': RxState, answers: seq<Refill>, k: nat, n: nat)
    requires n != 0 && Counted(r1, r', answers, k + 1, n - 1)
    requires var a := AnswerAt(answers, k);
             if Succeeds(a) then
               r1.prod == NextBd(r.prod) && r1.bufferSize == Wrap32(r.bufferSize + a.alloc.value.segment.length)
             else r1.prod == r.prod && r1.bufferSize == r.bufferSize
    ensures Counted(r, r', answers, k, n)
  {
    hide NextBd, Wrap32;
    AdvanceFirst(r.prod, Successes(answers, k + 1, n - 1));
    var a := AnswerAt(answers, k);
    if Succeeds(a) {
      Wrap32Absorbs(r.bufferSize + a.alloc.value.segment.length, SuccessBytes(answers, k + 1, n - 1));
    }
  }

  lemma FaultSticks(r: RxState, target: U16, mask: set<Checksum>, env: RxEnv, k: nat)
    requires Shape(r) && InCycle(target) && r.faulted
    ensures TakeAll(r, target, mask, env, k) == r
  {
  }

  // ----- Any batch -----

  /**
   Whatever the allocator answers and whether or not the handler meets an empty slot: each
   completed turn makes one upcall, and the producer and the byte counter advance by exactly
   the successes among the refills of those turns. Unless it meets an empty slot the handler
   completes as many turns as the distance to its target.
   */
  lemma {:induction false} ProducerCountsSuccesses(r: RxState, target: U16, mask: set<Checksum>, env: RxEnv, k: nat)
    requires Shape(r) && InCycle(target)
    ensures var r' := TakeAll(r, target, mask, env, k);
            && Counted(r, r', env.answers, k, |r'.upcalls| - |r.upcalls|)
            && (!r'.faulted ==> |r'.upcalls| - |r.upcalls| == Dist(r.cons, target) && r'.cons == target)
    decreases Dist(r.cons, target)
  {
    hide TakeOne, TakeAll, Dist, BdIndex, NextBd, InCycle, Shape, Counted;
    if r.faulted {
      FaultSticks(r, target, mask, env, k);
      CountedNone(r, env.answers, k);
    } else if r.cons == target {
      AtTarget(r, target, mask, env, k);
      CountedNone(r, env.answers, k);
    } else {
      var a := AnswerAt(env.answers, k);
      var (r1, mask1) := TakeOne(r, mask, env, a);
      UnfoldBatch(r, target, mask, env, k);
      TakeOneEffect(r, mask, env, a);
      if r1.faulted {
        FaultSticks(r1, target, mask1, env, k + 1);
        CountedNone(r, env.answers, k);
        CountedSame(r, r1, env.answers, k, 0);
      } else {
        ProducerCountsSuccesses(r1, target, mask1, env, k + 1);
        var r' := TakeAll(r, target, mask, env, k);
        CountedFirst(r, r1, r', env.answers, k, |r'.upcalls| - |r.upcalls|);
      }
    }
  }

  lemma AtTarget(r: RxState, target: U16, mask: set<Checksum>, env: RxEnv, k: nat)
    requires Shape(r) && InCycle(target) && r.cons == target
    ensures TakeAll(r, target, mask, env, k) == r && Dist(r.cons, target) == 0
  {
    DistZero(r.cons, target);
  }

  lemma CountedNone(r: RxState, answers: seq<Refill>, k: nat)
    ensures Counted(r, r, answers, k, 0)
  {
  }

  lemma CountedSame(r: RxState, r': RxState, answers: seq<Refill>, k: nat, n: nat)
    requires Counted(r, r, answers, k, n) && r'.prod == r.prod && r'.bufferSize == r.bufferSize
    ensures Counted(r, r', answers, k, n)
  {
  }

  /** An unfaulted ring whose consumer and producer stand at counters `c` and `p`. */
  ghost predicate At(r: RxState, c: nat, p: nat) {
    Shape(r) && !r.faulted && r.cons == IndexAfter(c) && r.prod == IndexAfter(p)
  }

  /** Some slot of the stretch from `c` to `q` is empty. */
  ghost predicate EmptySlot(r: RxState, c: nat, q: nat)
    requires Shape(r)
  {
    exists j | c <= j < q :: r.packets[Slot(j)].None?
  }

  /**
   What a batch from `c` to `q` leaves in the slots: the refilled ones hold what their own
   answer gave, their descriptors changed exactly on success, and the others are untouched.
   */
  ghost predicate Contents(r: RxState, r': RxState, c: nat, q: nat, answers: seq<Refill>, k: nat)
    requires Shape(r) && Shape(r')
  {
    && (forall j | c <= j < q ::
          var a := AnswerAt(answers, k + (j - c));
          && r'.packets[Slot(j)] == a.alloc
          && r'.chain[Slot(j)] == if Succeeds(a) then BdFor(a.alloc.value) else r.chain[Slot(j)])
    && (forall j | q <= j < c + USABLE_BDS ::
          r'.packets[Slot(j)] == r.packets[Slot(j)] && r'.chain[Slot(j)] == r.chain[Slot(j)])
  }

  /**
   A batch of at most one ring, whatever the allocator answers: it meets an empty slot if and
   only if one lies in the batch, and otherwise leaves exactly these contents.
   */
  lemma {:induction false} BatchContents(r: RxState, c: nat, p: nat, q: nat, mask: set<Checksum>, env: RxEnv, k: nat)
    requires At(r, c, p) && InCycle(IndexAfter(q)) && c <= q <= c + USABLE_BDS
    ensures var r' := TakeAll(r, IndexAfter(q), mask, env, k);
            && (r'.faulted <==> EmptySlot(r, c, q))
            && (!r'.faulted ==> Contents(r, r', c, q, env.answers, k))
    decreases q - c
  {
    hide TakeOne, TakeAll, Dist, BdIndex, NextBd, Slot, IndexAfter, Contents, EmptySlot;
    DistOfCounters(c, q);
    if c == q {
      AtTarget(r, IndexAfter(q), mask, env, k);
      NoBatchContents(r, c, env.answers, k);
    } else {
      var a := AnswerAt(env.answers, k);
      var (r1, mask1) := TakeOne(r, mask, env, a);
      UnfoldBatch(r, IndexAfter(q), mask, env, k);
      TakeOneEffect(r, mask, env, a);
      IndexAfterFacts(c);
      if r1.faulted {
        FaultSticks(r1, IndexAfter(q), mask1, env, k + 1);
        assert EmptySlot(r, c, q) by { EmptyAt(r, c, q, c); }
      } else {
        IndexAfterFacts(p);
        BatchContents(r1, c + 1, if Succeeds(a) then p + 1 else p, q, mask1, env, k + 1);
        ContentsFirst(r, r1, TakeAll(r, IndexAfter(q), mask, env, k), c, q, env.answers, k);
      }
    }
  }

  lemma EmptyAt(r: RxState, c: nat, q: nat, j: nat)
    requires Shape(r) && c <= j < q && r.packets[Slot(j)].None?
    ensures EmptySlot(r, c, q)
  {
  }

  lemma NoBatchContents(r: RxState, c: nat, answers: seq<Refill>, k: nat)
    requires Shape(r)
    ensures !EmptySlot(r, c, c) && Contents(r, r, c, c, answers, k)
  {
  }

  lemma ContentsFirst(r: RxState, r1: RxState, r': RxState, c: nat, q: nat, answers: seq<Refill>, k: nat)
    requires Shape(r) && Shape(r1) && Shape(r') && c < q <= c + USABLE_BDS
    requires var a := AnswerAt(answers, k);
             && r.packets[Slot(c)].Some? && r1.packets == r.packets[Slot(c) := a.alloc]
             && r1.chain == if Succeeds(a) then r.chain[Slot(c) := BdFor(a.alloc.value)] else r.chain
    ensures EmptySlot(r, c, q) <==> EmptySlot(r1, c + 1, q)
    ensures Contents(r1, r', c + 1, q, answers, k + 1) ==> Contents(r, r', c, q, answers, k)
  {
    hide Slot, BdFor;
    SlotPeriod(c);
    forall j | c < j < c + USABLE_BDS
      ensures Slot(j) != Slot(c)
    {
      SlotsDistinct(c, j);
    }
    if EmptySlot(r, c, q) {
      var j :| c <= j < q && r.packets[Slot(j)].None?;
      assert r1.packets[Slot(j)].None?;
    }
    if Contents(r1, r', c + 1, q, answers, k + 1) {
      assert r'.packets[Slot(c + USABLE_BDS)] == r1.packets[Slot(c + USABLE_BDS)];
      forall j | c < j < q
        ensures var a := AnswerAt(answers, k + (j - c));
                && r'.packets[Slot(j)] == a.alloc
                && r'.chain[Slot(j)] == if Succeeds(a) then BdFor(a.alloc.value) else r.chain[Slot(j)]
      {
        assert k + (j - c) == k + 1 + (j - (c + 1));
      }
    }
  }

  /** The packets of an unfaulted batch are disposed of in ring order, whatever their refills do. */
  ghost predicate Disposed(r: RxState, r': RxState, c: nat, q: nat)
    requires Shape(r) && c <= q
  {
    && |r'.upcalls| == |r.upcalls| + (q - c) && r.upcalls <= r'.upcalls
    && forall j | c <= j < q :: r.packets[Slot(j)] == Some(r'.upcalls[|r.upcalls| + (j - c)].mbuf)
  }

  lemma {:induction false} BatchDisposals(r: RxState, c: nat, p: nat, q: nat, mask: set<Checksum>, env: RxEnv, k: nat)
    requires At(r, c, p) && InCycle(IndexAfter(q)) && c <= q <= c + USABLE_BDS
    ensures var r' := TakeAll(r, IndexAfter(q), mask, env, k); !r'.faulted ==> Disposed(r, r', c, q)
    decreases q - c
  {
    hide TakeOne, TakeAll, Dist, BdIndex, NextBd, Slot, IndexAfter, Disposed;
    DistOfCounters(c, q);
    if c == q {
      AtTarget(r, IndexAfter(q), mask, env, k);
      NoDisposals(r, c);
    } else {
      var a := AnswerAt(env.answers, k);
      var (r1, mask1) := TakeOne(r, mask, env, a);
      UnfoldBatch(r, IndexAfter(q), mask, env, k);
      TakeOneEffect(r, mask, env, a);
      TakeOneDisposes(r, mask, env, a);
      IndexAfterFacts(c);
      if r1.faulted {
        FaultSticks(r1, IndexAfter(q), mask1, env, k + 1);
      } else {
        IndexAfterFacts(p);
        BatchDisposals(r1, c + 1, if Succeeds(a) then p + 1 else p, q, mask1, env, k + 1);
        var r' := TakeAll(r, IndexAfter(q), mask, env, k);
        if !r'.faulted {
          DisposedFirst(r, r1, r', c, q, a);
        }
      }
    }
  }

  lemma NoDisposals(r: RxState, c: nat)
    requires Shape(r)
    ensures Disposed(r, r, c, c)
  {
  }

  lemma TakeOneDisposes(r: RxState, mask: set<Checksum>, env: RxEnv, a: Refill)
    requires Shape(r) && !r.faulted
    ensures var r1 := TakeOne(r, mask, env, a).0; var i := BdIndex(r.cons);
            !r1.faulted ==> |r1.upcalls| == |r.upcalls| + 1 && r.packets[i] == Some(r1.upcalls[|r.upcalls|].mbuf)
  {
    hide Rejected, OwnMask, PayloadLength, HeaderOf, BdFor, Wrap32, Pos;
  }

  lemma DisposedFirst(r: RxState, r1: RxState, r': RxState, c: nat, q: nat, a: Refill)
    requires Shape(r) && Shape(r1) && c < q <= c + USABLE_BDS && r1.packets == r.packets[Slot(c) := a.alloc]
    requires r.upcalls <= r1.upcalls && |r1.upcalls| == |r.upcalls| + 1 && r.packets[Slot(c)] == Some(r1.upcalls[|r.upcalls|].mbuf)
    requires Disposed(r1, r', c + 1, q)
    ensures Disposed(r, r', c, q)
  {
    hide Slot;
    assert r'.upcalls[|r.upcalls|] == r1.upcalls[|r.upcalls|];
    forall j | c <= j < q
      ensures r.packets[Slot(j)] == Some(r'.upcalls[|r.upcalls| + (j - c)].mbuf)
    {
      if c < j {
        SlotsDistinct(c, j);
        assert |r1.upcalls| + (j - (c + 1)) == |r.upcalls| + (j - c);
      }
    }
  }

  // ----- Where each refill lands -----

  /** The loop with a nearer target is the loop up to that turn. */
  lemma {:induction false} ThroughTurn(r: RxState, c: nat, p: nat, j: nat, q: nat, mask: set<Checksum>, env: RxEnv, k: nat)
    returns (maskj: set<Checksum>)
    requires At(r, c, p) && InCycle(IndexAfter(j)) && InCycle(IndexAfter(q)) && c <= j <= q <= c + USABLE_BDS
    requires !TakeAll(r, IndexAfter(j), mask, env, k).faulted
    ensures TakeAll(r, IndexAfter(q), mask, env, k) ==
            TakeAll(TakeAll(r, IndexAfter(j), mask, env, k), IndexAfter(q), maskj, env, k + (j - c))
    decreases j - c
  {
    hide TakeOne, TakeAll, Dist, BdIndex, NextBd, Slot, IndexAfter;
    DistOfCounters(c, j);
    DistOfCounters(c, q);
    if c == j {
      AtTarget(r, IndexAfter(j), mask, env, k);
      maskj := mask;
    } else {
      var a := AnswerAt(env.answers, k);
      var (r1, mask1) := TakeOne(r, mask, env, a);
      UnfoldBatch(r, IndexAfter(j), mask, env, k);
      UnfoldBatch(r, IndexAfter(q), mask, env, k);
      TakeOneEffect(r, mask, env, a);
      IndexAfterFacts(c);
      IndexAfterFacts(p);
      if r1.faulted {
        FaultSticks(r1, IndexAfter(j), mask1, env, k + 1);
      }
      maskj := ThroughTurn(r1, c + 1, if Succeeds(a) then p + 1 else p, j, q, mask1, env, k + 1);
    }
  }

  /** Where an unfaulted batch leaves the two indices. */
  lemma BatchIndices(r: RxState, c: nat, p: nat, q: nat, mask: set<Checksum>, env: RxEnv, k: nat)
    requires At(r, c, p) && InCycle(IndexAfter(q)) && c <= q <= c + USABLE_BDS
    ensures var r' := TakeAll(r, IndexAfter(q), mask, env, k);
            !r'.faulted ==>
            && At(r', q, p + Successes(env.answers, k, q - c))
            && |r'.upcalls| == |r.upcalls| + (q - c)
  {
    hide TakeOne, TakeAll, Dist, BdIndex, NextBd, Slot, IndexAfter, Wrap32, Successes, SuccessBytes;
    DistOfCounters(c, q);
    ProducerCountsSuccesses(r, IndexAfter(q), mask, env, k);
    AdvanceOfIndexAfter(p, Successes(env.answers, k, q - c));
  }

  /**
   Turn `j` of a batch refills the slot of the consumer, and that is the slot the producer
   names at that moment if and only if the producer was one ring ahead when the batch started
   and every earlier refill of the batch succeeded.
   */
  lemma RefillSlotIff(r: RxState, c: nat, p: nat, j: nat, q: nat, env: RxEnv) returns (maskj: set<Checksum>)
    requires At(r, c, p) && c <= j < q <= p <= c + USABLE_BDS
    requires InCycle(IndexAfter(j)) && InCycle(IndexAfter(q)) && !TakeAll(r, IndexAfter(j), {}, env, 0).faulted
    ensures var rj := TakeAll(r, IndexAfter(j), {}, env, 0);
            var (r1, mask1) := TakeOne(rj, maskj, env, AnswerAt(env.answers, j - c));
            && TakeAll(r, IndexAfter(q), {}, env, 0) == TakeAll(r1, IndexAfter(q), mask1, env, j - c + 1)
            && r1.packets == (if r1.faulted then rj.packets
                              else rj.packets[BdIndex(rj.cons) := AnswerAt(env.answers, j - c).alloc])
            && BdIndex(rj.cons) == Slot(j)
            && (BdIndex(rj.prod) == BdIndex(rj.cons) <==> p == c + USABLE_BDS && AllSucceed(env.answers, j - c))
  {
    hide TakeOne, TakeAll, Dist, BdIndex, NextBd, Slot, IndexAfter, Successes;
    var rj := TakeAll(r, IndexAfter(j), {}, env, 0);
    var n := Successes(env.answers, 0, j - c);
    maskj := ThroughTurn(r, c, p, j, q, {}, env, 0);
    BatchIndices(r, c, p, j, {}, env, 0);
    DistOfCounters(j, q);
    UnfoldBatch(rj, IndexAfter(q), maskj, env, j - c);
    TakeOneEffect(rj, maskj, env, AnswerAt(env.answers, j - c));
    IndexAfterFacts(j);
    IndexAfterFacts(p + n);
    AllSucceedCounted(env.answers, 0, j - c);
    SlotPeriod(j);
    if p + n < j + USABLE_BDS {
      SlotsDistinct(j, p + n);
    }
  }

  /** The loop rings no doorbell. */
  lemma {:induction false} LoopKeepsDoorbells(r: RxState, target: U16, mask: set<Checksum>, env: RxEnv, k: nat)
    requires Shape(r) && InCycle(target)
    ensures var r' := TakeAll(r, target, mask, env, k); r'.hostBidx == r.hostBidx && r'.hostBseq == r.hostBseq
    decreases Dist(r.cons, target)
  {
    hide TakeOne, TakeAll, Dist, BdIndex, NextBd, InCycle, Shape;
    if r.faulted {
      FaultSticks(r, target, mask, env, k);
    } else if r.cons == target {
      AtTarget(r, target, mask, env, k);
    } else {
      var (r1, mask1) := TakeOne(r, mask, env, AnswerAt(env.answers, k));
      UnfoldBatch(r, target, mask, env, k);
      TurnKeepsDoorbells(r, mask, env, AnswerAt(env.answers, k));
      LoopKeepsDoorbells(r1, target, mask1, env, k + 1);
    }
  }

  lemma TurnKeepsDoorbells(r: RxState, mask: set<Checksum>, env: RxEnv, a: Refill)
    requires Shape(r)
    ensures var r1 := TakeOne(r, mask, env, a).0; r1.hostBidx == r.hostBidx && r1.hostBseq == r.hostBseq
  {
    hide BdFor, Rejected, OwnMask, PayloadLength;
  }

  /**
   Both doorbells are written once per interrupt, at its end: they show the new producer and
   byte total, or, if the handler met an empty slot, what they showed before.
   */
  lemma DoorbellsOfInterrupt(s: RxSys, answers: seq<Refill>, maxLength: U16)
    requires SysShape(s) && !s.ring.faulted && s.ring.cons != Target(s)
    ensures var r, r' := s.ring, Step(s, Interrupt(answers), maxLength).ring;
            if r'.faulted then r'.hostBidx == r.hostBidx && r'.hostBseq == r.hostBseq
            else r'.hostBidx == r'.prod && r'.hostBseq == r'.bufferSize
  {
    hide TakeAll;
    LoopKeepsDoorbells(s.ring, Target(s), {}, RxEnv(maxLength, s.mem, answers), 0);
  }

  // ----- What the operating system is told -----

  /** The hardware found the header bit of checksum `x` set in packet `m`: bits 13, 14 and 15. */
  ghost predicate Flagged(mem: map<U64, Header>, m: Mbuf, x: Checksum) {
    && m.segment.location in mem
    && var status := mem[m.segment.location].status;
       match x
       case Ip => status & 0x2000 != 0
       case Tcp => status & 0x4000 != 0
       case Udp => status & 0x8000 != 0
  }

  /**
   One packet is freed when its header shows an error or a length that, less 4 and in 16 bits,
   exceeds the limit; otherwise it is delivered with that length. A packet without a header
   counts as all zeros.
   */
  ghost predicate Judged(u: Upcall, mem: map<U64, Header>, maxLength: U16) {
    var a := u.mbuf.segment.location;
    var errors, packetLength := if a in mem then mem[a].errors else 0, if a in mem then mem[a].packetLength else 0;
    && (u.Freed? <==> errors != 0 || (packetLength - 4) % 0x1_0000 > maxLength)
    && (u.Delivered? ==> u.length == (packetLength - 4) % 0x1_0000)
  }

  /** One of the first `n` packets was delivered and flagged with `x`. */
  ghost predicate SomeFlagged(us: seq<Upcall>, n: nat, mem: map<U64, Header>, x: Checksum)
    requires n <= |us|
  {
    exists j :: 0 <= j < n && us[j].Delivered? && Flagged(mem, us[j].mbuf, x)
  }

  /** A delivered packet is reported with `mask` and the flags of all packets delivered up to it. */
  ghost predicate Reported(us: seq<Upcall>, mask: set<Checksum>, mem: map<U64, Header>) {
    forall i, x | 0 <= i < |us| && us[i].Delivered? :: x in us[i].valid <==> x in mask || SomeFlagged(us, i + 1, mem, x)
  }

  lemma TakeOneReports(r: RxState, mask: set<Checksum>, env: RxEnv, a: Refill)
    requires Shape(r) && !r.faulted
    ensures var (r1, mask1) := TakeOne(r, mask, env, a);
            if r1.faulted then r1.upcalls == r.upcalls && mask1 == mask
            else
              && |r1.upcalls| == |r.upcalls| + 1
              && var u := r1.upcalls[|r.upcalls|];
                 && Judged(u, env.mem, env.maxLength)
                 && (forall x :: x in mask1 <==> x in mask || (u.Delivered? && Flagged(env.mem, u.mbuf, x)))
                 && (u.Delivered? ==> u.valid == mask1)
  {
    hide BdFor, NextBd, BdIndex, Wrap32;
  }

  lemma SomeFlaggedFirst(u: Upcall, us: seq<Upcall>, n: nat, mem: map<U64, Header>, x: Checksum)
    requires n <= |us|
    ensures SomeFlagged([u] + us, n + 1, mem, x) <==> (u.Delivered? && Flagged(mem, u.mbuf, x)) || SomeFlagged(us, n, mem, x)
  {
    hide Flagged;
    var all := [u] + us;
    if j :| 0 <= j < n && us[j].Delivered? && Flagged(mem, us[j].mbuf, x) {
      assert all[j + 1] == us[j];
    }
    if j :| 0 <= j < n + 1 && all[j].Delivered? && Flagged(mem, all[j].mbuf, x) {
      assert j > 0 ==> all[j] == us[j - 1];
    }
    assert all[0] == u;
  }

  lemma ReportedFirst(u: Upcall, us: seq<Upcall>, mask: set<Checksum>, mask1: set<Checksum>, mem: map<U64, Header>)
    requires Reported(us, mask1, mem) && (u.Delivered? ==> u.valid == mask1)
    requires forall x :: x in mask1 <==> x in mask || (u.Delivered? && Flagged(mem, u.mbuf, x))
    ensures Reported([u] + us, mask, mem)
  {
    hide Flagged, SomeFlagged;
    forall i, x | 0 <= i < |[u] + us| && ([u] + us)[i].Delivered?
      ensures x in ([u] + us)[i].valid <==> x in mask || SomeFlagged([u] + us, i + 1, mem, x)
    {
      SomeFlaggedFirst(u, us, i, mem, x);
      if i == 0 {
        NoneFlagged(us, mem, x);
        assert ([u] + us)[i] == u;
      } else {
        assert ([u] + us)[i] == us[i - 1];
        assert x in us[i - 1].valid <==> x in mask1 || SomeFlagged(us, i - 1 + 1, mem, x);
      }
    }
  }

  lemma NoneFlagged(us: seq<Upcall>, mem: map<U64, Header>, x: Checksum)
    ensures !SomeFlagged(us, 0, mem, x)
  {
  }

  lemma NothingReported(mask: set<Checksum>, mem: map<U64, Header>)
    ensures Reported([], mask, mem)
  {
  }

  lemma {:induction false} BatchReports(r: RxState, target: U16, mask: set<Checksum>, env: RxEnv, k: nat)
    requires Shape(r) && InCycle(target)
    ensures var us := TakeAll(r, target, mask, env, k).upcalls[|r.upcalls|..];
            Reported(us, mask, env.mem) && forall i | 0 <= i < |us| :: Judged(us[i], env.mem, env.maxLength)
    decreases Dist(r.cons, target)
  {
    hide TakeOne, TakeAll, Dist, BdIndex, NextBd, InCycle, Shape, Judged, Flagged, Reported;
    NothingReported(mask, env.mem);
    assert r.upcalls[|r.upcalls|..] == [];
    if r.faulted {
      FaultSticks(r, target, mask, env, k);
    } else if r.cons == target {
      AtTarget(r, target, mask, env, k);
    } else {
      var a := AnswerAt(env.answers, k);
      var (r1, mask1) := TakeOne(r, mask, env, a);
      UnfoldBatch(r, target, mask, env, k);
      TakeOneReports(r, mask, env, a);
      if r1.faulted {
        FaultSticks(r1, target, mask1, env, k + 1);
      } else {
        BatchReports(r1, target, mask1, env, k + 1);
        var r' := TakeAll(r, target, mask, env, k);
        var u, us := r1.upcalls[|r.upcalls|], r'.upcalls[|r1.upcalls|..];
        ReportedFirst(u, us, mask, mask1, env.mem);
        assert r'.upcalls[|r.upcalls|] == u;
        assert r'.upcalls[|r.upcalls|..] == [u] + us;
      }
    }
  }

  /**
   From any state and whatever the allocator answers, each upcall of one interrupt is what
   the header of its packet demands, and a delivered packet is reported with exactly the
   checksums flagged in the headers of the packets delivered up to it in that interrupt.
   */
  lemma InterruptReports(s: RxSys, answers: seq<Refill>, maxLength: U16)
    requires SysShape(s)
    ensures var us := Step(s, Interrupt(answers), maxLength).ring.upcalls[|s.ring.upcalls|..];
            Reported(us, {}, s.mem) && forall i | 0 <= i < |us| :: Judged(us[i], s.mem, maxLength)
  {
    hide TakeAll, Judged, Flagged;
    BatchReports(s.ring, Target(s), {}, RxEnv(maxLength, s.mem, answers), 0);
  }
}
