/** What holds of the transmit ring over every run, read from its concrete fields. */
module TxTheorems {
  import opened Machine
  import opened RingIndex
  import opened TxRing
  import opened TxStream
  import opened TxSystem

  /** The state after a run from ring initialisation. */
  function After(physAddr: U64, trace: seq<TxEvent>): (s: TxSys)
    ensures SysShape(s)
  {
    Run(Init(physAddr), trace)
  }

  // ----- Walking the window -----

  lemma {:induction false} WalkIsStream(r: TxState, es: seq<Entry>, c: nat, a: nat)
    requires Window(r, es, c) && c <= a <= |es|
    ensures InCycle(IndexAfter(a))
    ensures WalkPackets(r.packets, IndexAfter(a), r.prod) == Owners(es[a..])
    ensures WalkBds(r.chain, IndexAfter(a), r.prod) == Bds(es[a..])
    decreases |es| - a
  {
    hide Slot, BdIndex, NextBd, IndexAfter, InCycle, Window, Owners, Bds, Dist;
    WindowAt(r, es, c, a);
    IndexAfterFacts(a);
    DistOfCounters(a, |es|);
    NothingLeft(es);
    if a < |es| {
      WalkIsStream(r, es, c, a + 1);
      assert es[a..] == [es[a]] + es[a + 1..];
      OwnersConcat([es[a]], es[a + 1..]);
      OwnersOfOne(es[a]);
      BdsConcat([es[a]], es[a + 1..]);
      BdsOfOne(es[a]);
    }
  }

  lemma NothingLeft(es: seq<Entry>)
    ensures Owners(es[|es|..]) == [] && Bds(es[|es|..]) == []
  {
  }

  lemma BdsOfOne(e: Entry)
    ensures Bds([e]) == [e.bd]
  {
  }

  lemma WindowAt(r: TxState, es: seq<Entry>, c: nat, a: nat)
    requires Window(r, es, c) && c <= a <= |es|
    ensures Shape(r) && r.prod == IndexAfter(|es|) && |es| < c + USABLE_BDS
    ensures a < |es| ==> r.chain[Slot(a)] == es[a].bd && r.packets[Slot(a)] == es[a].owner
  {
  }

  lemma OwnersOfOne(e: Entry)
    ensures Owners([e]) == if e.owner.Some? then [e.owner.value] else []
  {
    OwnersSnoc([], e);
    assert [] + [e] == [e];
  }

  // ----- Main results -----

  /**
   Conservation: free descriptors and the link-skipping distance from consumer to producer
   always add up to 1022, and at least one descriptor stays free, so a full ring never
   looks empty and the zero check of the send path never fires.
   */
  lemma Conservation(physAddr: U64, trace: seq<TxEvent>)
    ensures var r := After(physAddr, trace).ring;
            && r.free + Dist(r.cons, r.prod) == USABLE_BDS - 1
            && 1 <= r.free
            && (r.cons == r.prod <==> r.free == USABLE_BDS - 1)
  {
    RunInv(physAddr, trace);
    var s := After(physAddr, trace);
    DistOfCounters(s.reclaimed, |Stream(s.accepted)|);
  }

  /**
   The ring is a FIFO queue of packets: whatever was accepted has been freed, in order and
   once, or is still parked in the ring, in order, between consumer and producer.
   */
  lemma Fifo(physAddr: U64, trace: seq<TxEvent>)
    ensures var s := After(physAddr, trace); s.accepted == s.ring.freed + InFlight(s.ring)
  {
    hide Slot, BdIndex, IndexAfter, TotalLength, Stream, WalkPackets, Wrap32;
    RunInv(physAddr, trace);
    var s := After(physAddr, trace);
    var es, c := Stream(s.accepted), s.reclaimed;
    OwnersOfStream(s.accepted);
    assert es == es[..c] + es[c..];
    OwnersConcat(es[..c], es[c..]);
    WalkIsStream(s.ring, es, c, c);
  }

  /** With distinct packets, none is freed twice and none is freed while in flight. */
  lemma FreedOnce(physAddr: U64, trace: seq<TxEvent>)
    requires var a := After(physAddr, trace).accepted; forall i, j | 0 <= i < j < |a| :: a[i] != a[j]
    ensures var r := After(physAddr, trace).ring;
            && (forall i, j | 0 <= i < j < |r.freed| :: r.freed[i] != r.freed[j])
            && (forall p | p in r.freed :: p !in InFlight(r))
  {
    Fifo(physAddr, trace);
    var a, r := After(physAddr, trace).accepted, After(physAddr, trace).ring;
    forall p | p in r.freed
      ensures p !in InFlight(r)
    {
      var i :| 0 <= i < |r.freed| && r.freed[i] == p;
      assert a[i] == p;
      forall j | 0 <= j < |InFlight(r)|
        ensures InFlight(r)[j] != p
      {
        assert a[|r.freed| + j] == InFlight(r)[j];
      }
    }
    forall i, j | 0 <= i < j < |r.freed|
      ensures r.freed[i] != r.freed[j]
    {
      assert a[i] == r.freed[i] && a[j] == r.freed[j];
    }
  }

  /**
   What the hardware fetched, split at END, is a run of the accepted packets' segment lists
   followed by the first segments of the next one; every freed packet is among the
   completed ones, so it is freed only after its last descriptor was consumed.
   */
  lemma WireCarriesPackets(physAddr: U64, trace: seq<TxEvent>)
    ensures var s := After(physAddr, trace); var sent := Parse(s.wire);
            && SegmentLists(s.ring.freed) <= sent.frames <= SegmentLists(s.accepted)
            && (|sent.frames| == |s.accepted| ==> sent.open == [])
            && (|sent.frames| < |s.accepted| ==> sent.open < s.accepted[|sent.frames|].segments)
  {
    hide Inv, Init, Run, Stream, Owners, Parse, SegmentLists, Bds;
    RunInv(physAddr, trace);
    var s := After(physAddr, trace);
    var es, c, h := Stream(s.accepted), s.reclaimed, |s.wire|;
    InvWire(physAddr, s);
    ParseCut(s.accepted, h);
    assert es[..h] == es[..c] + es[c..h];
    OwnersConcat(es[..c], es[c..h]);
    SegmentListsPrefix(s.ring.freed, Owners(es[..h]));
    SegmentListsPrefix(Owners(es[..h]), s.accepted);
  }

  lemma InvWire(physAddr: U64, s: TxSys)
    requires Inv(s, physAddr)
    ensures forall p | p in s.accepted :: p.segments != []
    ensures s.reclaimed <= |s.wire| <= |Stream(s.accepted)|
    ensures s.wire == Bds(Stream(s.accepted)[..|s.wire|])
    ensures s.ring.freed == Owners(Stream(s.accepted)[..s.reclaimed])
  {
  }

  lemma SegmentListsPrefix(a: seq<Packet>, b: seq<Packet>)
    requires a <= b
    ensures SegmentLists(a) <= SegmentLists(b)
  {
  }

  /**
   Descriptor round trip: from any packet boundary not yet reclaimed, the descriptors up to
   the producer, split at END with address halves rejoined, are exactly the segment lists
   of the packets queued from there, across the link slot and the 16-bit wrap.
   */
  lemma DescriptorRoundTrip(physAddr: U64, trace: seq<TxEvent>, j: nat)
    requires var s := After(physAddr, trace);
             j <= |s.accepted| && s.reclaimed <= |Stream(s.accepted[..j])|
    ensures var s := After(physAddr, trace); var x := IndexAfter(|Stream(s.accepted[..j])|);
            && InCycle(x)
            && Parse(WalkBds(s.ring.chain, x, s.ring.prod)) == Parsed(SegmentLists(s.accepted[j..]), [])
  {
    RunInv(physAddr, trace);
    var s := After(physAddr, trace);
    var a := |Stream(s.accepted[..j])|;
    assert s.accepted == s.accepted[..j] + s.accepted[j..];
    StreamConcat(s.accepted[..j], s.accepted[j..]);
    assert Stream(s.accepted)[a..] == Stream(s.accepted[j..]);
    WalkIsStream(s.ring, Stream(s.accepted), s.reclaimed, a);
    ParseStream(s.accepted[j..]);
  }

  /** A slot at some index from consumer up to, not including, producer. */
  ghost predicate InWindow(r: TxState, slot: nat) {
    Between(r.cons, r.prod, slot)
  }

  lemma InWindowIsCounter(r: TxState, es: seq<Entry>, c: nat, slot: nat) returns (k: nat)
    requires Window(r, es, c) && slot < USABLE_BDS
    ensures c <= k < c + USABLE_BDS && Slot(k) == slot
    ensures InWindow(r, slot) <==> k < |es|
  {
    hide Slot, IndexAfter, Between, Owners, TotalLength, Wrap32;
    k := CounterOfSlot(slot, c);
    BetweenIff(c, |es|, k);
  }

  /**
   Slot ownership: a slot holds a packet pointer exactly when it lies between consumer and
   producer and its descriptor carries END.
   */
  lemma SlotOwnership(physAddr: U64, trace: seq<TxEvent>, slot: nat)
    requires slot < USABLE_BDS
    ensures var r := After(physAddr, trace).ring;
            r.packets[slot].Some? <==> InWindow(r, slot) && EndsPacket(r.chain[slot])
  {
    RunInv(physAddr, trace);
    var s := After(physAddr, trace);
    var es := Stream(s.accepted);
    var k := InWindowIsCounter(s.ring, es, s.reclaimed, slot);
    if k < |es| {
      OwnedMeansEnd(s.accepted, k);
    }
  }

  /**
   A send leaves every descriptor and packet pointer between consumer and producer as it
   was, overwrites no live packet pointer anywhere, and does not touch the link descriptor.
   */
  lemma SendPreservesWindow(physAddr: U64, trace: seq<TxEvent>, p: Packet, slot: nat)
    requires slot < USABLE_BDS
    ensures var r := After(physAddr, trace).ring; var r' := SendPacket(r, p).0;
            && (InWindow(r, slot) ==> r'.chain[slot] == r.chain[slot] && r'.packets[slot] == r.packets[slot])
            && (r.packets[slot].Some? ==> r'.packets[slot] == r.packets[slot])
            && r'.chain[USABLE_BDS] == r.chain[USABLE_BDS]
            && r.chain[USABLE_BDS].addrHi == AddrHi(physAddr) && r.chain[USABLE_BDS].addrLo == AddrLo(physAddr)
  {
    hide Slot, BdIndex, NextBd, Pos, InCycle, Advance, Owners, TotalLength, Wrap32, Accept;
    RunInv(physAddr, trace);
    var s := After(physAddr, trace);
    var es, c, m := Stream(s.accepted), s.reclaimed, |p.segments|;
    if 0 < m < s.ring.free {
      var k := InWindowIsCounter(s.ring, es, c, slot);
      AcceptWrites(s.ring, |es|, p);
      if k < |es| {
        SlotsDistinct(k, |es| + m - 1);
      }
    }
  }

  /**
   Progress: the outcome of a send depends only on the segment count and the descriptors in
   flight; a stalled send changes nothing; any packet the cursor can describe is accepted
   while at most 509 descriptors are in flight.
   */
  lemma SendOutcome(physAddr: U64, trace: seq<TxEvent>, p: Packet)
    ensures var r := After(physAddr, trace).ring; var (r', status) := SendPacket(r, p);
            && (status == Dropped <==> p.segments == [])
            && (status == Success <==> p.segments != [] && Dist(r.cons, r.prod) + |p.segments| < USABLE_BDS - 1)
            && (status == Stall ==> r' == r)
            && (Dist(r.cons, r.prod) <= 509 && p.segments != [] ==> status == Success)
  {
    Conservation(physAddr, trace);
  }

  /**
   The doorbells always show the producer index and the byte total of everything ever
   accepted, modulo 2^32.
   */
  lemma Doorbells(physAddr: U64, trace: seq<TxEvent>)
    ensures var s := After(physAddr, trace);
            && s.ring.hostBidx == s.ring.prod == IndexAfter(|Stream(s.accepted)|)
            && s.ring.hostBseq == s.ring.bufferSize == Wrap32(TotalLength(Stream(s.accepted)))
  {
    RunInv(physAddr, trace);
  }

  /**
   Every raw 16-bit status value, honest or not, ends the completion loop after exactly the
   cyclic distance to its normalised form.
   */
  lemma {:induction false} ReclaimCount(r: TxState, target: U16)
    requires Shape(r) && InCycle(target)
    ensures var r' := Reclaim(r, target);
            r'.cons == target && r'.free == Wrap16(r.free + Dist(r.cons, target))
    decreases Dist(r.cons, target)
  {
    if r.cons == target {
      DistZero(r.cons, target);
    } else {
      DistDecreases(r.cons, target);
      ReclaimCount(ReclaimOne(r), target);
      Wrap16Absorbs(r.free + 1, Dist(ReclaimOne(r).cons, target));
    }
  }

  // ----- Interleaving with the hardware -----

  /**
   While a send is still filling descriptors, each one the hardware may fetch is already
   what it will be when the send completes, so treating a send as one step loses nothing.
   */
  lemma FetchDuringFill(physAddr: U64, trace: seq<TxEvent>, p: Packet, i: nat)
    requires var s := After(physAddr, trace);
             s.hwCons != s.ring.hostBidx && i <= |p.segments| < s.ring.free
    ensures var s := After(physAddr, trace); var slot := BdIndex(s.hwCons);
            FillBds(s.ring, Encode(p)[..i]).chain[slot] == s.ring.chain[slot]
  {
    RunInv(physAddr, trace);
    var s := After(physAddr, trace);
    var es, h := Stream(s.accepted), |s.wire|;
    FetchInv(s, physAddr);
    IndexAfterFacts(h);
    FillWrites(s.ring, Encode(p)[..i], |es|);
  }

  /** The same for the whole send, which also leaves the fetch enabled. */
  lemma SendLeavesFetch(physAddr: U64, trace: seq<TxEvent>, p: Packet)
    requires var s := After(physAddr, trace); s.hwCons != s.ring.hostBidx
    ensures var s := After(physAddr, trace); var r' := SendPacket(s.ring, p).0;
            r'.hostBidx != s.hwCons && r'.chain[BdIndex(s.hwCons)] == s.ring.chain[BdIndex(s.hwCons)]
  {
    hide BdIndex, IndexAfter, NextBd, Pos, Slot, FillBds, Owners, TotalLength, Stream, InCycle;
    var s := After(physAddr, trace);
    RunInv(physAddr, trace);
    if 0 < |p.segments| < s.ring.free {
      FetchDuringFill(physAddr, trace, p, |p.segments|);
      assert Encode(p)[..|p.segments|] == Encode(p);
      FetchInv(s, physAddr);
      SendInv(s, physAddr, p);
      FetchInv(Step(s, Send(p)), physAddr);
      StreamSnoc(s.accepted, p);
    }
  }

  /** A fetch of a posted descriptor and a send can be taken in either order. */
  lemma SendFetchCommute(physAddr: U64, trace: seq<TxEvent>, p: Packet)
    requires var s := After(physAddr, trace); s.hwCons != s.ring.hostBidx
    ensures After(physAddr, trace + [Send(p), Fetch]) == After(physAddr, trace + [Fetch, Send(p)])
  {
    hide BdIndex, NextBd, InCycle, Shape, Run, SendPacket;
    var s := After(physAddr, trace);
    RunTwo(Init(physAddr), trace, Send(p), Fetch);
    RunTwo(Init(physAddr), trace, Fetch, Send(p));
    SendLeavesFetch(physAddr, trace, p);
  }

  lemma RunSnoc(s: TxSys, trace: seq<TxEvent>, e: TxEvent)
    requires SysShape(s)
    ensures Run(s, trace + [e]) == Step(Run(s, trace), e)
  {
    assert (trace + [e])[..|trace|] == trace;
  }

  lemma RunTwo(s: TxSys, trace: seq<TxEvent>, a: TxEvent, b: TxEvent)
    requires SysShape(s)
    ensures Run(s, trace + [a, b]) == Step(Step(Run(s, trace), a), b)
  {
    assert trace + [a, b] == (trace + [a]) + [b];
    RunSnoc(s, trace + [a], b);
    RunSnoc(s, trace, a);
  }

  // ----- Draining -----

  function Fetches(n: nat): seq<TxEvent> {
    seq(n, _ => Fetch)
  }

  /** A fetch advances exactly when something posted is left. */
  lemma FetchAdvances(physAddr: U64, s: TxSys)
    requires Inv(s, physAddr) && |s.wire| < |Stream(s.accepted)|
    ensures var s' := Step(s, Fetch);
            && Inv(s', physAddr) && |s'.wire| == |s.wire| + 1
            && s'.accepted == s.accepted && s'.ring == s.ring
  {
    hide Inv, Stream;
    FetchInv(s, physAddr);
    InvShape(physAddr, s);
  }

  lemma InvShape(physAddr: U64, s: TxSys)
    requires Inv(s, physAddr)
    ensures SysShape(s)
  {
  }

  lemma {:induction false} FetchAll(physAddr: U64, s: TxSys, n: nat)
    requires Inv(s, physAddr) && |s.wire| + n <= |Stream(s.accepted)|
    ensures var s' := Run(s, Fetches(n));
            && Inv(s', physAddr) && |s'.wire| == |s.wire| + n
            && s'.accepted == s.accepted && s'.ring == s.ring
  {
    hide Inv, Stream, Step, SysShape;
    if n != 0 {
      InvShape(physAddr, s);
      FetchAll(physAddr, s, n - 1);
      assert Fetches(n) == Fetches(n - 1) + [Fetch];
      RunSnoc(s, Fetches(n - 1), Fetch);
      FetchAdvances(physAddr, Run(s, Fetches(n - 1)));
    }
  }

  lemma DrainedState(physAddr: U64, s: TxSys)
    requires Inv(s, physAddr) && s.reclaimed == |Stream(s.accepted)|
    ensures s.accepted == s.ring.freed
    ensures s.ring.free == USABLE_BDS - 1 && s.ring.cons == s.ring.prod
    ensures Parse(s.wire) == Parsed(SegmentLists(s.accepted), [])
  {
    hide Inv, Stream, Owners, Bds, Parse, SegmentLists;
    var es := Stream(s.accepted);
    InvWire(physAddr, s);
    InvEmpty(physAddr, s);
    assert es[..|es|] == es;
    OwnersOfStream(s.accepted);
    ParseStream(s.accepted);
  }

  lemma InvEmpty(physAddr: U64, s: TxSys)
    requires Inv(s, physAddr) && s.reclaimed == |Stream(s.accepted)|
    ensures s.ring.free == USABLE_BDS - 1 && s.ring.cons == s.ring.prod
  {
    hide IndexAfter, Slot, TotalLength, Stream, Owners, Bds;
  }

  lemma DrainFrom(physAddr: U64, s: TxSys, n: nat, atLink: bool)
    requires Inv(s, physAddr) && |s.wire| + n == |Stream(s.accepted)|
    ensures var s' := Run(s, Fetches(n) + [Publish(atLink), Interrupt]);
            && s'.accepted == s.accepted == s'.ring.freed
            && s'.ring.free == USABLE_BDS - 1 && s'.ring.cons == s'.ring.prod
            && Parse(s'.wire) == Parsed(SegmentLists(s.accepted), [])
  {
    hide Inv, Stream, Run, Reclaim, RawIndex, Normalize, SysShape, Parse, SegmentLists, SendPacket;
    InvShape(physAddr, s);
    FetchAll(physAddr, s, n);
    RunTwo(s, Fetches(n), Publish(atLink), Interrupt);
    var s1 := Run(s, Fetches(n));
    StepInv(s1, physAddr, Publish(atLink));
    StepInv(Step(s1, Publish(atLink)), physAddr, Interrupt);
    DrainedState(physAddr, Step(Step(s1, Publish(atLink)), Interrupt));
  }

  /**
   From every reachable state, once the hardware fetches what was posted, publishes and
   interrupts, every accepted packet has been freed and all 1022 descriptors are free.
   */
  lemma Drain(physAddr: U64, trace: seq<TxEvent>, atLink: bool)
    ensures var s := After(physAddr, trace);
            |s.wire| <= |Stream(s.accepted)| &&
            var s' := Run(s, Fetches(|Stream(s.accepted)| - |s.wire|) + [Publish(atLink), Interrupt]);
            && s'.accepted == s.accepted == s'.ring.freed
            && s'.ring.free == USABLE_BDS - 1 && s'.ring.cons == s'.ring.prod
            && Parse(s'.wire) == Parsed(SegmentLists(s.accepted), [])
  {
    RunInv(physAddr, trace);
    var s := After(physAddr, trace);
    assert |s.wire| <= |Stream(s.accepted)|;
    DrainFrom(physAddr, s, |Stream(s.accepted)| - |s.wire|, atLink);
  }

  // ----- Descriptors as the hardware reads them -----

  /**
   Descriptor by descriptor, in every reachable state: what the hardware fetched and what is
   posted in the ring are the segments of the accepted packets in order, with every field and
   the whole flag word as the packet demands.
   */
  lemma EveryDescriptor(physAddr: U64, trace: seq<TxEvent>, j: nat, i: nat)
    requires j < |After(physAddr, trace).accepted| && i < |After(physAddr, trace).accepted[j].segments|
    ensures var s := After(physAddr, trace); var k := SegmentCount(s.accepted[..j]) + i;
            && (k < |s.wire| ==> Describes(s.wire[k], s.accepted[j], i))
            && (k >= s.reclaimed ==> |s.ring.chain| == PAGE_BDS && Describes(s.ring.chain[k % 1023], s.accepted[j], i))
  {
    hide Describes, SegmentCount, Stream, Init, Run, Owners, IndexAfter, TotalLength;
    RunInv(physAddr, trace);
    var s := After(physAddr, trace);
    StreamDescribes(s.accepted, j, i);
  }

  /** The link slot always holds the ring's own address. */
  lemma LinkDescriptorKept(physAddr: U64, trace: seq<TxEvent>)
    ensures var r := After(physAddr, trace).ring;
            && |r.chain| == 1024
            && r.chain[1023].addrHi == physAddr / 0x1_0000_0000 && r.chain[1023].addrLo == physAddr % 0x1_0000_0000
  {
    hide Window, Stream, Run, Init;
    RunInv(physAddr, trace);
    InvChain(After(physAddr, trace), physAddr);
  }

  lemma InvChain(s: TxSys, physAddr: U64)
    requires Inv(s, physAddr)
    ensures |s.ring.chain| == PAGE_BDS
  {
  }

  // ----- Packets given back at once -----

  /** The packets sent without a segment, in order. */
  function SentEmpty(trace: seq<TxEvent>): seq<Packet> {
    if trace == [] then []
    else
      var e := trace[|trace| - 1];
      SentEmpty(trace[..|trace| - 1]) + (if e.Send? && |e.packet.segments| == 0 then [e.packet] else [])
  }

  /** The packets freed without being sent are exactly those, so no other is lost and none is freed twice. */
  lemma {:induction false} DroppedExactly(physAddr: U64, trace: seq<TxEvent>)
    ensures After(physAddr, trace).ring.dropped == SentEmpty(trace)
  {
    if trace != [] {
      var before, e := trace[..|trace| - 1], trace[|trace| - 1];
      hide Init, Inv, Accept, Reclaim;
      DroppedExactly(physAddr, before);
      Conservation(physAddr, before);
      DroppedStep(After(physAddr, before), e);
    } else {
      InitDropsNothing(physAddr);
    }
  }

  lemma InitDropsNothing(physAddr: U64)
    ensures Init(physAddr).ring.dropped == []
  {
  }

  lemma DroppedStep(s: TxSys, e: TxEvent)
    requires SysShape(s) && 1 <= s.ring.free
    ensures Step(s, e).ring.dropped ==
            s.ring.dropped + (if e.Send? && |e.packet.segments| == 0 then [e.packet] else [])
  {
    hide FillBds, ReclaimOne, Encode;
  }
}
