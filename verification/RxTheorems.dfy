/** What holds of the receive ring over every run, and where refill failures break it. */
module RxTheorems {
  import opened Machine
  import opened RingIndex
  import opened RxRing
  import opened RxSystem

  /** A run from ring initialisation in which every refill succeeded. */
  ghost predicate Reached(physAddr: U64, init: seq<Refill>, trace: seq<RxEvent>, maxLength: U16, s: RxSys) {
    && InitSupplied(init)
    && RunSupplied(Init(physAddr, init), trace, maxLength)
    && s == Run(Init(physAddr, init), trace, maxLength)
  }

  lemma ReachedInv(physAddr: U64, init: seq<Refill>, trace: seq<RxEvent>, maxLength: U16, s: RxSys)
    requires Reached(physAddr, init, trace, maxLength, s)
    ensures Inv(s, maxLength)
  {
    RunInv(physAddr, init, trace, maxLength);
  }

  /** Whatever the allocator answers, the link descriptor keeps the address of the ring. */
  lemma {:induction false} LinkDescriptorKept(physAddr: U64, init: seq<Refill>, trace: seq<RxEvent>, maxLength: U16)
    ensures var link := Run(Init(physAddr, init), trace, maxLength).ring.chain[1023];
            link.addrHi == physAddr / 0x1_0000_0000 && link.addrLo == physAddr % 0x1_0000_0000
  {
    if trace != [] {
      hide InitRing, HandleInterrupt, Obtained;
      LinkDescriptorKept(physAddr, init, trace[..|trace| - 1], maxLength);
    }
  }

  // ----- Runs with successful refills -----

  /**
   The producer stays one page ahead of the consumer, every one of the 1023 slots holds a
   packet that its own descriptor addresses, no two share a buffer, and no handler ever
   meets an empty slot.
   */
  lemma RingFull(physAddr: U64, init: seq<Refill>, trace: seq<RxEvent>, maxLength: U16, s: RxSys)
    requires Reached(physAddr, init, trace, maxLength, s)
    ensures !s.ring.faulted && s.ring.prod == Wrap16(s.ring.cons + PAGE_BDS)
    ensures forall i | 0 <= i < USABLE_BDS ::
              s.ring.packets[i].Some? && s.ring.chain[i] == BdFor(s.ring.packets[i].value)
    ensures forall i, j | 0 <= i < j < USABLE_BDS ::
              s.ring.packets[i].value.segment.location != s.ring.packets[j].value.segment.location
  {
    hide Slot, IndexAfter, BdIndex, NextBd, Pos, TotalLength, Wrap32, BdFor, Pending, AllHandled;
    ReachedInv(physAddr, init, trace, maxLength, s);
    OneRingLater(|s.ring.upcalls|);
    forall i | 0 <= i < USABLE_BDS
      ensures s.ring.packets[i].Some? && s.ring.chain[i] == BdFor(s.ring.packets[i].value)
    {
      var k := CounterOfSlot(i, |s.ring.upcalls|);
    }
    forall i, j | 0 <= i < j < USABLE_BDS
      ensures s.ring.packets[i].value.segment.location != s.ring.packets[j].value.segment.location
    {
      SlotsApart(s.ring, s.obtained, i, j);
    }
  }

  lemma SlotsApart(r: RxState, obtained: seq<Mbuf>, i: nat, j: nat)
    requires Window(r, obtained) && i < USABLE_BDS && j < USABLE_BDS && i != j
    ensures r.packets[i].Some? && r.packets[j].Some?
    ensures r.packets[i].value.segment.location != r.packets[j].value.segment.location
  {
    hide Slot, IndexAfter, TotalLength, Wrap32, BdFor;
    var k := CounterOfSlot(i, |r.upcalls|);
    var l := CounterOfSlot(j, |r.upcalls|);
    if k < l {
      assert obtained[k].segment.location != obtained[l].segment.location;
    } else {
      assert obtained[l].segment.location != obtained[k].segment.location;
    }
  }

  /** The packets in the ring from the consumer on, one full turn. */
  function RingPackets(r: RxState): seq<Option<Mbuf>>
    requires Shape(r)
  {
    seq(USABLE_BDS, n requires 0 <= n < USABLE_BDS =>
      PosOfAdvance(r.cons, n);
      r.packets[BdIndex(Advance(r.cons, n))])
  }

  /**
   Conservation: the packets the allocator handed out are, in order, those freed or
   delivered so far, each once, followed by those in the ring from consumer to producer.
   */
  lemma PacketConservation(physAddr: U64, init: seq<Refill>, trace: seq<RxEvent>, maxLength: U16, s: RxSys)
    requires Reached(physAddr, init, trace, maxLength, s)
    ensures |s.obtained| == |s.ring.upcalls| + USABLE_BDS
    ensures forall k | 0 <= k < |s.ring.upcalls| :: s.ring.upcalls[k].mbuf == s.obtained[k]
    ensures forall n | 0 <= n < USABLE_BDS :: RingPackets(s.ring)[n] == Some(s.obtained[|s.ring.upcalls| + n])
  {
    hide Slot, IndexAfter, BdIndex, NextBd, Pos, TotalLength, Wrap32, BdFor, Rejected, InCycle, Reached, OwnMask, PayloadLength;
    ReachedInv(physAddr, init, trace, maxLength, s);
    var c := |s.ring.upcalls|;
    forall n | 0 <= n < USABLE_BDS
      ensures RingPackets(s.ring)[n] == Some(s.obtained[c + n])
    {
      AdvanceOfIndexAfter(c, n);
      IndexAfterFacts(c + n);
    }
  }

  /** Every packet taken from the ring is freed or delivered according to its own header. */
  lemma Dispositions(physAddr: U64, init: seq<Refill>, trace: seq<RxEvent>, maxLength: U16, s: RxSys)
    requires Reached(physAddr, init, trace, maxLength, s)
    ensures |s.ring.upcalls| <= |s.received| <= |s.obtained|
    ensures forall k | 0 <= k < |s.ring.upcalls| ::
              && s.ring.upcalls[k].mbuf == s.obtained[k]
              && (s.ring.upcalls[k].Freed? <==> Rejected(s.received[k], maxLength))
  {
    hide Window, Pending, Rejected, PayloadLength, OwnMask;
    ReachedInv(physAddr, init, trace, maxLength, s);
  }

  /**
   End to end: the k-th packet the driver disposes of is the k-th the hardware received. It
   is freed when its header reports an error or a length out of range; otherwise it is
   delivered with the header length less the CRC, which neither wraps nor exceeds the limit.
   */
  lemma FramesInOrder(physAddr: U64, init: seq<Refill>, trace: seq<RxEvent>, maxLength: U16, s: RxSys, k: nat)
    requires Reached(physAddr, init, trace, maxLength, s) && maxLength < 65532 && k < |s.ring.upcalls|
    ensures k < |s.received|
    ensures var u, h := s.ring.upcalls[k], s.received[k];
            var ok := CRC_SIZE <= h.packetLength <= maxLength + CRC_SIZE && h.errors == 0;
            && (u.Delivered? <==> ok)
            && (ok ==> u.length == h.packetLength - CRC_SIZE && OwnMask(h) <= u.valid)
  {
    hide Window, Pending, Handled, Rejected, PayloadLength, OwnMask;
    ReachedInv(physAddr, init, trace, maxLength, s);
    HandledMeans(s.ring.upcalls[k], s.obtained[k], s.received[k], maxLength);
  }

  lemma HandledMeans(u: Upcall, m: Mbuf, h: Header, maxLength: U16)
    requires Handled(u, m, h, maxLength) && maxLength < 65532
    ensures var ok := CRC_SIZE <= h.packetLength <= maxLength + CRC_SIZE && h.errors == 0;
            && (u.Delivered? <==> ok)
            && (ok ==> u.length == h.packetLength - CRC_SIZE && OwnMask(h) <= u.valid)
  {
    hide OwnMask;
  }

  /** The doorbells show the producer and the byte total of every buffer ever posted. */
  lemma Doorbells(physAddr: U64, init: seq<Refill>, trace: seq<RxEvent>, maxLength: U16, s: RxSys)
    requires Reached(physAddr, init, trace, maxLength, s)
    ensures s.ring.hostBidx == s.ring.prod == IndexAfter(|s.obtained|)
    ensures s.ring.hostBseq == s.ring.bufferSize == Wrap32(TotalLength(s.obtained))
  {
    ReachedInv(physAddr, init, trace, maxLength, s);
  }

  /** The exact upcalls of one interrupt, in terms of the headers received since the last. */
  lemma InterruptUpcalls(physAddr: U64, init: seq<Refill>, trace: seq<RxEvent>, answers: seq<Refill>, maxLength: U16,
                         s: RxSys)
    requires Reached(physAddr, init, trace, maxLength, s)
    requires BatchSupplied(s.ring, Target(s), {}, RxEnv(maxLength, s.mem, answers), 0)
    ensures |s.ring.upcalls| <= s.published <= |s.received| <= |s.obtained|
    ensures var c, q := |s.ring.upcalls|, s.published;
            Step(s, Interrupt(answers), maxLength).ring.upcalls ==
            s.ring.upcalls + BatchUpcalls(s.obtained[c..q], s.received[c..q], {}, maxLength)
  {
    ReachedInv(physAddr, init, trace, maxLength, s);
    InterruptInv(s, maxLength, answers);
  }

  // ----- Checksum flags -----

  lemma {:induction false} MaskMembers(hs: seq<Header>, maxLength: U16, x: Checksum)
    ensures x in BatchMask(hs, {}, maxLength) <==>
            exists j | 0 <= j < |hs| :: !Rejected(hs[j], maxLength) && x in OwnMask(hs[j])
  {
    if hs != [] {
      hide Rejected, OwnMask;
      var init := hs[..|hs| - 1];
      MaskMembers(init, maxLength, x);
      assert forall j | 0 <= j < |init| :: init[j] == hs[j];
    }
  }

  /** A packet's own checksum flags are bits 13, 14 and 15 of the status in its header. */
  lemma OwnFlags(h: Header)
    ensures Ip in OwnMask(h) <==> h.status & 0x2000 != 0
    ensures Tcp in OwnMask(h) <==> h.status & 0x4000 != 0
    ensures Udp in OwnMask(h) <==> h.status & 0x8000 != 0
  {
  }

  lemma DeliveredMask(ms: seq<Mbuf>, hs: seq<Header>, maxLength: U16, i: nat, x: Checksum)
    requires |ms| == |hs| && i < |hs| && !Rejected(hs[i], maxLength)
    ensures x in BatchUpcalls(ms, hs, {}, maxLength)[i].valid <==>
            exists j | 0 <= j <= i :: !Rejected(hs[j], maxLength) && x in OwnMask(hs[j])
  {
    hide Rejected, OwnMask, BatchMask;
    var prefix := hs[..i + 1];
    MaskMembers(prefix, maxLength, x);
    assert forall j | 0 <= j <= i :: prefix[j] == hs[j];
    if j :| 0 <= j <= i && !Rejected(hs[j], maxLength) && x in OwnMask(hs[j]) {
      assert !Rejected(prefix[j], maxLength) && x in OwnMask(prefix[j]);
    }
  }

  /**
   In one interrupt a delivered packet is reported as checked exactly for the checksums whose
   status bit is set in the header of some packet delivered up to it.
   */
  lemma ChecksumBits(ms: seq<Mbuf>, hs: seq<Header>, maxLength: U16, i: nat)
    requires |ms| == |hs| && i < |hs| && BatchUpcalls(ms, hs, {}, maxLength)[i].Delivered?
    ensures var us := BatchUpcalls(ms, hs, {}, maxLength);
            && (Ip in us[i].valid <==> exists j :: 0 <= j <= i && us[j].Delivered? && hs[j].status & 0x2000 != 0)
            && (Tcp in us[i].valid <==> exists j :: 0 <= j <= i && us[j].Delivered? && hs[j].status & 0x4000 != 0)
            && (Udp in us[i].valid <==> exists j :: 0 <= j <= i && us[j].Delivered? && hs[j].status & 0x8000 != 0)
  {
    hide Rejected, OwnMask, BatchMask;
    DeliveredMask(ms, hs, maxLength, i, Ip);
    DeliveredMask(ms, hs, maxLength, i, Tcp);
    DeliveredMask(ms, hs, maxLength, i, Udp);
    forall j | 0 <= j <= i
      ensures Ip in OwnMask(hs[j]) <==> hs[j].status & 0x2000 != 0
      ensures Tcp in OwnMask(hs[j]) <==> hs[j].status & 0x4000 != 0
      ensures Udp in OwnMask(hs[j]) <==> hs[j].status & 0x8000 != 0
      ensures BatchUpcalls(ms, hs, {}, maxLength)[j].Delivered? <==> !Rejected(hs[j], maxLength)
    {
      OwnFlags(hs[j]);
    }
  }

  /**
   The mask is not reset between packets of one interrupt: a delivered packet is reported
   with its own checksum flags if and only if every packet delivered before it in the same
   interrupt had no flag it lacks.
   */
  lemma ChecksumExactIff(ms: seq<Mbuf>, hs: seq<Header>, maxLength: U16, i: nat)
    requires |ms| == |hs| && i < |hs| && !Rejected(hs[i], maxLength)
    ensures BatchUpcalls(ms, hs, {}, maxLength)[i].valid == OwnMask(hs[i]) <==>
            forall j | 0 <= j < i && !Rejected(hs[j], maxLength) :: OwnMask(hs[j]) <= OwnMask(hs[i])
  {
    hide Rejected, OwnMask, BatchMask;
    var mask := BatchUpcalls(ms, hs, {}, maxLength)[i].valid;
    forall x
      ensures x in mask <==> exists j | 0 <= j <= i :: !Rejected(hs[j], maxLength) && x in OwnMask(hs[j])
    {
      DeliveredMask(ms, hs, maxLength, i, x);
    }
    if mask == OwnMask(hs[i]) {
      forall j | 0 <= j < i && !Rejected(hs[j], maxLength)
        ensures OwnMask(hs[j]) <= OwnMask(hs[i])
      {
        assert forall x | x in OwnMask(hs[j]) :: x in mask;
      }
    }
  }

  /** A TCP packet followed in one interrupt by one with no flags: the second is reported as checked. */
  lemma ChecksumLeaks(a: Mbuf, b: Mbuf)
    ensures var tcp, plain := Header(STATUS_TCP, 0, 64), Header(0, 0, 64);
            && OwnMask(plain) == {}
            && BatchUpcalls([a, b], [tcp, plain], {}, 1522)[1] == Delivered(b, 60, {Tcp})
  {
    var tcp, plain := Header(STATUS_TCP, 0, 64), Header(0, 0, 64);
    assert OwnMask(tcp) == {Tcp} && OwnMask(plain) == {};
    assert [tcp, plain][..2] == [tcp] + [plain];
    assert [tcp, plain][..2][..1] == [tcp];
    assert [tcp][..0] == [];
    assert BatchMask([tcp], {}, 1522) == {Tcp};
    assert BatchMask([tcp, plain][..2], {}, 1522) == {Tcp};
  }
}
