/**
 The driver side of the transmit ring: initialisation, queueing a packet and reclaiming
 completed descriptors. `TxState` is the abstract value of the ring; the functions over it
 specify the methods of the class `Transmitter`, which update the fields in place.
 */
module TxRing {
  import opened Machine
  import opened RingIndex

  const MAX_SEGMENTS := 512

  const FLAG_TCP_UDP_CKSUM: bv16 := 0x0002
  const FLAG_IP_CKSUM: bv16 := 0x0004
  const FLAG_VLAN_TAG: bv16 := 0x0008
  const FLAG_END: bv16 := 0x0040
  const FLAG_START: bv16 := 0x0080

  /** A transmit buffer descriptor. */
  datatype TxBd = TxBd(addrHi: U32, addrLo: U32, length: U32, flags: bv16, vlanTag: U16)

  const ZERO_BD := TxBd(0, 0, 0, 0, 0)

  /** What the memory cursor can return for one packet; empty when it fails. */
  type SegmentList = s: seq<Segment> | |s| <= MAX_SEGMENTS

  /** An outgoing packet with its segments and its offload demands. */
  datatype Packet = Packet(id: nat, segments: SegmentList, ipCksum: bool, tcpUdpCksum: bool, vlan: Option<U16>)

  datatype SendStatus = Success | Dropped | Stall

  /** The ring fields, the two host mailbox registers, and the logs of packets given back. */
  datatype TxState = TxState(
    chain: seq<TxBd>,
    prod: U16,
    cons: U16,
    bufferSize: U32,
    free: U16,
    packets: seq<Option<Packet>>,
    hostBidx: U16,
    hostBseq: U32,
    freed: seq<Packet>,
    dropped: seq<Packet>)

  ghost predicate Shape(r: TxState) {
    |r.chain| == PAGE_BDS && |r.packets| == USABLE_BDS && InCycle(r.prod) && InCycle(r.cons)
  }

  /** The flags every descriptor of a packet carries. */
  function BaseFlags(p: Packet): bv16 {
    (if p.ipCksum then FLAG_IP_CKSUM else 0)
    | (if p.tcpUdpCksum then FLAG_TCP_UDP_CKSUM else 0)
    | (if p.vlan.Some? then FLAG_VLAN_TAG else 0)
    | FLAG_START
  }

  function VlanTag(p: Packet): U16 {
    if p.vlan.Some? then p.vlan.value else 0
  }

  /** The descriptor of segment `i`; only the last one carries END. */
  function BdOf(p: Packet, i: nat): TxBd
    requires i < |p.segments|
  {
    TxBd(AddrHi(p.segments[i].location), AddrLo(p.segments[i].location), p.segments[i].length,
         if i == |p.segments| - 1 then BaseFlags(p) | FLAG_END else BaseFlags(p),
         VlanTag(p))
  }

  function Encode(p: Packet): (bds: seq<TxBd>)
    ensures |bds| == |p.segments|
  {
    seq(|p.segments|, i requires 0 <= i < |p.segments| => BdOf(p, i))
  }

  /** Ring initialisation; the packet table and the mailbox registers are left alone. */
  function InitRing(r: TxState, physAddr: U64): (r': TxState)
    requires |r.chain| == PAGE_BDS
  {
    r.(prod := 0, cons := 0, bufferSize := 0, free := USABLE_BDS - 1,
       chain := r.chain[USABLE_BDS := r.chain[USABLE_BDS].(addrHi := AddrHi(physAddr), addrLo := AddrLo(physAddr))])
  }

  /** One descriptor written at the producer. */
  function WriteBd(r: TxState, bd: TxBd): (r': TxState)
    requires Shape(r)
    ensures Shape(r')
  {
    NextStaysInCycle(r.prod);
    r.(chain := r.chain[BdIndex(r.prod) := bd],
       bufferSize := Wrap32(r.bufferSize + bd.length),
       prod := NextBd(r.prod))
  }

  function FillBds(r: TxState, bds: seq<TxBd>): (r': TxState)
    requires Shape(r)
    ensures Shape(r')
    ensures r' == r.(chain := r'.chain, bufferSize := r'.bufferSize, prod := r'.prod)
    ensures r'.prod == Advance(r.prod, |bds|)
  {
    if bds == [] then r else WriteBd(FillBds(r, bds[..|bds| - 1]), bds[|bds| - 1])
  }

  lemma FillNext(r: TxState, p: Packet, i: nat)
    requires Shape(r) && i < |p.segments|
    ensures FillBds(r, Encode(p)[..i + 1]) == WriteBd(FillBds(r, Encode(p)[..i]), BdOf(p, i))
  {
    assert Encode(p)[..i + 1][..i] == Encode(p)[..i];
  }

  lemma FillNone(r: TxState, p: Packet)
    requires Shape(r)
    ensures FillBds(r, Encode(p)[..0]) == r
  {
  }

  /** Stepping from the cycle never names the link slot. */
  lemma LastSlot(x: U16, n: nat)
    requires InCycle(x)
    ensures BdIndex(Advance(x, n)) < USABLE_BDS
  {
    PosOfAdvance(x, n);
  }

  /** A packet that fits: descriptors, packet pointer, free count, doorbells. */
  function Accept(r: TxState, p: Packet): (r': TxState)
    requires Shape(r) && 0 < |p.segments| < r.free
    ensures Shape(r')
  {
    var last := Advance(r.prod, |p.segments| - 1);
    var f := FillBds(r, Encode(p));
    PosOfAdvance(r.prod, |p.segments| - 1);
    f.(packets := f.packets[BdIndex(last) := Some(p)],
       free := f.free - |p.segments|,
       hostBidx := f.prod,
       hostBseq := f.bufferSize)
  }

  function SendPacket(r: TxState, p: Packet): (res: (TxState, SendStatus))
    requires Shape(r)
    ensures Shape(res.0)
  {
    if r.free == 0 then (r, Stall)
    else if p.segments == [] then (r.(dropped := r.dropped + [p]), Dropped)
    else if |p.segments| < r.free then (Accept(r, p), Success)
    else (r, Stall)
  }

  /** One turn of the completion loop. */
  function ReclaimOne(r: TxState): (r': TxState)
    requires Shape(r)
    ensures Shape(r')
  {
    NextStaysInCycle(r.cons);
    var i := BdIndex(r.cons);
    var r1 := if r.packets[i].Some?
              then r.(freed := r.freed + [r.packets[i].value], packets := r.packets[i := None])
              else r;
    r1.(free := Wrap16(r.free + 1), cons := NextBd(r.cons))
  }

  /** The completion loop: step to the target with `!=` as the guard. */
  function Reclaim(r: TxState, target: U16): (r': TxState)
    requires Shape(r) && InCycle(target)
    ensures Shape(r')
    ensures r' == r.(cons := target, free := r'.free, packets := r'.packets, freed := r'.freed)
    decreases Dist(r.cons, target)
  {
    if r.cons == target then r
    else
      DistDecreases(r.cons, target);
      Reclaim(ReclaimOne(r), target)
  }

  /** The transmit half of the controller object. */
  class Transmitter {
    const txChain: array<TxBd>
    const txPackets: array<Option<Packet>>
    var txProd: U16
    var txCons: U16
    var txProdBufferSize: U32
    var txFreeDescriptors: U16

    // Mailbox registers written by the doorbells.
    var hostBidx: U16
    var hostBseq: U32

    // Packets handed to freePacket, on completion and on a failed segment walk.
    var freed: seq<Packet>
    var dropped: seq<Packet>

    ghost predicate Valid()
      reads this
    {
      txChain.Length == PAGE_BDS && txPackets.Length == USABLE_BDS && InCycle(txProd) && InCycle(txCons)
    }

    ghost function State(): (r: TxState)
      reads this, txChain, txPackets
    {
      TxState(txChain[..], txProd, txCons, txProdBufferSize, txFreeDescriptors, txPackets[..],
              hostBidx, hostBseq, freed, dropped)
    }

    /** The zero-filled object, with the packet table cleared. */
    constructor ()
      ensures Valid() && fresh(txChain) && fresh(txPackets)
      ensures State() == TxState(seq(1024, _ => TxBd(0, 0, 0, 0, 0)), 0, 0, 0, 0, seq(1023, _ => None), 0, 0, [], [])
    {
      txChain := new TxBd[PAGE_BDS](_ => ZERO_BD);
      txPackets := new Option<Packet>[USABLE_BDS](_ => None);
      txProd, txCons, txProdBufferSize, txFreeDescriptors := 0, 0, 0, 0;
      hostBidx, hostBseq, freed, dropped := 0, 0, [], [];
      new;
      assert txChain[..] == seq(PAGE_BDS, _ => ZERO_BD);
      assert txPackets[..] == seq(USABLE_BDS, _ => None);
    }

    method InitTxRing(physAddr: U64)
      requires Valid()
      modifies this, txChain
      ensures Valid() && State() == InitRing(old(State()), physAddr)
      ensures txProd == 0 && txCons == 0 && txProdBufferSize == 0 && txFreeDescriptors == 1022
      ensures txChain[..1023] == old(txChain[..1023])
      ensures txChain[1023] == old(txChain[1023]).(addrHi := physAddr / 0x1_0000_0000, addrLo := physAddr % 0x1_0000_0000)
      ensures txPackets[..] == old(txPackets[..]) && hostBidx == old(hostBidx) && hostBseq == old(hostBseq)
    {
      txProd := 0;
      txCons := 0;
      txProdBufferSize := 0;
      txFreeDescriptors := USABLE_BDS - 1;
      txChain[USABLE_BDS] := txChain[USABLE_BDS].(addrHi := AddrHi(physAddr), addrLo := AddrLo(physAddr));
    }

    /** The flags and the VLAN tag that every descriptor of a packet gets. */
    method DescriptorFlags(packet: Packet) returns (bdFlags: bv16, bdVlanTag: U16)
      ensures bdFlags == BaseFlags(packet)
      ensures bdVlanTag == VlanTag(packet)
      ensures bdFlags as int == 0x80 + (if packet.vlan.Some? then 0x08 else 0) + (if packet.ipCksum then 0x04 else 0)
                                + (if packet.tcpUdpCksum then 0x02 else 0)
      ensures bdVlanTag == if packet.vlan.Some? then packet.vlan.value else 0
    {
      bdFlags, bdVlanTag := 0, 0;
      if packet.ipCksum {
        bdFlags := bdFlags | FLAG_IP_CKSUM;
      }
      if packet.tcpUdpCksum {
        bdFlags := bdFlags | FLAG_TCP_UDP_CKSUM;
      }
      if packet.vlan.Some? {
        bdVlanTag := packet.vlan.value;
        bdFlags := bdFlags | FLAG_VLAN_TAG;
      }
      bdFlags := bdFlags | FLAG_START;
    }

    /** Stores one descriptor at the producer and moves the producer. */
    method WriteDescriptor(bd: TxBd) returns (txIndex: nat)
      requires Valid()
      modifies this, txChain
      ensures Valid() && State() == WriteBd(old(State()), bd) && txIndex == BdIndex(old(txProd))
    {
      NextStaysInCycle(txProd);
      txIndex := BdIndex(txProd);
      txChain[txIndex] := bd;
      txProdBufferSize := Wrap32(txProdBufferSize + txChain[txIndex].length);
      txProd := NextBd(txProd);
    }

    /** One turn of the filling loop; the flags it returns carry END once the last segment is reached. */
    method WriteSegment(packet: Packet, i: nat, flags: bv16, bdVlanTag: U16) returns (txIndex: nat, bdFlags: bv16)
      requires Valid() && i < |packet.segments|
      requires flags == BaseFlags(packet) && bdVlanTag == VlanTag(packet)
      modifies this, txChain
      ensures Valid() && State() == WriteBd(old(State()), BdOf(packet, i)) && txIndex == BdIndex(old(txProd))
      ensures i < |packet.segments| - 1 ==> bdFlags == BaseFlags(packet)
    {
      hide BaseFlags, VlanTag, WriteBd, AddrHi, AddrLo;
      bdFlags := flags;
      if i == |packet.segments| - 1 {
        bdFlags := bdFlags | FLAG_END;
      }
      var segment := packet.segments[i];
      txIndex := WriteDescriptor(TxBd(AddrHi(segment.location), AddrLo(segment.location), segment.length, bdFlags, bdVlanTag));
    }

    /** The loop of SendTxPacket that fills descriptors; returns the slot of the last one. */
    method FillChain(packet: Packet, baseFlags: bv16, bdVlanTag: U16) returns (txIndex: nat)
      requires Valid() && packet.segments != []
      requires baseFlags == BaseFlags(packet) && bdVlanTag == VlanTag(packet)
      modifies this, txChain
      ensures Valid() && State() == FillBds(old(State()), Encode(packet))
      ensures txIndex == BdIndex(Advance(old(txProd), |packet.segments| - 1))
    {
      hide BaseFlags, VlanTag, Encode, FillBds, WriteBd, BdOf, BdIndex, NextBd, InCycle;
      ghost var r := State();
      var segmentCount := |packet.segments|;
      var bdFlags := baseFlags;
      FillNone(r, packet);
      txIndex := 0;
      for i := 0 to segmentCount
        invariant Valid()
        invariant State() == FillBds(r, Encode(packet)[..i])
        invariant i < segmentCount ==> bdFlags == BaseFlags(packet)
        invariant i > 0 ==> txIndex == BdIndex(Advance(r.prod, i - 1))
      {
        FillNext(r, packet, i);
        txIndex, bdFlags := WriteSegment(packet, i, bdFlags, bdVlanTag);
      }
      assert Encode(packet)[..segmentCount] == Encode(packet);
    }

    method SendTxPacket(packet: Packet) returns (status: SendStatus)
      requires Valid()
      modifies this, txChain, txPackets
      ensures Valid() && (State(), status) == SendPacket(old(State()), packet)
      ensures status == if old(txFreeDescriptors) == 0 then Stall
                        else if |packet.segments| == 0 then Dropped
                        else if |packet.segments| < old(txFreeDescriptors) then Success
                        else Stall
      ensures status == Stall ==> State() == old(State())
      ensures status == Dropped ==> State() == old(State()).(dropped := old(dropped) + [packet])
    {
      hide BaseFlags, VlanTag, Encode, FillBds, BdIndex, InCycle;
      if txFreeDescriptors == 0 {
        return Stall;
      }
      var segmentCount := |packet.segments|;
      if segmentCount == 0 {
        dropped := dropped + [packet];
        return Dropped;
      }
      if segmentCount < txFreeDescriptors {
        var bdFlags, bdVlanTag := DescriptorFlags(packet);
        LastSlot(txProd, segmentCount - 1);
        var txIndex := FillChain(packet, bdFlags, bdVlanTag);
        txPackets[txIndex] := Some(packet);
        txFreeDescriptors := txFreeDescriptors - segmentCount;
        hostBidx := txProd;
        hostBseq := txProdBufferSize;
        return Success;
      }
      return Stall;
    }

    method HandleTxInterrupt(txConsNew: U16)
      requires Valid() && InCycle(txConsNew)
      modifies this, txPackets
      ensures Valid() && State() == Reclaim(old(State()), txConsNew)
    {
      while txCons != txConsNew
        invariant Valid()
        invariant Reclaim(State(), txConsNew) == Reclaim(old(State()), txConsNew)
        decreases Dist(txCons, txConsNew)
      {
        DistDecreases(txCons, txConsNew);
        ghost var r := State();
        var txIndex := BdIndex(txCons);
        if txPackets[txIndex] != None {
          freed := freed + [txPackets[txIndex].value];
          txPackets[txIndex] := None;
        }
        txFreeDescriptors := Wrap16(txFreeDescriptors + 1);
        txCons := NextBd(txCons);
        assert State() == ReclaimOne(r);
      }
    }
  }
}
