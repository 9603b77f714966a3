/**
 The driver side of the receive ring: initialisation, refilling one descriptor and handing
 received packets to the operating system. The answers of the packet allocator and of the
 memory cursor, and the headers the hardware wrote, are parameters.
 */
module RxRing {
  import opened Machine
  import opened RingIndex

  const CRC_SIZE := 4
  const FLAG_END := 0x4
  const FLAG_START := 0x8
  const STATUS_IP: bv16 := 0x2000
  const STATUS_TCP: bv16 := 0x4000
  const STATUS_UDP: bv16 := 0x8000

  /** A receive buffer descriptor. */
  datatype RxBd = RxBd(addrHi: U32, addrLo: U32, length: U32, flags: U32)

  const ZERO_BD := RxBd(0, 0, 0, 0)

  /** A packet buffer and the one physical segment behind it. */
  datatype Mbuf = Mbuf(id: nat, segment: Segment)

  /** The header the hardware puts in front of a received packet. */
  datatype Header = Header(status: bv16, errors: U16, packetLength: U16)

  /** What one refill is told: the allocated packet, if any, and whether it maps to one segment. */
  datatype Refill = Refill(alloc: Option<Mbuf>, mapped: bool)

  datatype Checksum = Ip | Tcp | Udp

  /** What becomes of a packet taken from the ring. */
  datatype Upcall = Freed(mbuf: Mbuf) | Delivered(mbuf: Mbuf, length: U16, valid: set<Checksum>)

  /** The environment of one interrupt: size limit, buffer memory, and refill answers in order. */
  datatype RxEnv = RxEnv(maxLength: U16, mem: map<U64, Header>, answers: seq<Refill>)

  /** `faulted` records that the handler dereferenced an empty packet slot. */
  datatype RxState = RxState(
    chain: seq<RxBd>,
    prod: U16,
    cons: U16,
    bufferSize: U32,
    packets: seq<Option<Mbuf>>,
    hostBidx: U16,
    hostBseq: U32,
    upcalls: seq<Upcall>,
    faulted: bool)

  ghost predicate Shape(r: RxState) {
    |r.chain| == PAGE_BDS && |r.packets| == USABLE_BDS && InCycle(r.prod) && InCycle(r.cons)
  }

  /** The k-th answer; a list that runs out stands for an exhausted allocator. */
  function AnswerAt(answers: seq<Refill>, k: nat): Refill {
    if k < |answers| then answers[k] else Refill(None, false)
  }

  predicate Succeeds(a: Refill) {
    a.alloc.Some? && a.mapped
  }

  function BdFor(m: Mbuf): RxBd {
    RxBd(AddrHi(m.segment.location), AddrLo(m.segment.location), m.segment.length, FLAG_START + FLAG_END)
  }

  function HeaderOf(mem: map<U64, Header>, m: Mbuf): Header {
    if m.segment.location in mem then mem[m.segment.location] else Header(0, 0, 0)
  }

  /** The length passed on, in the 16-bit variable that holds it. */
  function PayloadLength(h: Header): U16 {
    Wrap16(h.packetLength - CRC_SIZE)
  }

  predicate Rejected(h: Header, maxLength: U16) {
    PayloadLength(h) > maxLength || h.errors != 0
  }

  /** The checksums the hardware reports for this packet. */
  function OwnMask(h: Header): set<Checksum> {
    (if h.status & STATUS_IP != 0 then {Ip} else {})
    + (if h.status & STATUS_TCP != 0 then {Tcp} else {})
    + (if h.status & STATUS_UDP != 0 then {Udp} else {})
  }

  /** Preparing one descriptor; the result says whether the producer moved. */
  function InitDescriptor(r: RxState, i: nat, force: bool, a: Refill): (res: (RxState, bool))
    requires Shape(r) && i < USABLE_BDS
    ensures Shape(res.0) && res.0.chain[USABLE_BDS] == r.chain[USABLE_BDS]
  {
    NextStaysInCycle(r.prod);
    var r1 := if r.packets[i].None? || force then r.(packets := r.packets[i := a.alloc]) else r;
    if r1.packets[i].None? || !a.mapped then (r1, false)
    else
      var bd := BdFor(r1.packets[i].value);
      (r1.(chain := r1.chain[i := bd], bufferSize := Wrap32(r1.bufferSize + bd.length), prod := NextBd(r1.prod)), true)
  }

  /** The first `n` slots prepared in order, stopping at the first failure. */
  function InitSlots(r: RxState, n: nat, answers: seq<Refill>): (res: (RxState, bool))
    requires Shape(r) && n <= USABLE_BDS
    ensures Shape(res.0) && res.0.chain[USABLE_BDS] == r.chain[USABLE_BDS]
  {
    if n == 0 then (r, true)
    else
      var (r1, ok) := InitSlots(r, n - 1, answers);
      if ok then InitDescriptor(r1, n - 1, false, AnswerAt(answers, n - 1)) else (r1, false)
  }

  /** The fields reset before any slot is prepared. */
  function ResetRing(r: RxState, physAddr: U64): (r': RxState)
    requires Shape(r)
    ensures Shape(r')
  {
    r.(prod := 0, cons := 0, bufferSize := 0,
       chain := r.chain[USABLE_BDS := r.chain[USABLE_BDS].(addrHi := AddrHi(physAddr), addrLo := AddrLo(physAddr))])
  }

  function RingDoorbell(r: RxState): RxState {
    r.(hostBidx := r.prod, hostBseq := r.bufferSize)
  }

  function InitRing(r: RxState, physAddr: U64, answers: seq<Refill>): (res: (RxState, bool))
    requires Shape(r)
    ensures Shape(res.0)
  {
    var (r1, ok) := InitSlots(ResetRing(r, physAddr), USABLE_BDS, answers);
    if ok then (RingDoorbell(r1), true) else (r1, false)
  }

  /** One turn of the receive loop, with the checksum mask it carries along. */
  function TakeOne(r: RxState, mask: set<Checksum>, env: RxEnv, a: Refill): (res: (RxState, set<Checksum>))
    requires Shape(r)
    ensures Shape(res.0) && res.0.cons == NextBd(r.cons)
    ensures res.0.chain[USABLE_BDS] == r.chain[USABLE_BDS] && r.upcalls <= res.0.upcalls
  {
    NextStaysInCycle(r.cons);
    var i := BdIndex(r.cons);
    var r1 := r.(cons := NextBd(r.cons));
    if r.packets[i].None? then (r1.(faulted := true), mask)
    else
      var m := r.packets[i].value;
      var h := HeaderOf(env.mem, m);
      if Rejected(h, env.maxLength) then
        (InitDescriptor(r1.(upcalls := r1.upcalls + [Freed(m)]), i, true, a).0, mask)
      else
        var mask' := mask + OwnMask(h);
        (InitDescriptor(r1.(upcalls := r1.upcalls + [Delivered(m, PayloadLength(h), mask')]), i, true, a).0, mask')
  }

  /** The receive loop from its k-th turn on. */
  function TakeAll(r: RxState, target: U16, mask: set<Checksum>, env: RxEnv, k: nat): (r': RxState)
    requires Shape(r) && InCycle(target)
    ensures Shape(r') && r'.chain[USABLE_BDS] == r.chain[USABLE_BDS] && r.upcalls <= r'.upcalls
    decreases Dist(r.cons, target)
  {
    if r.faulted || r.cons == target then r
    else
      DistDecreases(r.cons, target);
      var (r1, mask1) := TakeOne(r, mask, env, AnswerAt(env.answers, k));
      TakeAll(r1, target, mask1, env, k + 1)
  }

  function HandleInterrupt(r: RxState, target: U16, env: RxEnv): (r': RxState)
    requires Shape(r) && InCycle(target)
    ensures Shape(r') && r'.chain[USABLE_BDS] == r.chain[USABLE_BDS] && r.upcalls <= r'.upcalls
  {
    var r1 := TakeAll(r, target, {}, env, 0);
    if r1.faulted then r1 else RingDoorbell(r1)
  }

  /** The receive loop leaves the consumer at its target unless it meets an empty slot. */
  lemma {:induction false} TakeAllStops(r: RxState, target: U16, mask: set<Checksum>, env: RxEnv, k: nat)
    requires Shape(r) && InCycle(target)
    ensures var r' := TakeAll(r, target, mask, env, k); r'.faulted || r'.cons == target
    decreases Dist(r.cons, target)
  {
    if !r.faulted && r.cons != target {
      DistDecreases(r.cons, target);
      hide TakeOne, Dist;
      var (r1, mask1) := TakeOne(r, mask, env, AnswerAt(env.answers, k));
      TakeAllStops(r1, target, mask1, env, k + 1);
    }
  }

  lemma {:induction false} FailureSticks(r: RxState, n: nat, answers: seq<Refill>)
    requires Shape(r) && n <= USABLE_BDS && !InitSlots(r, n, answers).1
    ensures InitSlots(r, USABLE_BDS, answers) == InitSlots(r, n, answers)
    decreases USABLE_BDS - n
  {
    if n < USABLE_BDS {
      assert InitSlots(r, n + 1, answers) == InitSlots(r, n, answers);
      FailureSticks(r, n + 1, answers);
    }
  }

  /** The receive half of the controller object. */
  class Receiver {
    const rxChain: array<RxBd>
    const rxPackets: array<Option<Mbuf>>
    var rxProd: U16
    var rxCons: U16
    var rxProdBufferSize: U32

    // Mailbox registers written by the doorbells.
    var hostBidx: U16
    var hostBseq: U32

    // Packets passed to freePacket and inputPacket.
    var upcalls: seq<Upcall>
    var faulted: bool

    ghost predicate Valid()
      reads this
    {
      rxChain.Length == PAGE_BDS && rxPackets.Length == USABLE_BDS && InCycle(rxProd) && InCycle(rxCons)
    }

    ghost function State(): (r: RxState)
      reads this, rxChain, rxPackets
    {
      RxState(rxChain[..], rxProd, rxCons, rxProdBufferSize, rxPackets[..], hostBidx, hostBseq, upcalls, faulted)
    }

    /** The zero-filled object, with the packet table cleared. */
    constructor ()
      ensures Valid() && fresh(rxChain) && fresh(rxPackets)
      ensures State() == RxState(seq(1024, _ => RxBd(0, 0, 0, 0)), 0, 0, 0, seq(1023, _ => None), 0, 0, [], false)
    {
      rxChain := new RxBd[PAGE_BDS](_ => ZERO_BD);
      rxPackets := new Option<Mbuf>[USABLE_BDS](_ => None);
      rxProd, rxCons, rxProdBufferSize := 0, 0, 0;
      hostBidx, hostBseq, upcalls, faulted := 0, 0, [], false;
      new;
      assert rxChain[..] == seq(PAGE_BDS, _ => ZERO_BD);
      assert rxPackets[..] == seq(USABLE_BDS, _ => None);
    }

    method InitRxDescriptor(index: nat, forceAllocate: bool, a: Refill) returns (ok: bool)
      requires Valid() && index < USABLE_BDS
      modifies this, rxChain, rxPackets
      ensures Valid() && (State(), ok) == InitDescriptor(old(State()), index, forceAllocate, a)
    {
      NextStaysInCycle(rxProd);
      if rxPackets[index] == None || forceAllocate {
        rxPackets[index] := a.alloc;
        if rxPackets[index] == None {
          return false;
        }
      }
      if !a.mapped {
        return false;
      }
      var segment := rxPackets[index].value.segment;
      rxChain[index] := RxBd(AddrHi(segment.location), AddrLo(segment.location), segment.length, FLAG_START + FLAG_END);
      rxProdBufferSize := Wrap32(rxProdBufferSize + rxChain[index].length);
      rxProd := NextBd(rxProd);
      return true;
    }

    method InitRxRing(physAddr: U64, answers: seq<Refill>) returns (ok: bool)
      requires Valid()
      modifies this, rxChain, rxPackets
      ensures Valid() && (State(), ok) == InitRing(old(State()), physAddr, answers)
    {
      hide NextBd, BdIndex, InitDescriptor, AddrHi, AddrLo;
      ghost var r0 := State();
      rxProd := 0;
      rxCons := 0;
      rxProdBufferSize := 0;
      rxChain[USABLE_BDS] := rxChain[USABLE_BDS].(addrHi := AddrHi(physAddr), addrLo := AddrLo(physAddr));
      ghost var r := State();
      assert r == ResetRing(r0, physAddr);

      for i := 0 to USABLE_BDS
        invariant Valid()
        invariant InitSlots(r, i, answers) == (State(), true)
      {
        var slotOk := InitRxDescriptor(i, false, if i < |answers| then answers[i] else Refill(None, false));
        if !slotOk {
          FailureSticks(r, i + 1, answers);
          return false;
        }
      }
      hostBidx := rxProd;
      hostBseq := rxProdBufferSize;
      return true;
    }

    method HandleRxInterrupt(rxConsNew: U16, env: RxEnv)
      requires Valid() && InCycle(rxConsNew) && !faulted
      modifies this, rxChain, rxPackets
      ensures Valid() && State() == HandleInterrupt(old(State()), rxConsNew, env)
    {
      var checksumValidMask: set<Checksum> := {};
      var k := 0;
      while rxCons != rxConsNew
        invariant Valid() && !faulted
        invariant TakeAll(State(), rxConsNew, checksumValidMask, env, k) == TakeAll(old(State()), rxConsNew, {}, env, 0)
        decreases Dist(rxCons, rxConsNew)
      {
        DistDecreases(rxCons, rxConsNew);
        checksumValidMask := TakePacket(checksumValidMask, env, if k < |env.answers| then env.answers[k] else Refill(None, false));
        if faulted {
          return;
        }
        k := k + 1;
      }
      hostBidx := rxProd;
      hostBseq := rxProdBufferSize;
    }

    /** The body of the receive loop. */
    method TakePacket(mask: set<Checksum>, env: RxEnv, a: Refill) returns (checksumValidMask: set<Checksum>)
      requires Valid()
      modifies this, rxChain, rxPackets
      ensures Valid() && (State(), checksumValidMask) == TakeOne(old(State()), mask, env, a)
    {
      checksumValidMask := mask;
      NextStaysInCycle(rxCons);
      var rxIndex := BdIndex(rxCons);
      rxCons := NextBd(rxCons);

      if rxPackets[rxIndex] == None {
        faulted := true;
        return;
      }
      var inputPacket := rxPackets[rxIndex].value;
      var l2Header := HeaderOf(env.mem, inputPacket);
      var packetLength := Wrap16(l2Header.packetLength - CRC_SIZE);
      if packetLength > env.maxLength || l2Header.errors != 0 {
        upcalls := upcalls + [Freed(inputPacket)];
        var _ := InitRxDescriptor(rxIndex, true, a);
        return;
      }

      if l2Header.status & STATUS_IP != 0 {
        checksumValidMask := checksumValidMask + {Ip};
      }
      if l2Header.status & STATUS_TCP != 0 {
        checksumValidMask := checksumValidMask + {Tcp};
      }
      if l2Header.status & STATUS_UDP != 0 {
        checksumValidMask := checksumValidMask + {Udp};
      }
      assert checksumValidMask == mask + OwnMask(l2Header);
      upcalls := upcalls + [Delivered(inputPacket, packetLength, checksumValidMask)];
      var _ := InitRxDescriptor(rxIndex, true, a);
    }
  }
}
