/**
 The transmit ring and the hardware that shares it, as a step system, and what holds over
 every run of it.

 The hardware fetches one posted descriptor at a time while its own index differs from the
 doorbell, and copies its index into the status block whenever it likes; when the index is
 at the start of a page it may publish the link slot before it instead.
 */
module TxSystem {
  import opened Machine
  import opened RingIndex
  import opened TxRing
  import opened TxStream

  /**
   `wire`, `accepted`, `reclaimed` and `published` are histories: the descriptors fetched,
   the packets whose send returned Success, how many descriptors the driver has reclaimed,
   and how many the status block reports. No visible effect depends on them.
   */
  datatype TxSys = TxSys(
    ring: TxState,
    hwCons: U16,
    rawCons: U16,
    wire: seq<TxBd>,
    accepted: seq<Packet>,
    reclaimed: nat,
    published: nat)

  datatype TxEvent = Send(packet: Packet) | Fetch | Publish(atLink: bool) | Interrupt

  ghost predicate SysShape(s: TxSys) {
    Shape(s.ring) && InCycle(s.hwCons)
  }

  function ZeroRing(): (r: TxState)
    ensures Shape(r)
  {
    TxState(seq(PAGE_BDS, _ => ZERO_BD), 0, 0, 0, 0, seq(USABLE_BDS, _ => None), 0, 0, [], [])
  }

  /** The controller object as constructed, right after ring initialisation. */
  function Init(physAddr: U64): (s: TxSys)
    ensures SysShape(s)
  {
    TxSys(InitRing(ZeroRing(), physAddr), 0, 0, [], [], 0, 0)
  }

  function Step(s: TxSys, e: TxEvent): (s': TxSys)
    requires SysShape(s)
    ensures SysShape(s')
  {
    match e
    case Send(p) =>
      var (r, status) := SendPacket(s.ring, p);
      s.(ring := r, accepted := if status == Success then s.accepted + [p] else s.accepted)
    case Fetch =>
      if s.hwCons == s.ring.hostBidx then s
      else
        NextStaysInCycle(s.hwCons);
        s.(wire := s.wire + [s.ring.chain[BdIndex(s.hwCons)]], hwCons := NextBd(s.hwCons))
    case Publish(atLink) =>
      s.(rawCons := RawIndex(s.hwCons, atLink), published := |s.wire|)
    case Interrupt =>
      NormalizeIntoCycle(s.rawCons);
      s.(ring := Reclaim(s.ring, Normalize(s.rawCons)), reclaimed := s.published)
  }

  function Run(s: TxSys, trace: seq<TxEvent>): (s': TxSys)
    requires SysShape(s)
    ensures SysShape(s')
  {
    if trace == [] then s else Step(Run(s, trace[..|trace| - 1]), trace[|trace| - 1])
  }

  // ----- Observations of the concrete ring -----

  /** The packets parked in the slots from index `x` up to index `y`. */
  function WalkPackets(packets: seq<Option<Packet>>, x: U16, y: U16): seq<Packet>
    requires |packets| == USABLE_BDS && InCycle(x) && InCycle(y)
    decreases Dist(x, y)
  {
    if x == y then []
    else
      DistDecreases(x, y);
      (if packets[BdIndex(x)].Some? then [packets[BdIndex(x)].value] else []) + WalkPackets(packets, NextBd(x), y)
  }

  /** The descriptors in the slots from index `x` up to index `y`. */
  function WalkBds(chain: seq<TxBd>, x: U16, y: U16): seq<TxBd>
    requires |chain| == PAGE_BDS && InCycle(x) && InCycle(y)
    decreases Dist(x, y)
  {
    if x == y then []
    else
      DistDecreases(x, y);
      [chain[BdIndex(x)]] + WalkBds(chain, NextBd(x), y)
  }

  function InFlight(r: TxState): seq<Packet>
    requires Shape(r)
  {
    WalkPackets(r.packets, r.cons, r.prod)
  }

  // ----- The invariant -----

  /** The ring holds exactly the part of the stream `es` from position `c` on. */
  ghost predicate Window(r: TxState, es: seq<Entry>, c: nat) {
    && Shape(r)
    && c <= |es| < c + USABLE_BDS - 1
    && r.prod == IndexAfter(|es|)
    && r.cons == IndexAfter(c)
    && r.free == USABLE_BDS - 1 - (|es| - c)
    && r.bufferSize == Wrap32(TotalLength(es))
    && r.freed == Owners(es[..c])
    && (forall k | c <= k < |es| :: r.chain[Slot(k)] == es[k].bd && r.packets[Slot(k)] == es[k].owner)
    && (forall k | |es| <= k < c + USABLE_BDS :: r.packets[Slot(k)] == None)
  }

  ghost predicate Inv(s: TxSys, physAddr: U64) {
    var es := Stream(s.accepted);
    && SysShape(s)
    && (forall p | p in s.accepted :: p.segments != [])
    && Window(s.ring, es, s.reclaimed)
    && s.reclaimed <= s.published <= |s.wire| <= |es|
    && s.hwCons == IndexAfter(|s.wire|)
    && Normalize(s.rawCons) == IndexAfter(s.published)
    && s.ring.hostBidx == s.ring.prod
    && s.ring.hostBseq == s.ring.bufferSize
    && s.wire == Bds(es[..|s.wire|])
    && s.ring.chain[USABLE_BDS].addrHi == AddrHi(physAddr)
    && s.ring.chain[USABLE_BDS].addrLo == AddrLo(physAddr)
  }

  // ----- Single operations on the window -----

  /** Filling from stream position `n` writes the next slots and no others. */
  lemma {:induction false} FillWrites(r: TxState, bds: seq<TxBd>, n: nat)
    requires Shape(r) && r.prod == IndexAfter(n) && |bds| < USABLE_BDS
    ensures var f := FillBds(r, bds);
            && (forall k | n <= k < n + |bds| :: f.chain[Slot(k)] == bds[k - n])
            && (forall k: nat | n + |bds| - USABLE_BDS <= k < n :: f.chain[Slot(k)] == r.chain[Slot(k)])
            && f.chain[USABLE_BDS] == r.chain[USABLE_BDS]
  {
    hide Slot, BdIndex, IndexAfter, NextBd, InCycle, Wrap32;
    if bds != [] {
      var m := |bds| - 1;
      FillWrites(r, bds[..m], n);
      AdvanceOfIndexAfter(n, m);
      IndexAfterFacts(n + m);
      forall k: nat | n + |bds| - USABLE_BDS <= k < n + m
        ensures Slot(k) != Slot(n + m)
      {
        SlotsDistinct(k, n + m);
      }
    }
  }

  lemma {:induction false} FillTotal(r: TxState, p: Packet, i: nat)
    requires Shape(r) && i <= |p.segments|
    ensures FillBds(r, Encode(p)[..i]).bufferSize == Wrap32(r.bufferSize + TotalLength(EntriesOf(p)[..i]))
  {
    hide FillBds, Wrap32, TotalLength, Encode, EntriesOf;
    if i == 0 {
      FillNothing(r);
      assert Encode(p)[..0] == [] && EntriesOf(p)[..0] == [];
    } else {
      FillTotal(r, p, i - 1);
      FillTotalStep(r, p, i - 1);
    }
  }

  lemma FillNothing(r: TxState)
    requires Shape(r)
    ensures FillBds(r, []) == r && TotalLength([]) == 0 && Wrap32(r.bufferSize) == r.bufferSize
  {
  }

  lemma FillTotalStep(r: TxState, p: Packet, i: nat)
    requires Shape(r) && i < |p.segments|
    requires FillBds(r, Encode(p)[..i]).bufferSize == Wrap32(r.bufferSize + TotalLength(EntriesOf(p)[..i]))
    ensures FillBds(r, Encode(p)[..i + 1]).bufferSize == Wrap32(r.bufferSize + TotalLength(EntriesOf(p)[..i + 1]))
  {
    hide FillBds, Wrap32, NextBd, BdIndex, InCycle, TotalLength, Encode, EntriesOf, AddrHi, AddrLo, BaseFlags;
    FillNext(r, p, i);
    EntriesSnoc(p, i);
    TotalLengthSnoc(EntriesOf(p)[..i], EntryOf(p, i));
    Wrap32Absorbs(r.bufferSize + TotalLength(EntriesOf(p)[..i]), BdOf(p, i).length);
  }

  /** Where accepting a packet leaves descriptors and packet pointers. */
  lemma AcceptWrites(r: TxState, n: nat, p: Packet)
    requires Shape(r) && r.prod == IndexAfter(n) && 0 < |p.segments| < r.free <= USABLE_BDS - 1
    ensures var r' := Accept(r, p); var m := |p.segments|;
            && (forall k | n <= k < n + m :: r'.chain[Slot(k)] == Encode(p)[k - n])
            && (forall k: nat | n + m - USABLE_BDS <= k < n :: r'.chain[Slot(k)] == r.chain[Slot(k)])
            && r'.chain[USABLE_BDS] == r.chain[USABLE_BDS]
            && r'.packets == r.packets[Slot(n + m - 1) := Some(p)]
            && r'.prod == IndexAfter(n + m)
  {
    var m := |p.segments|;
    FillWrites(r, Encode(p), n);
    AdvanceOfIndexAfter(n, m - 1);
    AdvanceOfIndexAfter(n, m);
    IndexAfterFacts(n + m - 1);
  }

  /** Accepting a packet appends its entries to the stream. */
  lemma AcceptExtends(r: TxState, es: seq<Entry>, c: nat, p: Packet)
    requires Window(r, es, c) && 0 < |p.segments| < r.free
    ensures Window(Accept(r, p), es + EntriesOf(p), c)
    ensures Accept(r, p).chain[USABLE_BDS] == r.chain[USABLE_BDS]
  {
    hide Slot, NextBd, BdIndex, IndexAfter, FillBds, TotalLength;
    var n, m := |es|, |p.segments|;
    var r', es' := Accept(r, p), es + EntriesOf(p);
    var last := n + m - 1;
    AcceptWrites(r, n, p);
    AcceptTotal(r, es, p);
    assert es'[..c] == es[..c];
    forall k | c <= k < c + USABLE_BDS && k != last
      ensures Slot(k) != Slot(last)
    {
      if k < last { SlotsDistinct(k, last); } else { SlotsDistinct(last, k); }
    }
    forall k | c <= k < |es'|
      ensures r'.chain[Slot(k)] == es'[k].bd && r'.packets[Slot(k)] == es'[k].owner
    {
      assert es'[k] == if k < n then es[k] else EntryOf(p, k - n);
    }
  }

  lemma AcceptTotal(r: TxState, es: seq<Entry>, p: Packet)
    requires Shape(r) && r.bufferSize == Wrap32(TotalLength(es)) && 0 < |p.segments| < r.free
    ensures Accept(r, p).bufferSize == Wrap32(TotalLength(es + EntriesOf(p)))
  {
    hide FillBds, TotalLength, Wrap32, Encode, EntriesOf, NextBd, BdIndex, InCycle;
    var m := |p.segments|;
    FillTotal(r, p, m);
    assert Encode(p)[..m] == Encode(p) && EntriesOf(p)[..m] == EntriesOf(p);
    TotalLengthConcat(es, EntriesOf(p));
    Wrap32Absorbs(TotalLength(es), TotalLength(EntriesOf(p)));
  }

  lemma ReclaimOneAdvances(r: TxState, es: seq<Entry>, c: nat)
    requires Window(r, es, c) && c < |es|
    ensures Window(ReclaimOne(r), es, c + 1)
  {
    hide Slot, IndexAfter, TotalLength, Pos;
    IndexAfterFacts(c);
    assert es[..c + 1] == es[..c] + [es[c]];
    OwnersSnoc(es[..c], es[c]);
    SlotPeriod(c);
    forall k | c < k < c + USABLE_BDS
      ensures Slot(k) != Slot(c)
    {
      SlotsDistinct(c, k);
    }
  }

  /** Stepping to the index of stream position `q` reclaims exactly up to `q`. */
  lemma {:induction false} ReclaimAdvances(r: TxState, es: seq<Entry>, c: nat, q: nat)
    requires Window(r, es, c) && c <= q <= |es|
    ensures InCycle(IndexAfter(q)) && Window(Reclaim(r, IndexAfter(q)), es, q)
    decreases q - c
  {
    IndexAfterFacts(q);
    DistOfCounters(c, q);
    if c < q {
      ReclaimOneAdvances(r, es, c);
      ReclaimAdvances(ReclaimOne(r), es, c + 1, q);
    }
  }

  // ----- Every run -----

  lemma InitInv(physAddr: U64)
    ensures Inv(Init(physAddr), physAddr)
  {
  }

  lemma SendInv(s: TxSys, physAddr: U64, p: Packet)
    requires Inv(s, physAddr)
    ensures Inv(Step(s, Send(p)), physAddr)
  {
    var es := Stream(s.accepted);
    if p.segments != [] && |p.segments| < s.ring.free {
      AcceptExtends(s.ring, es, s.reclaimed, p);
      StreamSnoc(s.accepted, p);
      assert (es + EntriesOf(p))[..|s.wire|] == es[..|s.wire|];
    }
  }

  lemma FetchInv(s: TxSys, physAddr: U64)
    requires Inv(s, physAddr)
    ensures Inv(Step(s, Fetch), physAddr)
    ensures s.hwCons != s.ring.hostBidx <==> |s.wire| < |Stream(s.accepted)|
  {
    hide Slot, NextBd, BdIndex, IndexAfter, Stream, Owners, TotalLength, Pos;
    var es, h := Stream(s.accepted), |s.wire|;
    DistOfCounters(h, |es|);
    IndexAfterFacts(h);
    if h < |es| {
      assert Bds(es[..h + 1]) == Bds(es[..h]) + [es[h].bd];
    }
  }

  lemma StepInv(s: TxSys, physAddr: U64, e: TxEvent)
    requires Inv(s, physAddr)
    ensures Inv(Step(s, e), physAddr)
  {
    hide Slot, IndexAfter, Stream, Owners, TotalLength, Reclaim;
    match e
    case Send(p) => SendInv(s, physAddr, p);
    case Fetch => FetchInv(s, physAddr);
    case Publish(atLink) => PublishedIndex(s.hwCons, atLink);
    case Interrupt => ReclaimAdvances(s.ring, Stream(s.accepted), s.reclaimed, s.published);
  }

  /** The invariant holds after every interleaving of sends, fetches, publications and interrupts. */
  lemma {:induction false} RunInv(physAddr: U64, trace: seq<TxEvent>)
    ensures Inv(Run(Init(physAddr), trace), physAddr)
  {
    if trace == [] {
      InitInv(physAddr);
    } else {
      RunInv(physAddr, trace[..|trace| - 1]);
      StepInv(Run(Init(physAddr), trace[..|trace| - 1]), physAddr, trace[|trace| - 1]);
    }
  }
}
