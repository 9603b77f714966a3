/**
 The abstract side of the transmit ring: the stream of all descriptors ever posted, each
 with the packet that ends there, and the parser that recovers packets from descriptors.
 */
module TxStream {
  import opened Machine
  import opened TxRing

  /** A posted descriptor and, on the last descriptor of a packet, that packet. */
  datatype Entry = Entry(bd: TxBd, owner: Option<Packet>)

  function EntryOf(p: Packet, i: nat): Entry
    requires i < |p.segments|
  {
    Entry(BdOf(p, i), if i == |p.segments| - 1 then Some(p) else None)
  }

  function EntriesOf(p: Packet): (es: seq<Entry>)
    ensures |es| == |p.segments|
  {
    seq(|p.segments|, i requires 0 <= i < |p.segments| => EntryOf(p, i))
  }

  /** Everything posted for a sequence of packets. */
  function Stream(ps: seq<Packet>): seq<Entry> {
    if ps == [] then [] else Stream(ps[..|ps| - 1]) + EntriesOf(ps[|ps| - 1])
  }

  function Bds(es: seq<Entry>): (bds: seq<TxBd>)
    ensures |bds| == |es|
  {
    seq(|es|, i requires 0 <= i < |es| => es[i].bd)
  }

  /** The packets that end within a stretch of the stream, in order. */
  function Owners(es: seq<Entry>): seq<Packet> {
    if es == [] then []
    else Owners(es[..|es| - 1]) + (if es[|es| - 1].owner.Some? then [es[|es| - 1].owner.value] else [])
  }

  function TotalLength(es: seq<Entry>): nat {
    if es == [] then 0 else TotalLength(es[..|es| - 1]) + es[|es| - 1].bd.length
  }

  function SegmentLists(ps: seq<Packet>): (ss: seq<seq<Segment>>)
    ensures |ss| == |ps|
  {
    seq(|ps|, i requires 0 <= i < |ps| => ps[i].segments)
  }

  /** Whole packets read from descriptors, and the segments of one still open. */
  datatype Parsed = Parsed(frames: seq<seq<Segment>>, open: seq<Segment>)

  function SegmentOf(bd: TxBd): Segment {
    Segment(JoinAddr(bd.addrHi, bd.addrLo), bd.length)
  }

  predicate EndsPacket(bd: TxBd) {
    bd.flags & FLAG_END != 0
  }

  /** Splitting a run of descriptors at END and rejoining the address halves. */
  function Parse(bds: seq<TxBd>): Parsed {
    if bds == [] then Parsed([], [])
    else
      var p := Parse(bds[..|bds| - 1]);
      var open := p.open + [SegmentOf(bds[|bds| - 1])];
      if EndsPacket(bds[|bds| - 1]) then Parsed(p.frames + [open], []) else Parsed(p.frames, open)
  }

  /**
   One descriptor keeps its segment and the packet's offload demands; every one carries
   START and only the last carries END.
   */
  lemma BdRoundTrip(p: Packet, i: nat)
    requires i < |p.segments|
    ensures SegmentOf(BdOf(p, i)) == p.segments[i]
    ensures BdOf(p, i).flags & FLAG_START != 0
    ensures EndsPacket(BdOf(p, i)) <==> i == |p.segments| - 1
    ensures BdOf(p, i).flags & FLAG_IP_CKSUM != 0 <==> p.ipCksum
    ensures BdOf(p, i).flags & FLAG_TCP_UDP_CKSUM != 0 <==> p.tcpUdpCksum
    ensures BdOf(p, i).flags & FLAG_VLAN_TAG != 0 <==> p.vlan.Some?
    ensures p.vlan.Some? ==> BdOf(p, i).vlanTag == p.vlan.value
  {
    FlagBits(p.ipCksum, p.tcpUdpCksum, p.vlan.Some?);
    DemandBits(p.ipCksum, p.tcpUdpCksum, p.vlan.Some?);
  }

  /**
   A descriptor as the hardware reads it, field by field: the two halves of the address, the
   length, the VLAN tag, and the whole flag word, in which bit 7 opens every descriptor, bit 6
   closes the last, and bits 1 to 3 are the demands for TCP or UDP checksum, IP checksum and
   VLAN tag.
   */
  ghost predicate Describes(bd: TxBd, p: Packet, i: nat) {
    && i < |p.segments|
    && bd.addrHi == p.segments[i].location / 0x1_0000_0000
    && bd.addrLo == p.segments[i].location % 0x1_0000_0000
    && bd.length == p.segments[i].length
    && bd.vlanTag == (if p.vlan.Some? then p.vlan.value else 0)
    && bd.flags as int == 0x80
                          + (if i + 1 == |p.segments| then 0x40 else 0)
                          + (if p.vlan.Some? then 0x08 else 0)
                          + (if p.ipCksum then 0x04 else 0)
                          + (if p.tcpUdpCksum then 0x02 else 0)
  }

  lemma DescriptorWord(p: Packet, i: nat)
    requires i < |p.segments|
    ensures Describes(BdOf(p, i), p, i)
  {
  }

  /** How many segments some packets have together. */
  function SegmentCount(ps: seq<Packet>): nat {
    if ps == [] then 0 else SegmentCount(ps[..|ps| - 1]) + |ps[|ps| - 1].segments|
  }

  /** The descriptors of a stream of packets describe their segments, one for one and in order. */
  lemma {:induction false} StreamDescribes(ps: seq<Packet>, j: nat, i: nat)
    requires j < |ps| && i < |ps[j].segments|
    ensures |Stream(ps)| == SegmentCount(ps)
    ensures var k := SegmentCount(ps[..j]) + i; k < |Stream(ps)| && Describes(Stream(ps)[k].bd, ps[j], i)
  {
    hide Describes;
    var init, last := ps[..|ps| - 1], ps[|ps| - 1];
    StreamLength(init);
    if j == |init| {
      DescriptorWord(last, i);
    } else {
      StreamDescribes(init, j, i);
      assert init[..j] == ps[..j];
    }
  }

  lemma {:induction false} StreamLength(ps: seq<Packet>)
    ensures |Stream(ps)| == SegmentCount(ps)
  {
    if ps != [] {
      StreamLength(ps[..|ps| - 1]);
    }
  }

  lemma DemandBits(ip: bool, tcp: bool, vlan: bool)
    ensures var base := (if ip then FLAG_IP_CKSUM else 0) | (if tcp then FLAG_TCP_UDP_CKSUM else 0)
                        | (if vlan then FLAG_VLAN_TAG else 0) | FLAG_START;
            && (base & FLAG_IP_CKSUM != 0 <==> ip) && ((base | FLAG_END) & FLAG_IP_CKSUM != 0 <==> ip)
            && (base & FLAG_TCP_UDP_CKSUM != 0 <==> tcp) && ((base | FLAG_END) & FLAG_TCP_UDP_CKSUM != 0 <==> tcp)
            && (base & FLAG_VLAN_TAG != 0 <==> vlan) && ((base | FLAG_END) & FLAG_VLAN_TAG != 0 <==> vlan)
  {
  }

  lemma FlagBits(ip: bool, tcp: bool, vlan: bool)
    ensures var base := (if ip then FLAG_IP_CKSUM else 0) | (if tcp then FLAG_TCP_UDP_CKSUM else 0)
                        | (if vlan then FLAG_VLAN_TAG else 0) | FLAG_START;
            && base & FLAG_END == 0 && (base | FLAG_END) & FLAG_END != 0
            && base & FLAG_START != 0 && (base | FLAG_END) & FLAG_START != 0
  {
  }

  lemma OwnersSnoc(es: seq<Entry>, e: Entry)
    ensures Owners(es + [e]) == Owners(es) + (if e.owner.Some? then [e.owner.value] else [])
  {
    assert (es + [e])[..|es|] == es;
  }

  lemma StreamSnoc(ps: seq<Packet>, p: Packet)
    ensures Stream(ps + [p]) == Stream(ps) + EntriesOf(p)
  {
    assert (ps + [p])[..|ps|] == ps;
  }

  lemma ParseSnoc(bds: seq<TxBd>, bd: TxBd)
    ensures var open := Parse(bds).open + [SegmentOf(bd)];
            Parse(bds + [bd]) ==
            if EndsPacket(bd) then Parsed(Parse(bds).frames + [open], []) else Parsed(Parse(bds).frames, open)
  {
    assert (bds + [bd])[..|bds|] == bds;
  }

  lemma BdsConcat(a: seq<Entry>, b: seq<Entry>)
    ensures Bds(a + b) == Bds(a) + Bds(b)
  {
  }

  lemma BdsOfEntries(p: Packet, i: nat)
    requires i <= |p.segments|
    ensures Bds(EntriesOf(p)[..i]) == Encode(p)[..i]
  {
  }

  lemma EncodeSnoc(p: Packet, i: nat)
    requires i < |p.segments|
    ensures Encode(p)[..i + 1] == Encode(p)[..i] + [BdOf(p, i)]
    ensures p.segments[..i + 1] == p.segments[..i] + [p.segments[i]]
  {
  }

  lemma EntriesSnoc(p: Packet, i: nat)
    requires i < |p.segments|
    ensures EntriesOf(p)[..i + 1] == EntriesOf(p)[..i] + [EntryOf(p, i)]
  {
  }

  lemma SegmentListsSnoc(ps: seq<Packet>, p: Packet)
    ensures SegmentLists(ps + [p]) == SegmentLists(ps) + [p.segments]
  {
  }

  lemma {:induction false} OwnersConcat(a: seq<Entry>, b: seq<Entry>)
    ensures Owners(a + b) == Owners(a) + Owners(b)
  {
    if b == [] {
      assert a + b == a;
    } else {
      var init, e := b[..|b| - 1], b[|b| - 1];
      assert a + b == (a + init) + [e] && b == init + [e];
      OwnersConcat(a, init);
      OwnersSnoc(a + init, e);
      OwnersSnoc(init, e);
    }
  }

  lemma TotalLengthSnoc(es: seq<Entry>, e: Entry)
    ensures TotalLength(es + [e]) == TotalLength(es) + e.bd.length
  {
    assert (es + [e])[..|es|] == es;
  }

  lemma {:induction false} TotalLengthConcat(a: seq<Entry>, b: seq<Entry>)
    ensures TotalLength(a + b) == TotalLength(a) + TotalLength(b)
  {
    if b == [] {
      assert a + b == a;
    } else {
      var init, e := b[..|b| - 1], b[|b| - 1];
      assert a + b == (a + init) + [e] && b == init + [e];
      TotalLengthConcat(a, init);
      TotalLengthSnoc(a + init, e);
      TotalLengthSnoc(init, e);
    }
  }

  lemma {:induction false} StreamConcat(a: seq<Packet>, b: seq<Packet>)
    ensures Stream(a + b) == Stream(a) + Stream(b)
  {
    if b == [] {
      assert a + b == a;
    } else {
      var init, p := b[..|b| - 1], b[|b| - 1];
      assert a + b == (a + init) + [p] && b == init + [p];
      StreamConcat(a, init);
      StreamSnoc(a + init, p);
      StreamSnoc(init, p);
    }
  }

  /** Within one packet only a complete prefix has an owner. */
  lemma {:induction false} OwnersOfPrefix(p: Packet, i: nat)
    requires i <= |p.segments|
    ensures Owners(EntriesOf(p)[..i]) == if 0 < i == |p.segments| then [p] else []
  {
    if i != 0 {
      OwnersOfPrefix(p, i - 1);
      assert EntriesOf(p)[..i][..i - 1] == EntriesOf(p)[..i - 1];
    }
  }

  lemma OwnersOfPacket(p: Packet)
    requires p.segments != []
    ensures Owners(EntriesOf(p)) == [p]
  {
    OwnersOfPrefix(p, |p.segments|);
    assert EntriesOf(p)[..|p.segments|] == EntriesOf(p);
  }

  /** An entry of the stream has an owner exactly when its descriptor carries END. */
  lemma {:induction false} OwnedMeansEnd(ps: seq<Packet>, k: nat)
    requires k < |Stream(ps)|
    ensures Stream(ps)[k].owner.Some? <==> EndsPacket(Stream(ps)[k].bd)
  {
    var init, p := ps[..|ps| - 1], ps[|ps| - 1];
    if k < |Stream(init)| {
      OwnedMeansEnd(init, k);
    } else {
      BdRoundTrip(p, k - |Stream(init)|);
      assert Stream(ps)[k] == EntryOf(p, k - |Stream(init)|);
    }
  }

  /** The owners of the whole stream are the packets it was made from. */
  lemma {:induction false} OwnersOfStream(ps: seq<Packet>)
    requires forall p | p in ps :: p.segments != []
    ensures Owners(Stream(ps)) == ps
  {
    if ps != [] {
      var init, p := ps[..|ps| - 1], ps[|ps| - 1];
      OwnersOfStream(init);
      OwnersOfPacket(p);
      OwnersConcat(Stream(init), EntriesOf(p));
      assert init + [p] == ps;
    }
  }

  /** Parsing a prefix of one packet after any run that ended on a packet boundary. */
  lemma {:induction false} ParsePacket(bds: seq<TxBd>, p: Packet, i: nat)
    requires Parse(bds).open == [] && i <= |p.segments|
    ensures Parse(bds + Encode(p)[..i]) ==
            if 0 < i == |p.segments| then Parsed(Parse(bds).frames + [p.segments], [])
            else Parsed(Parse(bds).frames, p.segments[..i])
  {
    if i == 0 {
      assert bds + Encode(p)[..0] == bds;
    } else {
      var done, bd := Encode(p)[..i - 1], BdOf(p, i - 1);
      ParsePacket(bds, p, i - 1);
      BdRoundTrip(p, i - 1);
      EncodeSnoc(p, i - 1);
      assert bds + (done + [bd]) == (bds + done) + [bd];
      ParseSnoc(bds + done, bd);
      assert p.segments[..|p.segments|] == p.segments;
    }
  }

  /** The descriptor round trip for whole packets. */
  lemma {:induction false} ParseStream(ps: seq<Packet>)
    requires forall p | p in ps :: p.segments != []
    ensures Parse(Bds(Stream(ps))) == Parsed(SegmentLists(ps), [])
  {
    if ps != [] {
      var init, p := ps[..|ps| - 1], ps[|ps| - 1];
      var n := |p.segments|;
      ParseStream(init);
      ParsePacket(Bds(Stream(init)), p, n);
      BdsOfEntries(p, n);
      assert EntriesOf(p)[..n] == EntriesOf(p);
      BdsConcat(Stream(init), EntriesOf(p));
      SegmentListsSnoc(init, p);
      assert init + [p] == ps;
    }
  }

  /** A stretch that ends with a packet has more owners than any shorter prefix. */
  lemma OwnersShort(es: seq<Entry>, h: nat)
    requires h < |es| && es[|es| - 1].owner.Some?
    ensures |Owners(es[..h])| < |Owners(es)|
  {
    var n := |es| - 1;
    assert es[..n] == es[..h] + es[h..n];
    OwnersConcat(es[..h], es[h..n]);
  }

  lemma StreamEndsWithOwner(ps: seq<Packet>)
    requires ps != [] && ps[|ps| - 1].segments != []
    ensures Stream(ps) != [] && Stream(ps)[|Stream(ps)| - 1].owner == Some(ps[|ps| - 1])
  {
  }

  /** What parsing a cut stream must give. */
  ghost predicate CutResult(ps: seq<Packet>, done: seq<Packet>, parsed: Parsed) {
    && done <= ps
    && parsed.frames == SegmentLists(done)
    && (done == ps ==> parsed.open == [])
    && (done != ps ==> parsed.open < ps[|done|].segments)
  }

  /**
   Cutting the stream anywhere, even inside a packet: parsing yields exactly the packets
   that end before the cut, then the first segments of the packet being cut.
   */
  lemma {:induction false} ParseCut(ps: seq<Packet>, h: nat)
    requires forall p | p in ps :: p.segments != []
    requires h <= |Stream(ps)|
    ensures CutResult(ps, Owners(Stream(ps)[..h]), Parse(Bds(Stream(ps)[..h])))
    decreases ps, 1
  {
    if ps == [] {
      assert Stream(ps)[..h] == [];
    } else if h < |Stream(ps[..|ps| - 1])| {
      ParseCutEarlier(ps, h);
    } else {
      ParseCutInLast(ps, h - |Stream(ps[..|ps| - 1])|);
    }
  }

  lemma {:induction false} ParseCutEarlier(ps: seq<Packet>, h: nat)
    requires forall p | p in ps :: p.segments != []
    requires ps != [] && h < |Stream(ps[..|ps| - 1])|
    ensures CutResult(ps, Owners(Stream(ps)[..h]), Parse(Bds(Stream(ps)[..h])))
    decreases ps, 0
  {
    var init := ps[..|ps| - 1];
    assert Stream(ps)[..h] == Stream(init)[..h];
    ParseCut(init, h);
    StreamEndsWithOwner(init);
    OwnersShort(Stream(init), h);
    OwnersOfStream(init);
  }

  lemma ParseCutInLast(ps: seq<Packet>, i: nat)
    requires forall p | p in ps :: p.segments != []
    requires ps != [] && i <= |ps[|ps| - 1].segments|
    ensures var h := |Stream(ps[..|ps| - 1])| + i;
            h <= |Stream(ps)| && CutResult(ps, Owners(Stream(ps)[..h]), Parse(Bds(Stream(ps)[..h])))
  {
    var init, p := ps[..|ps| - 1], ps[|ps| - 1];
    CutInPacket(init, p, i);
    assert init + [p] == ps;
    assert Stream(ps)[..|Stream(init)| + i] == Stream(init) + EntriesOf(p)[..i];
    SegmentListsSnoc(init, p);
  }

  lemma CutInPacket(init: seq<Packet>, p: Packet, i: nat)
    requires forall p' | p' in init :: p'.segments != []
    requires p.segments != [] && i <= |p.segments|
    ensures var es := Stream(init) + EntriesOf(p)[..i];
            if i == |p.segments| then
              Owners(es) == init + [p] && Parse(Bds(es)) == Parsed(SegmentLists(init) + [p.segments], [])
            else Owners(es) == init && Parse(Bds(es)) == Parsed(SegmentLists(init), p.segments[..i])
  {
    var s := Stream(init);
    ParseStream(init);
    OwnersOfStream(init);
    ParsePacket(Bds(s), p, i);
    OwnersOfPrefix(p, i);
    OwnersConcat(s, EntriesOf(p)[..i]);
    BdsConcat(s, EntriesOf(p)[..i]);
    BdsOfEntries(p, i);
  }
}
