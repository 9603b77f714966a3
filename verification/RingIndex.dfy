/**
 The index arithmetic of both descriptor rings.

 A ring is one page of 1024 descriptors whose last entry, slot 1023, links back to slot 0.
 Producer and consumer indices are free-running 16-bit counters that skip every value
 naming the link slot, so they run through a cycle of 64 * 1023 values.
 */
module RingIndex {
  import opened Machine

  const PAGE_BDS := 1024
  const USABLE_BDS := 1023
  const CYCLE := 65472

  /** The masking macro: the descriptor slot named by an index. */
  function BdIndex(x: U16): (s: nat)
    ensures s < PAGE_BDS
  {
    x % PAGE_BDS
  }

  /** The successor macro, truncated to the 16-bit variable it is assigned to. */
  function NextBd(x: U16): U16 {
    if BdIndex(x) == USABLE_BDS - 1 then Wrap16(x + 2) else Wrap16(x + 1)
  }

  /** The adjustment both status block readers apply to a raw hardware index. */
  function Normalize(raw: U16): U16 {
    if BdIndex(raw) == USABLE_BDS then Wrap16(raw + 1) else raw
  }

  /**
   The two ways the hardware may write its index to the status block: at the start of a page
   it may name the link slot before it instead.
   */
  function RawIndex(hwCons: U16, atLink: bool): U16 {
    if atLink && BdIndex(hwCons) == 0 then Wrap16(hwCons - 1) else hwCons
  }

  /** Indices that do not name the link slot. */
  predicate InCycle(x: U16) {
    BdIndex(x) != USABLE_BDS
  }

  /** `n` applications of the successor macro. */
  function Advance(x: U16, n: nat): U16 {
    if n == 0 then x else NextBd(Advance(x, n - 1))
  }

  /** The index that names the k-th descriptor posted since the ring was initialised. */
  function IndexAfter(k: nat): U16 {
    Advance(0, k)
  }

  /** The slot of the k-th descriptor posted since the ring was initialised. */
  function Slot(k: nat): (s: nat)
    ensures s < USABLE_BDS
  {
    k % USABLE_BDS
  }

  /** The position of an index in the cycle that starts at 0. */
  function Pos(x: U16): nat {
    x / PAGE_BDS * USABLE_BDS + x % PAGE_BDS
  }

  /** How many successor steps lead from `x` to `y`. */
  function Dist(x: U16, y: U16): (d: nat)
    ensures d < CYCLE
  {
    (Pos(y) - Pos(x)) % CYCLE
  }

  /** The bit mask in the macros is the remainder used here. */
  lemma MaskIsRemainder(x: bv16)
    ensures x & 1023 == x % 1024
  {
  }

  lemma NextStaysInCycle(x: U16)
    requires InCycle(x)
    ensures InCycle(NextBd(x))
  {
  }

  /** Normalising maps every 16-bit value into the cycle and leaves members of the cycle alone. */
  lemma NormalizeIntoCycle(raw: U16)
    ensures InCycle(Normalize(raw))
    ensures InCycle(raw) ==> Normalize(raw) == raw
    ensures !InCycle(raw) ==> Normalize(raw) == NextBd(raw)
  {
  }

  /** An index is determined by its page number and slot, and so is its position. */
  lemma IndexParts(x: U16, q: nat, s: nat)
    requires x == q * PAGE_BDS + s && s < PAGE_BDS
    ensures q <= 63 && BdIndex(x) == s && Pos(x) == q * USABLE_BDS + s
  {
    assert x / PAGE_BDS == q;
  }

  lemma PosInjective(x: U16, y: U16)
    requires InCycle(x) && InCycle(y) && Pos(x) == Pos(y)
    ensures x == y
  {
    IndexParts(x, x / PAGE_BDS, x % PAGE_BDS);
    IndexParts(y, y / PAGE_BDS, y % PAGE_BDS);
  }

  /** One successor step is +1 on positions, modulo the cycle length. */
  lemma PosOfNext(x: U16)
    requires InCycle(x)
    ensures Pos(x) < CYCLE
    ensures Pos(NextBd(x)) == (Pos(x) + 1) % CYCLE
    ensures BdIndex(x) == Slot(Pos(x))
  {
    var q, s := x / PAGE_BDS, x % PAGE_BDS;
    IndexParts(x, q, s);
    if s < USABLE_BDS - 1 {
      IndexParts(NextBd(x), q, s + 1);
    } else if q < 63 {
      IndexParts(NextBd(x), q + 1, 0);
    } else {
      IndexParts(NextBd(x), 0, 0);
    }
  }

  /** Reducing a summand first does not change a sum modulo the cycle. */
  lemma ModAbsorbs(a: int, b: int)
    ensures (a % CYCLE + b) % CYCLE == (a + b) % CYCLE
  {
    var q := a / CYCLE;
    var x := a % CYCLE + b;
    assert a + b == q * CYCLE + x;
    assert a + b == (q + x / CYCLE) * CYCLE + x % CYCLE;
  }

  /** The successor iterated n times adds n to the position. */
  lemma {:induction false} PosOfAdvance(x: U16, n: nat)
    requires InCycle(x)
    ensures InCycle(Advance(x, n))
    ensures Pos(Advance(x, n)) == (Pos(x) + n) % CYCLE
  {
    if n == 0 {
      PosOfNext(x);
    } else {
      hide Pos, InCycle, NextBd, BdIndex, Slot;
      var y := Advance(x, n - 1);
      PosOfAdvance(x, n - 1);
      NextStaysInCycle(y);
      PosOfNext(y);
      ModAbsorbs(Pos(x) + (n - 1), 1);
    }
  }

  lemma SlotOfResidue(k: nat)
    ensures Slot(k % CYCLE) == Slot(k)
  {
    var q, p := k / CYCLE, k % CYCLE;
    var m, s := p / USABLE_BDS, p % USABLE_BDS;
    assert k == (q * 64 + m) * USABLE_BDS + s;
    QuotientIsUnique(k, q * 64 + m, s);
  }

  lemma QuotientIsUnique(k: nat, m: nat, s: nat)
    requires k == m * USABLE_BDS + s && s < USABLE_BDS
    ensures Slot(k) == s
  {
  }

  lemma IndexAfterPosition(k: nat)
    ensures InCycle(IndexAfter(k))
    ensures Pos(IndexAfter(k)) == k % CYCLE
  {
    PosOfAdvance(0, k);
  }

  /** The same bijection read from the counter side, for counters of any size. */
  lemma IndexAfterFacts(k: nat)
    ensures InCycle(IndexAfter(k))
    ensures Pos(IndexAfter(k)) == k % CYCLE
    ensures BdIndex(IndexAfter(k)) == Slot(k)
    ensures NextBd(IndexAfter(k)) == IndexAfter(k + 1)
    ensures Normalize(IndexAfter(k)) == IndexAfter(k)
  {
    hide Slot, BdIndex, Pos, InCycle, Normalize;
    IndexAfterPosition(k);
    PosOfNext(IndexAfter(k));
    SlotOfResidue(k);
    NormalizeIntoCycle(IndexAfter(k));
  }

  lemma ModSmall(k: nat)
    requires k < CYCLE
    ensures k % CYCLE == k
  {
  }

  lemma IndexAtPos(x: U16)
    requires InCycle(x)
    ensures IndexAfter(Pos(x)) == x
  {
    hide *;
    PosOfNext(x);
    IndexAfterFacts(Pos(x));
    ModSmall(Pos(x));
    PosInjective(IndexAfter(Pos(x)), x);
  }

  /**
   The successor is a single cycle through exactly the indices off the link slot: position
   is a bijection onto 0..65471 that turns the successor into +1.
   */
  lemma CycleIsomorphism(x: U16)
    requires InCycle(x)
    ensures Pos(x) < CYCLE && IndexAfter(Pos(x)) == x
    ensures Pos(NextBd(x)) == (Pos(x) + 1) % CYCLE
    ensures BdIndex(x) == Slot(Pos(x))
  {
    hide *;
    PosOfNext(x);
    IndexAtPos(x);
  }

  /** What the hardware publishes is its own index or the link slot before it, and normalises to its own index. */
  lemma PublishedIndex(x: U16, atLink: bool)
    requires InCycle(x)
    ensures Normalize(RawIndex(x, atLink)) == x
    ensures if atLink && x % 1024 == 0 then RawIndex(x, atLink) % 1024 == 1023 else RawIndex(x, atLink) == x
  {
  }

  lemma ModDifference(a: nat, b: nat)
    ensures (b % CYCLE - a % CYCLE) % CYCLE == (b - a) % CYCLE
  {
    ModAbsorbs(b, -(a % CYCLE));
    var q := a / CYCLE;
    assert b - a % CYCLE == q * CYCLE + (b - a);
    ModAbsorbs(q * CYCLE, b - a);
  }

  lemma ModSolves(a: nat, b: nat, j: nat)
    requires a < CYCLE && b < CYCLE && j < CYCLE
    ensures (a + j) % CYCLE == b <==> j == (b - a) % CYCLE
  {
  }

  lemma ArrivesOnlyAtDist(x: U16, y: U16, j: nat)
    requires InCycle(x) && InCycle(y) && j < CYCLE
    ensures Advance(x, j) == y <==> j == Dist(x, y)
  {
    hide Pos, InCycle, NextBd, BdIndex, Slot, Advance;
    PosOfNext(x);
    PosOfNext(y);
    PosOfAdvance(x, j);
    var z := Advance(x, j);
    ModSolves(Pos(x), Pos(y), j);
    if Pos(z) == Pos(y) {
      PosInjective(z, y);
    }
  }

  lemma DistZero(x: U16, y: U16)
    requires InCycle(x) && InCycle(y)
    ensures Dist(x, y) == 0 <==> x == y
  {
    ArrivesOnlyAtDist(x, y, 0);
  }

  /** Between two counters less than one cycle apart, `Dist` is their difference. */
  lemma DistOfCounters(a: nat, b: nat)
    requires a <= b < a + CYCLE
    ensures Dist(IndexAfter(a), IndexAfter(b)) == b - a
    ensures IndexAfter(a) == IndexAfter(b) <==> a == b
  {
    hide IndexAfter, Slot, BdIndex, NextBd, Pos, InCycle, Normalize;
    IndexAfterFacts(a);
    IndexAfterFacts(b);
    ModDifference(a, b);
    ModSmall(b - a);
    DistZero(IndexAfter(a), IndexAfter(b));
  }

  /** From any index of the cycle, `Dist` steps reach the target and fewer do not. */
  lemma DistIsFirstArrival(x: U16, y: U16)
    requires InCycle(x) && InCycle(y)
    ensures Advance(x, Dist(x, y)) == y
    ensures forall j: nat | j < Dist(x, y) :: Advance(x, j) != y
  {
    var d := Dist(x, y);
    ArrivesOnlyAtDist(x, y, d);
    forall j: nat | j < d
      ensures Advance(x, j) != y
    {
      ArrivesOnlyAtDist(x, y, j);
    }
  }

  lemma ModStepCloser(a: nat, b: nat)
    requires a < CYCLE && b < CYCLE && a != b
    ensures (b - a) % CYCLE == (b - (a + 1) % CYCLE) % CYCLE + 1
  {
  }

  /** Each step toward a different target shortens the distance by one. */
  lemma DistDecreases(x: U16, y: U16)
    requires InCycle(x) && InCycle(y) && x != y
    ensures InCycle(NextBd(x))
    ensures Dist(x, y) == Dist(NextBd(x), y) + 1
  {
    hide Pos, InCycle, NextBd, BdIndex, Slot;
    NextStaysInCycle(x);
    PosOfNext(x);
    PosOfNext(y);
    if Pos(x) == Pos(y) {
      PosInjective(x, y);
    }
    ModStepCloser(Pos(x), Pos(y));
  }

  /**
   A loop that steps to `y` with `!=` as its guard stops exactly when `y` is in the cycle,
   which is why the status readers must normalise.
   */
  lemma ReachableIffInCycle(x: U16, y: U16)
    requires InCycle(x)
    ensures InCycle(y) <==> exists n: nat :: Advance(x, n) == y
  {
    if InCycle(y) {
      DistIsFirstArrival(x, y);
    } else {
      forall n: nat
        ensures Advance(x, n) != y
      {
        PosOfAdvance(x, n);
      }
    }
  }

  /** Counters less than one ring apart name different slots. */
  lemma SlotsDistinct(a: nat, b: nat)
    requires a < b < a + USABLE_BDS
    ensures Slot(a) != Slot(b)
  {
  }

  /** Every slot is named by exactly one counter of any full ring of counters. */
  lemma CounterOfSlot(slot: nat, c: nat) returns (k: nat)
    requires slot < USABLE_BDS
    ensures c <= k < c + USABLE_BDS && Slot(k) == slot
    ensures forall k' | c <= k' < c + USABLE_BDS && Slot(k') == slot :: k' == k
  {
    var q, m := c / USABLE_BDS, c % USABLE_BDS;
    k := if m <= slot then q * USABLE_BDS + slot else (q + 1) * USABLE_BDS + slot;
    QuotientIsUnique(k, if m <= slot then q else q + 1, slot);
    forall k' | c <= k' < c + USABLE_BDS && Slot(k') == slot
      ensures k' == k
    {
      if k' < k { SlotsDistinct(k', k); } else if k < k' { SlotsDistinct(k, k'); }
    }
  }

  /** Moving an index by one page moves its position by one ring. */
  lemma PageLater(x: U16, z: U16)
    requires InCycle(x) && InCycle(z) && Pos(z) == (Pos(x) + USABLE_BDS) % CYCLE
    ensures z == Wrap16(x + PAGE_BDS)
  {
    var q, s := x / PAGE_BDS, x % PAGE_BDS;
    IndexParts(x, q, s);
    var y := if q < 63 then x + PAGE_BDS else s;
    IndexParts(y, if q < 63 then q + 1 else 0, s);
    PosInjective(z, y);
  }

  lemma SlotPeriod(k: nat)
    ensures Slot(k + USABLE_BDS) == Slot(k)
  {
  }

  /** Counters one ring apart name the same slot, and their indices differ by a full page. */
  lemma OneRingLater(k: nat)
    ensures Slot(k + USABLE_BDS) == Slot(k)
    ensures IndexAfter(k + USABLE_BDS) == Wrap16(IndexAfter(k) + PAGE_BDS)
  {
    hide *;
    IndexAfterFacts(k);
    IndexAfterFacts(k + USABLE_BDS);
    SlotPeriod(k);
    ModAbsorbs(k, USABLE_BDS);
    PageLater(IndexAfter(k), IndexAfter(k + USABLE_BDS));
  }

  lemma {:induction false} AdvanceOfIndexAfter(k: nat, n: nat)
    ensures Advance(IndexAfter(k), n) == IndexAfter(k + n)
  {
    if n != 0 {
      AdvanceOfIndexAfter(k, n - 1);
    }
  }

  /** A slot at some index from `x` up to, not including, `y`. */
  ghost predicate Between(x: U16, y: U16, slot: nat) {
    exists n: nat | n < Dist(x, y) :: BdIndex(Advance(x, n)) == slot
  }

  /** Within one ring from counter `a` on, the slots up to `b` are those of the counters below `b`. */
  lemma BetweenIff(a: nat, b: nat, t: nat)
    requires a <= b <= a + USABLE_BDS && a <= t < a + USABLE_BDS
    ensures Between(IndexAfter(a), IndexAfter(b), Slot(t)) <==> t < b
  {
    hide IndexAfter, Slot, BdIndex, NextBd, Dist, InCycle, Advance;
    DistOfCounters(a, b);
    if t < b {
      AdvanceOfIndexAfter(a, t - a);
      IndexAfterFacts(t);
      assert BdIndex(Advance(IndexAfter(a), t - a)) == Slot(t);
    }
    if Between(IndexAfter(a), IndexAfter(b), Slot(t)) {
      var n: nat :| n < Dist(IndexAfter(a), IndexAfter(b)) && BdIndex(Advance(IndexAfter(a), n)) == Slot(t);
      AdvanceOfIndexAfter(a, n);
      IndexAfterFacts(a + n);
      if a + n < t { SlotsDistinct(a + n, t); } else if t < a + n { SlotsDistinct(t, a + n); }
    }
  }
}
