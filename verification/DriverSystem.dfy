/**
 The whole driver with its hardware as a step system: enabling, sends and interrupts from
 the network stack, interleaved in any order with both hardware rings. The handler reads
 three fields of the status block one after the other, so an interrupt is three events and
 hardware events may fall between them.
 */
module DriverSystem {
  import opened Machine
  import opened FirmwareLink
  import opened ControllerReset
  import RingIndex
  import TxRing
  import TxSystem
  import TxTheorems
  import RxRing
  import RxSystem
  import RxTheorems
  import RxRefills

  const CODE_RESET: ResetCode := 0x0100_0000

  /** What the environment answers while the controller is being enabled. */
  datatype EnableEnv = EnableEnv(
    pciOpens: bool,
    reset: ResetEnv,
    contextReady: bool,
    chipAcks: seq<U32>,
    txPhys: U64,
    rxPhys: U64,
    rxAnswers: seq<RxRing.Refill>)

  /** Whether the reset is reached and succeeds when `calls` handshakes ran before. */
  predicate ResetPasses(env: EnableEnv, calls: nat) {
    env.pciOpens && ResetSucceeds(env.reset, Wrap16(calls + 1), Wrap16(calls + 2))
  }

  predicate EnableSucceeds(env: EnableEnv, calls: nat) {
    ResetPasses(env, calls) && env.contextReady
  }

  /** How many handshakes enabling makes, successful or not. */
  function EnableHandshakes(env: EnableEnv, calls: nat): nat {
    if !env.pciOpens then 0
    else HandshakesOf(env.reset, Wrap16(calls + 1)) + (if EnableSucceeds(env, calls) then 1 else 0)
  }

  /**
   Enabling succeeds exactly when the device opens, both messages of the reset are
   acknowledged under their own numbers, the reset finishes with the right byte order, and the
   context is ready; the handshakes made say how far it got.
   */
  lemma EnableOutcome(env: EnableEnv, calls: nat)
    ensures var half := Shown(env.reset.acks0, (calls + 1) % 0x1_0000) && Finished(env.reset) && env.reset.swap == 0x0102_0304;
            var whole := half && Shown(env.reset.acks1, (calls + 2) % 0x1_0000) && env.contextReady;
            && (EnableSucceeds(env, calls) <==> env.pciOpens && whole)
            && EnableHandshakes(env, calls) == (if !env.pciOpens then 0 else if !half then 1 else if !whole then 2 else 3)
  {
    hide Shown, Finished, Acked, ResetCompletes, ResetLog;
    ResetOutcome(env.reset, CODE_RESET, Wrap16(calls + 1), Wrap16(calls + 2));
  }

  datatype Rings = Rings(tx: TxSystem.TxSys, rx: RxSystem.RxSys)

  /**
   `calls` counts handshakes with the firmware and `lastStatusIndex` is the status index last
   acknowledged. `rings` exists once initialised. `inits` counts ring initialisations and
   `reported` lists the packets whose output call returned Success.
   */
  datatype System = System(
    isEnabled: bool,
    calls: nat,
    lastStatusIndex: U16,
    rings: Option<Rings>,
    inits: nat,
    reported: seq<TxRing.Packet>)

  datatype Event =
    | Enable(env: EnableEnv)
    | Output(packet: TxRing.Packet)
    | TxInterrupt
    | RxInterrupt(answers: seq<RxRing.Refill>)
    | Acknowledge(index: U16)
    | TxFetch
    | TxPublish(atLink: bool)
    | RxReceive(header: RxRing.Header)
    | RxPublish(atLink: bool)

  ghost predicate Shape(s: System) {
    && s.isEnabled == s.rings.Some?
    && (s.rings.Some? ==> TxSystem.SysShape(s.rings.value.tx) && RxSystem.SysShape(s.rings.value.rx))
  }

  const START := System(false, 0, 0, None, 0, [])

  /** The transmit and receive steps an event stands for once the driver is enabled. */
  function TxSteps(e: Event): seq<TxSystem.TxEvent> {
    match e
    case Output(p) => [TxSystem.Send(p)]
    case TxInterrupt => [TxSystem.Interrupt]
    case TxFetch => [TxSystem.Fetch]
    case TxPublish(atLink) => [TxSystem.Publish(atLink)]
    case _ => []
  }

  function RxSteps(e: Event): seq<RxSystem.RxEvent> {
    match e
    case RxInterrupt(answers) => [RxSystem.Interrupt(answers)]
    case RxReceive(h) => [RxSystem.Receive(h)]
    case RxPublish(atLink) => [RxSystem.Publish(atLink)]
    case _ => []
  }

  /** The status an output call returns. */
  function OutputStatus(s: System, p: TxRing.Packet): TxRing.SendStatus
    requires Shape(s)
  {
    if s.isEnabled then TxRing.SendPacket(s.rings.value.tx.ring, p).1 else TxRing.Success
  }

  /** Both rings after the steps `e` stands for. */
  function StepRings(r: Rings, e: Event, maxLength: U16): (r': Rings)
    requires TxSystem.SysShape(r.tx) && RxSystem.SysShape(r.rx)
    ensures TxSystem.SysShape(r'.tx) && RxSystem.SysShape(r'.rx)
  {
    Rings(TxSystem.Run(r.tx, TxSteps(e)), RxSystem.Run(r.rx, RxSteps(e), maxLength))
  }

  function Step(s: System, e: Event, maxLength: U16): (s': System)
    requires Shape(s)
    ensures Shape(s')
  {
    match e
    case Enable(env) =>
      if s.isEnabled then s
      else
        var s1 := s.(calls := s.calls + EnableHandshakes(env, s.calls));
        if EnableSucceeds(env, s.calls) then
          s1.(isEnabled := true, inits := s.inits + 1,
              rings := Some(Rings(TxSystem.Init(env.txPhys), RxSystem.Init(env.rxPhys, env.rxAnswers))))
        else s1
    case Acknowledge(index) =>
      if s.isEnabled && !s.rings.value.rx.ring.faulted then s.(lastStatusIndex := index) else s
    case Output(p) =>
      var s1 := s.(reported := if OutputStatus(s, p) == TxRing.Success then s.reported + [p] else s.reported);
      if s.isEnabled then s1.(rings := Some(StepRings(s.rings.value, e, maxLength))) else s1
    case _ =>
      if s.isEnabled then s.(rings := Some(StepRings(s.rings.value, e, maxLength))) else s
  }

  function RunFrom(s: System, trace: seq<Event>, maxLength: U16): (s': System)
    requires Shape(s)
    ensures Shape(s')
  {
    if trace == [] then s else Step(RunFrom(s, trace[..|trace| - 1], maxLength), trace[|trace| - 1], maxLength)
  }

  function Run(trace: seq<Event>, maxLength: U16): (s: System)
    ensures Shape(s)
  {
    RunFrom(START, trace, maxLength)
  }

  // ----- What each ring sees of a run -----

  function TxTrace(trace: seq<Event>, maxLength: U16): seq<TxSystem.TxEvent> {
    if trace == [] then []
    else
      var init, e := trace[..|trace| - 1], trace[|trace| - 1];
      TxTrace(init, maxLength) + (if Run(init, maxLength).isEnabled then TxSteps(e) else [])
  }

  function RxTrace(trace: seq<Event>, maxLength: U16): seq<RxSystem.RxEvent> {
    if trace == [] then []
    else
      var init, e := trace[..|trace| - 1], trace[|trace| - 1];
      RxTrace(init, maxLength) + (if Run(init, maxLength).isEnabled then RxSteps(e) else [])
  }

  /** The packets output, and reported as sent, while the driver was not enabled. */
  function SentTooEarly(trace: seq<Event>, maxLength: U16): seq<TxRing.Packet> {
    if trace == [] then []
    else
      var init, e := trace[..|trace| - 1], trace[|trace| - 1];
      SentTooEarly(init, maxLength) + (if e.Output? && !Run(init, maxLength).isEnabled then [e.packet] else [])
  }

  /** The environment of the first enabling that succeeded, if one did. */
  function Enabling(trace: seq<Event>, maxLength: U16): Option<EnableEnv> {
    if trace == [] then None
    else
      var init, e := trace[..|trace| - 1], trace[|trace| - 1];
      if Enabling(init, maxLength).Some? then Enabling(init, maxLength)
      else if e.Enable? && EnableSucceeds(e.env, Run(init, maxLength).calls) then Some(e.env)
      else None
  }

  lemma TxRunOne(s: TxSystem.TxSys, e: TxSystem.TxEvent)
    requires TxSystem.SysShape(s)
    ensures TxSystem.Run(s, [e]) == TxSystem.Step(s, e)
  {
    TxTheorems.RunSnoc(s, [], e);
    assert [] + [e] == [e];
  }

  lemma RxRunOne(s: RxSystem.RxSys, e: RxSystem.RxEvent, maxLength: U16)
    requires RxSystem.SysShape(s)
    ensures RxSystem.Run(s, [e], maxLength) == RxSystem.Step(s, e, maxLength)
  {
    assert [e][..0] == [];
    assert RxSystem.Run(s, [], maxLength) == s;
  }

  lemma TxRunMore(s: TxSystem.TxSys, trace: seq<TxSystem.TxEvent>, e: Event)
    requires TxSystem.SysShape(s)
    ensures TxSystem.Run(s, trace + TxSteps(e)) == TxSystem.Run(TxSystem.Run(s, trace), TxSteps(e))
  {
    var more := TxSteps(e);
    if more == [] {
      assert trace + more == trace;
    } else {
      assert more == [more[0]];
      TxTheorems.RunSnoc(s, trace, more[0]);
      TxRunOne(TxSystem.Run(s, trace), more[0]);
    }
  }

  lemma RxRunMore(s: RxSystem.RxSys, trace: seq<RxSystem.RxEvent>, e: Event, maxLength: U16)
    requires RxSystem.SysShape(s)
    ensures RxSystem.Run(s, trace + RxSteps(e), maxLength) ==
            RxSystem.Run(RxSystem.Run(s, trace, maxLength), RxSteps(e), maxLength)
  {
    var more := RxSteps(e);
    var s1 := RxSystem.Run(s, trace, maxLength);
    if more == [] {
      assert trace + more == trace;
    } else {
      assert more == [more[0]] && (trace + more)[..|trace|] == trace;
      RxRunOne(s1, more[0], maxLength);
    }
  }

  /** What the lifecycle guarantees of one state of a run. */
  ghost predicate Lifecycle(s: System, trace: seq<Event>, maxLength: U16) {
    && s.isEnabled == s.rings.Some? == Enabling(trace, maxLength).Some?
    && s.inits == (if s.isEnabled then 1 else 0)
    && (s.isEnabled ==>
          var env := Enabling(trace, maxLength).value;
          && s.rings.value.tx == TxTheorems.After(env.txPhys, TxTrace(trace, maxLength))
          && s.rings.value.rx == RxSystem.Run(RxSystem.Init(env.rxPhys, env.rxAnswers), RxTrace(trace, maxLength), maxLength))
    && (!s.isEnabled ==> TxTrace(trace, maxLength) == [] && RxTrace(trace, maxLength) == [])
    && s.reported == SentTooEarly(trace, maxLength) + (if s.isEnabled then s.rings.value.tx.accepted else [])
  }

  lemma HardwareKeepsAccepted(s: TxSystem.TxSys, e: Event)
    requires TxSystem.SysShape(s) && !e.Output?
    ensures TxSystem.Run(s, TxSteps(e)).accepted == s.accepted
  {
    var more := TxSteps(e);
    if more != [] {
      assert more == [more[0]];
      TxRunOne(s, more[0]);
    }
  }

  /** Once enabled, an event acts on the two rings as the steps it stands for. */
  lemma EnabledRings(s: System, e: Event, maxLength: U16)
    requires Shape(s) && s.isEnabled
    ensures var r := s.rings.value; var s' := Step(s, e, maxLength);
            && s'.isEnabled && s'.inits == s.inits && s'.rings == Some(StepRings(r, e, maxLength))
            && (forall before | s.reported == before + r.tx.accepted ::
                  s'.reported == before + TxSystem.Run(r.tx, TxSteps(e)).accepted)
  {
    var r := s.rings.value;
    hide TxSystem.Step, RxSystem.Step, RxSystem.SysShape, TxRing.SendPacket, TxSystem.Init, RxSystem.Init;
    match e
    case Output(p) => SendStep(r.tx, p);
    case _ => HardwareKeepsAccepted(r.tx, e);
  }

  lemma RunFromSnoc(s: System, trace: seq<Event>, e: Event, maxLength: U16)
    requires Shape(s)
    ensures RunFrom(s, trace + [e], maxLength) == Step(RunFrom(s, trace, maxLength), e, maxLength)
  {
    assert (trace + [e])[..|trace|] == trace;
    hide Step;
  }

  /** The recorded histories after one more event. */
  lemma TraceSnoc(trace: seq<Event>, e: Event, maxLength: U16)
    ensures Run(trace + [e], maxLength) == Step(Run(trace, maxLength), e, maxLength)
    ensures var s := Run(trace, maxLength);
            && TxTrace(trace + [e], maxLength) == TxTrace(trace, maxLength) + (if s.isEnabled then TxSteps(e) else [])
            && RxTrace(trace + [e], maxLength) == RxTrace(trace, maxLength) + (if s.isEnabled then RxSteps(e) else [])
            && SentTooEarly(trace + [e], maxLength) ==
               SentTooEarly(trace, maxLength) + (if e.Output? && !s.isEnabled then [e.packet] else [])
            && Enabling(trace + [e], maxLength) ==
               if Enabling(trace, maxLength).Some? then Enabling(trace, maxLength)
               else if e.Enable? && EnableSucceeds(e.env, s.calls) then Some(e.env) else None
  {
    RunFromSnoc(START, trace, e, maxLength);
    assert (trace + [e])[..|trace|] == trace;
    hide Step, TxSteps, RxSteps, EnableSucceeds, RunFrom;
  }

  lemma EnabledStep(s: System, trace: seq<Event>, e: Event, maxLength: U16)
    requires Shape(s) && s == Run(trace, maxLength) && s.isEnabled && Lifecycle(s, trace, maxLength)
    ensures Lifecycle(Step(s, e, maxLength), trace + [e], maxLength)
  {
    hide TxSystem.Init, RxSystem.Init, TxSystem.Run, RxSystem.Run, RxSystem.SysShape, TxSystem.SysShape, Step, TxSteps,
         RxSteps, Run, TxTrace, RxTrace, SentTooEarly, Enabling, Shape, EnableSucceeds;
    TraceSnoc(trace, e, maxLength);
    var env := Enabling(trace, maxLength).value;
    ShapeRings(s);
    EnabledRings(s, e, maxLength);
    TxRunMore(TxSystem.Init(env.txPhys), TxTrace(trace, maxLength), e);
    RxRunMore(RxSystem.Init(env.rxPhys, env.rxAnswers), RxTrace(trace, maxLength), e, maxLength);
  }

  lemma ShapeRings(s: System)
    requires Shape(s) && s.isEnabled
    ensures s.rings.Some? && TxSystem.SysShape(s.rings.value.tx) && RxSystem.SysShape(s.rings.value.rx)
  {
  }

  lemma SendStep(s: TxSystem.TxSys, p: TxRing.Packet)
    requires TxSystem.SysShape(s)
    ensures TxSystem.Run(s, [TxSystem.Send(p)]) == TxSystem.Step(s, TxSystem.Send(p))
    ensures TxSystem.Step(s, TxSystem.Send(p)).accepted ==
            if TxRing.SendPacket(s.ring, p).1 == TxRing.Success then s.accepted + [p] else s.accepted
  {
    TxRunOne(s, TxSystem.Send(p));
  }

  lemma DisabledStep(s: System, trace: seq<Event>, e: Event, maxLength: U16)
    requires Shape(s) && s == Run(trace, maxLength) && !s.isEnabled && Lifecycle(s, trace, maxLength)
    ensures Lifecycle(Step(s, e, maxLength), trace + [e], maxLength)
  {
    hide TxSystem.Init, RxSystem.Init, Run, TxTrace, RxTrace, SentTooEarly, Enabling, TxSteps, RxSteps, EnableSucceeds, EnableHandshakes;
    TraceSnoc(trace, e, maxLength);
    InitAccepted(if e.Enable? then e.env.txPhys else 0);
  }

  lemma InitAccepted(physAddr: U64)
    ensures TxSystem.Init(physAddr).accepted == []
  {
  }

  /**
   Over every run the rings are initialised at most once, before the first send that
   reaches them, so no ring is reset with packets in flight; from then on each ring behaves
   as the run of its own steps. The packets reported as sent are those output too early
   followed by those the ring accepted.
   */
  lemma {:induction false} LifecycleHolds(trace: seq<Event>, maxLength: U16)
    ensures Lifecycle(Run(trace, maxLength), trace, maxLength)
  {
    if trace != [] {
      var init, e := trace[..|trace| - 1], trace[|trace| - 1];
      LifecycleHolds(init, maxLength);
      assert init + [e] == trace;
      if Run(init, maxLength).isEnabled {
        EnabledStep(Run(init, maxLength), init, e, maxLength);
      } else {
        DisabledStep(Run(init, maxLength), init, e, maxLength);
      }
    }
  }

  /** Success means queued exactly when nothing was output before the driver was enabled. */
  lemma SuccessMeansQueuedIff(trace: seq<Event>, maxLength: U16)
    requires Run(trace, maxLength).isEnabled
    ensures var s := Run(trace, maxLength);
            s.reported == s.rings.value.tx.accepted <==> SentTooEarly(trace, maxLength) == []
  {
    hide Run, TxTrace, RxTrace, SentTooEarly, Enabling, TxTheorems.After, RxSystem.Run, RxSystem.Init;
    LifecycleHolds(trace, maxLength);
  }

  /** A packet output before enabling is reported as sent and never reaches the ring. */
  lemma LostBeforeEnable(p: TxRing.Packet, env: EnableEnv, maxLength: U16)
    requires EnableSucceeds(env, 0)
    ensures var s := Run([Output(p), Enable(env)], maxLength);
            && s.isEnabled && s.reported == [p]
            && s.rings.value.tx.accepted == [] && s.rings.value.tx.ring.dropped == []
  {
    hide EnableSucceeds, EnableHandshakes;
    RunFromSnoc(START, [], Output(p), maxLength);
    RunFromSnoc(START, [Output(p)], Enable(env), maxLength);
    assert [] + [Output(p)] == [Output(p)] && [Output(p)] + [Enable(env)] == [Output(p), Enable(env)];
    InitAccepted(env.txPhys);
  }

  /**
   Every run of the whole driver: what was reported as sent is what was output too early,
   then what was freed after transmission, then what is parked in the ring, in order.
   */
  lemma WholeDriverFifo(trace: seq<Event>, maxLength: U16)
    requires Run(trace, maxLength).isEnabled
    ensures var s := Run(trace, maxLength); var r := s.rings.value.tx.ring;
            s.reported == SentTooEarly(trace, maxLength) + (r.freed + TxSystem.InFlight(r))
  {
    LifecycleHolds(trace, maxLength);
    var env := Enabling(trace, maxLength).value;
    TxTheorems.Fifo(env.txPhys, TxTrace(trace, maxLength));
  }

  /** The receive results apply to the whole driver whenever its refills succeed. */
  lemma WholeDriverReceives(trace: seq<Event>, maxLength: U16)
    requires Run(trace, maxLength).isEnabled && Enabling(trace, maxLength).Some?
    requires var env := Enabling(trace, maxLength).value;
             && RxSystem.InitSupplied(env.rxAnswers)
             && RxSystem.RunSupplied(RxSystem.Init(env.rxPhys, env.rxAnswers), RxTrace(trace, maxLength), maxLength)
    ensures var env, s := Enabling(trace, maxLength).value, Run(trace, maxLength).rings.value.rx;
            RxTheorems.Reached(env.rxPhys, env.rxAnswers, RxTrace(trace, maxLength), maxLength, s)
  {
    LifecycleHolds(trace, maxLength);
    hide Run, TxTheorems.After, RxSystem.RunSupplied, RxSystem.InitSupplied, RxSystem.Init, RxSystem.Run;
  }

  // ----- One interrupt -----

  /** The hardware's own events. */
  predicate IsHardware(e: Event) {
    e.TxFetch? || e.TxPublish? || e.RxReceive? || e.RxPublish?
  }

  ghost predicate OnlyHardware(trace: seq<Event>) {
    forall i | 0 <= i < |trace| :: IsHardware(trace[i])
  }

  /** Up to the receive half: the transmit half, then what the hardware does meanwhile. */
  function BeforeReceive(s: System, hw: seq<Event>, maxLength: U16): (s': System)
    requires Shape(s)
    ensures Shape(s')
  {
    RunFrom(Step(s, TxInterrupt, maxLength), hw, maxLength)
  }

  /** One whole interrupt, with hardware events between the three reads of the status block. */
  function AfterHandler(s: System, hw1: seq<Event>, answers: seq<RxRing.Refill>, hw2: seq<Event>, index: U16, maxLength: U16): (s': System)
    requires Shape(s)
    ensures Shape(s')
  {
    Step(RunFrom(Step(BeforeReceive(s, hw1, maxLength), RxInterrupt(answers), maxLength), hw2, maxLength),
         Acknowledge(index), maxLength)
  }

  /** The part of the state the driver writes. */
  ghost predicate SameDriver(s: System, s': System) {
    && s'.isEnabled == s.isEnabled && s'.calls == s.calls && s'.lastStatusIndex == s.lastStatusIndex
    && s'.rings.Some? == s.rings.Some?
    && (s.rings.Some? ==>
          var r, r' := s.rings.value, s'.rings.value;
          r'.tx.ring == r.tx.ring && r'.rx.ring == r.rx.ring && r'.tx.reclaimed == r.tx.reclaimed)
  }

  lemma HardwareStep(s: System, e: Event, maxLength: U16)
    requires Shape(s) && IsHardware(e)
    ensures SameDriver(s, Step(s, e, maxLength))
  {
    if s.isEnabled {
      RingsOfStep(s.rings.value, e, maxLength);
    }
  }

  /** What one event means for each ring. */
  lemma RingsOfStep(r: Rings, e: Event, maxLength: U16)
    requires TxSystem.SysShape(r.tx) && RxSystem.SysShape(r.rx)
    ensures var r' := StepRings(r, e, maxLength);
            && r'.tx == (if TxSteps(e) == [] then r.tx else TxSystem.Step(r.tx, TxSteps(e)[0]))
            && r'.rx == (if RxSteps(e) == [] then r.rx else RxSystem.Step(r.rx, RxSteps(e)[0], maxLength))
  {
    hide TxSystem.Step, RxSystem.Step;
    if TxSteps(e) != [] {
      TxRunOne(r.tx, TxSteps(e)[0]);
      assert TxSteps(e) == [TxSteps(e)[0]];
    }
    if RxSteps(e) != [] {
      RxRunOne(r.rx, RxSteps(e)[0], maxLength);
      assert RxSteps(e) == [RxSteps(e)[0]];
    }
  }

  /** The hardware changes nothing the driver writes. */
  lemma {:induction false} HardwareInvisible(s: System, hw: seq<Event>, maxLength: U16)
    requires Shape(s) && OnlyHardware(hw)
    ensures SameDriver(s, RunFrom(s, hw, maxLength))
  {
    if hw != [] {
      HardwareInvisible(s, hw[..|hw| - 1], maxLength);
      HardwareStep(RunFrom(s, hw[..|hw| - 1], maxLength), hw[|hw| - 1], maxLength);
    }
  }

  /** In every state the transmit consumer has caught up exactly when all that is published is reclaimed. */
  lemma TxCaughtUpIff(s: TxSystem.TxSys, physAddr: U64)
    requires TxSystem.Inv(s, physAddr)
    ensures s.ring.cons == RingIndex.Normalize(s.rawCons) <==> s.reclaimed == s.published
  {
    hide RingIndex.IndexAfter, RingIndex.Dist, RingIndex.Slot, RingIndex.Normalize;
    RingIndex.DistOfCounters(s.reclaimed, s.published);
    RingIndex.DistOfCounters(s.reclaimed, s.reclaimed);
  }

  /** Likewise for the receive consumer in every state without a fault, filled at start or not. */
  lemma RxCaughtUpIff(physAddr: U64, init: seq<RxRing.Refill>, trace: seq<RxSystem.RxEvent>, maxLength: U16)
    requires !RxSystem.Run(RxSystem.Init(physAddr, init), trace, maxLength).ring.faulted
    ensures var s := RxSystem.Run(RxSystem.Init(physAddr, init), trace, maxLength);
            s.ring.cons == RingIndex.Normalize(s.rawCons) <==> |s.ring.upcalls| == s.published
  {
    hide RingIndex.IndexAfter, RingIndex.Dist, RingIndex.Slot, RingIndex.Normalize, RxSystem.Init, RxSystem.Run;
    var s := RxSystem.Run(RxSystem.Init(physAddr, init), trace, maxLength);
    if RxSystem.AllSucceed(init, RingIndex.USABLE_BDS) {
      RxRefills.RunTally(physAddr, init, trace, maxLength);
      RingIndex.DistOfCounters(|s.ring.upcalls|, s.published);
      RingIndex.DistOfCounters(|s.ring.upcalls|, |s.ring.upcalls|);
    } else {
      RxRefills.UnfilledRingReceivesNothing(physAddr, init, trace, maxLength);
      RxRefills.InitRingCounts(physAddr, init);
    }
  }

  lemma {:induction false} RunFromConcat(s: System, a: seq<Event>, b: seq<Event>, maxLength: U16)
    requires Shape(s)
    ensures RunFrom(s, a + b, maxLength) == RunFrom(RunFrom(s, a, maxLength), b, maxLength)
  {
    if b == [] {
      assert a + b == a;
    } else {
      RunFromConcat(s, a, b[..|b| - 1], maxLength);
      assert (a + b)[..|a + b| - 1] == a + b[..|b| - 1];
    }
  }

  lemma RunSnoc(trace: seq<Event>, e: Event, maxLength: U16)
    ensures Run(trace + [e], maxLength) == Step(Run(trace, maxLength), e, maxLength)
  {
    hide Step, RunFrom;
    RunFromSnoc(START, trace, e, maxLength);
  }

  /** One event and then hardware events, as part of a run. */
  lemma ThenHardware(trace: seq<Event>, e: Event, hw: seq<Event>, maxLength: U16)
    ensures RunFrom(Step(Run(trace, maxLength), e, maxLength), hw, maxLength) == Run(trace + [e] + hw, maxLength)
  {
    hide Step;
    RunFromSnoc(START, trace, e, maxLength);
    RunFromConcat(START, trace + [e], hw, maxLength);
  }

  /** In every enabled state the consumers agree with the status block exactly when all that it reports is handled. */
  lemma CaughtUpIff(trace: seq<Event>, maxLength: U16)
    requires Run(trace, maxLength).isEnabled
    ensures var r := Run(trace, maxLength).rings.value;
            && (r.tx.ring.cons == RingIndex.Normalize(r.tx.rawCons) <==> r.tx.reclaimed == r.tx.published)
            && (!r.rx.ring.faulted ==>
                  (r.rx.ring.cons == RingIndex.Normalize(r.rx.rawCons) <==> |r.rx.ring.upcalls| == r.rx.published))
  {
    hide Run, TxSystem.Run, TxSystem.Init, TxSystem.Inv, RxSystem.Run, RxSystem.Init, RingIndex.Normalize;
    LifecycleHolds(trace, maxLength);
    var env, r := Enabling(trace, maxLength).value, Run(trace, maxLength).rings.value;
    TxSystem.RunInv(env.txPhys, TxTrace(trace, maxLength));
    TxCaughtUpIff(r.tx, env.txPhys);
    if !r.rx.ring.faulted {
      RxCaughtUpIff(env.rxPhys, env.rxAnswers, RxTrace(trace, maxLength), maxLength);
    }
  }

  lemma TxInterruptReclaims(s: System, maxLength: U16)
    requires Shape(s) && s.isEnabled
    ensures var s' := Step(s, TxInterrupt, maxLength);
            && s'.isEnabled && s'.rings.value.rx == s.rings.value.rx
            && s'.rings.value.tx.reclaimed == s.rings.value.tx.published
            && s'.rings.value.tx.published == s.rings.value.tx.published
  {
    RingsOfStep(s.rings.value, TxInterrupt, maxLength);
  }

  lemma RxInterruptStops(s: System, answers: seq<RxRing.Refill>, maxLength: U16)
    requires Shape(s) && s.isEnabled
    ensures var s' := Step(s, RxInterrupt(answers), maxLength); var r, r' := s.rings.value, s'.rings.value;
            && s'.isEnabled && r'.tx == r.tx && r'.rx.published == r.rx.published
            && (r'.rx.ring.faulted || r'.rx.ring.cons == RingIndex.Normalize(r'.rx.rawCons))
  {
    hide RxRing.TakeAll, RingIndex.Normalize;
    var r := s.rings.value.rx;
    RingsOfStep(s.rings.value, RxInterrupt(answers), maxLength);
    RxRing.TakeAllStops(r.ring, RxSystem.Target(r), {}, RxRing.RxEnv(maxLength, r.mem, answers), 0);
  }

  /** The last part of the handler changes no ring. */
  lemma Finish(s: System, hw: seq<Event>, index: U16, maxLength: U16)
    requires Shape(s) && s.isEnabled && OnlyHardware(hw)
    ensures var s' := Step(RunFrom(s, hw, maxLength), Acknowledge(index), maxLength);
            s'.isEnabled && s'.rings.Some? &&
            var r, r' := s.rings.value, s'.rings.value;
            && r'.tx.ring == r.tx.ring && r'.rx.ring == r.rx.ring && r'.tx.reclaimed == r.tx.reclaimed
            && s'.lastStatusIndex == if r.rx.ring.faulted then s.lastStatusIndex else index
  {
    hide RunFrom;
    HardwareInvisible(s, hw, maxLength);
  }

  /**
   An interrupt acknowledges the status index it reads last. Each ring has then caught up
   with the status block if and only if the hardware published nothing new for it after its
   own index was read; otherwise an update that was not handled has been acknowledged.
   */
  lemma InterruptCatchesUp(trace: seq<Event>, hw1: seq<Event>, answers: seq<RxRing.Refill>, hw2: seq<Event>, index: U16, maxLength: U16)
    requires Run(trace, maxLength).isEnabled && OnlyHardware(hw1) && OnlyHardware(hw2)
    ensures var s, s1 := Run(trace, maxLength), BeforeReceive(Run(trace, maxLength), hw1, maxLength);
            var s' := AfterHandler(s, hw1, answers, hw2, index, maxLength);
            && s1.isEnabled && s'.isEnabled
            && var r, r1, r' := s.rings.value, s1.rings.value, s'.rings.value;
               && (r'.tx.ring.cons == RingIndex.Normalize(r'.tx.rawCons) <==> r'.tx.published == r.tx.published)
               && (!r'.rx.ring.faulted ==>
                     && s'.lastStatusIndex == index
                     && (r'.rx.ring.cons == RingIndex.Normalize(r'.rx.rawCons) <==> r'.rx.published == r1.rx.published))
  {
    hide Run, RunFrom, Step, OnlyHardware, RingIndex.Normalize;
    var s, t1 := Run(trace, maxLength), trace + [TxInterrupt] + hw1;
    TxInterruptReclaims(s, maxLength);
    HardwareInvisible(Step(s, TxInterrupt, maxLength), hw1, maxLength);
    ThenHardware(trace, TxInterrupt, hw1, maxLength);
    RxInterruptStops(Run(t1, maxLength), answers, maxLength);
    RunSnoc(t1, RxInterrupt(answers), maxLength);
    ThenHardware(t1, RxInterrupt(answers), hw2, maxLength);
    var t2, t3 := t1 + [RxInterrupt(answers)], t1 + [RxInterrupt(answers)] + hw2;
    CaughtUpIff(t2, maxLength);
    Finish(Run(t2, maxLength), hw2, index, maxLength);
    RunSnoc(t3, Acknowledge(index), maxLength);
    CaughtUpIff(t3 + [Acknowledge(index)], maxLength);
  }
}
