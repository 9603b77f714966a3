/**
 The controller object as the network stack drives it: enabling, sending and interrupts. The
 methods are specified on the values of its fields, and each of those specifications is
 shown to be what the whole-driver step system does.
 */
module Driver {
  import opened Machine
  import opened RingIndex
  import opened FirmwareLink
  import opened ControllerReset
  import opened DriverSystem
  import TxRing
  import TxSystem
  import TxTheorems
  import RxRing
  import RxSystem
  import RxLedger
  import RxStale

  /** The values of the controller's fields. */
  datatype Fields = Fields(
    isEnabled: bool,
    calls: nat,
    lastStatusIndex: U16,
    tx: TxRing.TxState,
    rx: RxRing.RxState)

  /** The three status block fields, each as it is when the handler reads it. */
  datatype StatusReads = StatusReads(txRaw: U16, rxRaw: U16, index: U16)

  /** The message of the third handshake, sent when the chip has been configured. */
  function Wait2(code: ResetCode): Message {
    MSG_DATA_WAIT2 + code
  }

  // ----- What each entry point does to the fields -----

  /** Packets sent before enabling are reported as sent and forgotten. */
  function Sent(f: Fields, packet: TxRing.Packet): (Fields, TxRing.SendStatus)
    requires TxRing.Shape(f.tx)
  {
    if !f.isEnabled then (f, TxRing.Success)
    else
      var (tx, status) := TxRing.SendPacket(f.tx, packet);
      (f.(tx := tx), status)
  }

  /** Each ring is handled up to its index; a handler that meets an empty slot does not come back. */
  function Interrupted(f: Fields, status: StatusReads, env: RxRing.RxEnv): Fields
    requires TxRing.Shape(f.tx) && RxRing.Shape(f.rx)
  {
    if !f.isEnabled then f
    else
      NormalizeIntoCycle(status.txRaw);
      NormalizeIntoCycle(status.rxRaw);
      var tx := TxRing.Reclaim(f.tx, Normalize(status.txRaw));
      var rx := if f.rx.cons == Normalize(status.rxRaw) then f.rx else RxRing.HandleInterrupt(f.rx, Normalize(status.rxRaw), env);
      f.(tx := tx, rx := rx, lastStatusIndex := if rx.faulted then f.lastStatusIndex else status.index)
  }

  /** Enabling resets the chip, configures it and initialises both rings, once. */
  function Enabled(f: Fields, env: EnableEnv): Fields
    requires TxRing.Shape(f.tx) && RxRing.Shape(f.rx)
  {
    if f.isEnabled then f
    else
      var f1 := f.(calls := f.calls + EnableHandshakes(env, f.calls));
      if EnableSucceeds(env, f.calls) then
        f1.(isEnabled := true, tx := TxRing.InitRing(f.tx, env.txPhys), rx := RxRing.InitRing(f.rx, env.rxPhys, env.rxAnswers).0)
      else f1
  }

  /** What enabling adds to the log of accesses, as far as handshakes and reset go. */
  function EnableLog(env: EnableEnv, calls: nat): seq<Io> {
    if !env.pciOpens then []
    else
      ResetLog(env.reset, CODE_RESET, Wrap16(calls + 1), Wrap16(calls + 2))
      + (if EnableSucceeds(env, calls) then SyncLog(Wait2(CODE_RESET), Wrap16(calls + 3), env.chipAcks) else [])
  }

  class Controller {
    const tx: TxRing.Transmitter
    const rx: RxRing.Receiver
    const link: Link
    var isEnabled: bool
    var lastStatusIndex: U16

    ghost predicate Valid()
      reads this, tx, rx, link
    {
      tx.Valid() && rx.Valid() && link.Valid()
    }

    ghost function State(): (f: Fields)
      reads this, tx, tx.txChain, tx.txPackets, rx, rx.rxChain, rx.rxPackets, link
    {
      Fields(isEnabled, link.calls, lastStatusIndex, tx.State(), rx.State())
    }

    /** The object starts where every run of the step system does. */
    constructor ()
      ensures Valid() && State() == View(START) && link.log == []
      ensures fresh(tx) && fresh(tx.txChain) && fresh(tx.txPackets)
      ensures fresh(rx) && fresh(rx.rxChain) && fresh(rx.rxPackets) && fresh(link)
    {
      tx := new TxRing.Transmitter();
      rx := new RxRing.Receiver();
      link := new Link();
      isEnabled, lastStatusIndex := false, 0;
    }

    method OutputPacket(packet: TxRing.Packet) returns (status: TxRing.SendStatus)
      requires Valid()
      modifies tx, tx.txChain, tx.txPackets
      ensures Valid()
      ensures TxRing.Shape(old(tx.State())) && (State(), status) == Sent(old(State()), packet)
    {
      hide TxRing.SendPacket;
      if !isEnabled {
        return TxRing.Success;
      }
      status := tx.SendTxPacket(packet);
    }

    method InterruptOccurred(status: StatusReads, env: RxRing.RxEnv)
      requires Valid() && !rx.faulted
      modifies this, tx, tx.txPackets, rx, rx.rxChain, rx.rxPackets
      ensures Valid()
      ensures TxRing.Shape(old(tx.State())) && RxRing.Shape(old(rx.State()))
      ensures State() == Interrupted(old(State()), status, env)
    {
      hide TxRing.Reclaim, RxRing.HandleInterrupt, Normalize, InCycle;
      if !isEnabled {
        return;
      }
      NormalizeIntoCycle(status.txRaw);
      NormalizeIntoCycle(status.rxRaw);
      var txConsNew := Normalize(status.txRaw);
      ReclaimNothing(tx.State());
      if tx.txCons != txConsNew {
        tx.HandleTxInterrupt(txConsNew);
      }
      var rxConsNew := Normalize(status.rxRaw);
      if rx.rxCons != rxConsNew {
        rx.HandleRxInterrupt(rxConsNew, env);
        if rx.faulted {
          return;
        }
      }
      lastStatusIndex := status.index;
    }

    /** Configuring the chip ends with a third handshake whose result is ignored. */
    method InitControllerChip(contextReady: bool, acks: seq<U32>) returns (ok: bool)
      requires Valid() && |acks| == 1000
      modifies link
      ensures Valid() && ok == contextReady
      ensures link.calls == old(link.calls) + (if contextReady then 1 else 0)
      ensures link.log == old(link.log) + (if contextReady then SyncLog(Wait2(CODE_RESET), Wrap16(link.calls), acks) else [])
    {
      if !contextReady {
        return false;
      }
      var _ := link.FirmwareSync(Wait2(CODE_RESET), acks);
      return true;
    }

    /** Both rings are initialised; whether the receive ring could be filled is ignored. */
    method StartController(txPhys: U64, rxPhys: U64, rxAnswers: seq<RxRing.Refill>)
      requires Valid()
      modifies tx, tx.txChain, rx, rx.rxChain, rx.rxPackets
      ensures Valid()
      ensures tx.State() == TxRing.InitRing(old(tx.State()), txPhys)
      ensures rx.State() == RxRing.InitRing(old(rx.State()), rxPhys, rxAnswers).0
    {
      tx.InitTxRing(txPhys);
      var _ := rx.InitRxRing(rxPhys, rxAnswers);
    }

    method Enable(env: EnableEnv) returns (ok: bool)
      requires Valid() && EnvOk(env.reset) && |env.chipAcks| == 1000
      modifies this, tx, tx.txChain, rx, rx.rxChain, rx.rxPackets, link
      ensures Valid()
      ensures TxRing.Shape(old(tx.State())) && RxRing.Shape(old(rx.State()))
      ensures State() == Enabled(old(State()), env)
      ensures ok == (!old(isEnabled) && EnableSucceeds(env, old(link.calls)))
      ensures link.log == old(link.log) + (if old(isEnabled) then [] else EnableLog(env, old(link.calls)))
    {
      hide ResetLog, SyncLog, Wrap16, TxRing.InitRing, RxRing.InitRing, EnvOk, Acked, ResetCompletes, Outcomes;
      if isEnabled {
        return false;
      }
      if !env.pciOpens {
        return false;
      }
      var success := ResetController(link, CODE_RESET, env.reset);
      if !success {
        return false;
      }
      success := InitControllerChip(env.contextReady, env.chipAcks);
      if !success {
        return false;
      }
      StartController(env.txPhys, env.rxPhys, env.rxAnswers);
      isEnabled := true;
      return true;
    }
  }

  lemma ReclaimNothing(r: TxRing.TxState)
    requires TxRing.Shape(r)
    ensures TxRing.Reclaim(r, r.cons) == r
  {
  }

  /**
   A successful enabling sends three messages in this order, each under the number of its own
   call: wait 0 and wait 1 around the reset, wait 2 when the chip is configured, all with the
   code for a reset.
   */
  lemma EnableMessages(env: EnableEnv, calls: nat) returns (a: nat, b: nat, c: nat)
    requires EnableSucceeds(env, calls)
    ensures var log := EnableLog(env, calls);
            && a < b < c < |log|
            && log[a] == ShMemWrite(0x4, 0x0101_0000 + (calls + 1) % 0x1_0000)
            && log[b] == ShMemWrite(0x4, 0x0102_0000 + (calls + 2) % 0x1_0000)
            && log[c] == ShMemWrite(0x4, 0x0103_0000 + (calls + 3) % 0x1_0000)
            && (forall i | c < i < |log| :: log[i].ShMemRead? || log[i] == ShMemWrite(0x4, 0x0503_0000 + (calls + 3) % 0x1_0000))
  {
    hide ResetLog, ResetSucceeds, SyncLog, FirstPhase, SecondPhase, QuiesceLog;
    var seq0, seq1, seq2 := Wrap16(calls + 1), Wrap16(calls + 2), Wrap16(calls + 3);
    var j, m := SuccessfulResetOrder(env.reset, CODE_RESET, seq0, seq1);
    FirstAndSecond(ResetLog(env.reset, CODE_RESET, seq0, seq1), QuiesceLog(env.reset), seq0, seq1, j, m);
    var n := HandshakeAccesses(Wait2(CODE_RESET), seq2, env.chipAcks);
    a, b, c := |QuiesceLog(env.reset)|, m, |ResetLog(env.reset, CODE_RESET, seq0, seq1)|;
  }

  lemma FirstAndSecond(log: seq<Io>, quiet: seq<Io>, seq0: U16, seq1: U16, j: nat, m: nat)
    requires FirstPhase(log, quiet, CODE_RESET, seq0, j) && SecondPhase(log, CODE_RESET, seq1, m) && j + 3 < m
    ensures |quiet| < m < |log|
    ensures log[|quiet|] == ShMemWrite(0x4, 0x0101_0000 + seq0) && log[m] == ShMemWrite(0x4, 0x0102_0000 + seq1)
  {
  }

  // ----- The step system does the same -----

  /** The controller's fields in a state of the step system; before enabling both rings are zero. */
  function View(s: System): (f: Fields)
    requires DriverSystem.Shape(s)
    ensures TxRing.Shape(f.tx) && RxRing.Shape(f.rx)
  {
    if s.rings.Some?
    then Fields(s.isEnabled, s.calls, s.lastStatusIndex, s.rings.value.tx.ring, s.rings.value.rx.ring)
    else Fields(s.isEnabled, s.calls, s.lastStatusIndex, TxSystem.ZeroRing(), RxSystem.ZeroRing())
  }

  /** Enabling is one step of the step system, in every state. */
  lemma EnableSimulates(s: System, env: EnableEnv, maxLength: U16)
    requires DriverSystem.Shape(s)
    ensures View(Step(s, Enable(env), maxLength)) == Enabled(View(s), env)
    ensures Step(s, Enable(env), maxLength).inits > s.inits <==> !s.isEnabled && EnableSucceeds(env, s.calls)
  {
    hide EnableSucceeds, EnableHandshakes, RxRing.InitRing;
  }

  /** So is sending, with the status the step system reports. */
  lemma OutputSimulates(s: System, packet: TxRing.Packet, maxLength: U16)
    requires DriverSystem.Shape(s)
    ensures (View(Step(s, Output(packet), maxLength)), OutputStatus(s, packet)) == Sent(View(s), packet)
  {
    if s.isEnabled {
      RingsOfStep(s.rings.value, Output(packet), maxLength);
    }
  }

  /** What the three reads of an interrupt return while the step system runs through it. */
  ghost predicate ReadsOf(s: System, hw1: seq<Event>, status: StatusReads, env: RxRing.RxEnv, maxLength: U16)
    requires DriverSystem.Shape(s)
  {
    s.isEnabled ==>
      && status.txRaw == s.rings.value.tx.rawCons
      && var s1 := BeforeReceive(s, hw1, maxLength);
         s1.rings.Some? && status.rxRaw == s1.rings.value.rx.rawCons && env.maxLength == maxLength && env.mem == s1.rings.value.rx.mem
  }

  /**
   An interrupt is the three driver steps of the step system, whatever the hardware does
   between its reads of the status block.
   */
  lemma InterruptSimulates(s: System, hw1: seq<Event>, hw2: seq<Event>, status: StatusReads, env: RxRing.RxEnv, maxLength: U16)
    requires DriverSystem.Shape(s) && OnlyHardware(hw1) && OnlyHardware(hw2)
    requires !View(s).rx.faulted && ReadsOf(s, hw1, status, env, maxLength)
    ensures View(AfterHandler(s, hw1, env.answers, hw2, status.index, maxLength)) == Interrupted(View(s), status, env)
  {
    hide RunFrom, OnlyHardware, TxRing.Reclaim, RxRing.HandleInterrupt, Normalize, InCycle, RxSystem.Obtained;
    var a := Step(s, TxInterrupt, maxLength);
    var b := BeforeReceive(s, hw1, maxLength);
    var c := Step(b, RxInterrupt(env.answers), maxLength);
    HardwareInvisible(a, hw1, maxLength);
    HardwareInvisible(c, hw2, maxLength);
    if s.isEnabled {
      RingsOfStep(s.rings.value, TxInterrupt, maxLength);
      RingsOfStep(b.rings.value, RxInterrupt(env.answers), maxLength);
    }
  }

  /**
   The handler's precondition holds before enabling, and after it in every state of every run
   in which no failed allocation is among the first refills, as many as succeeded: right after
   enabling, for ever if the ring could not be filled, while refills succeed, and after any
   failures that no success follows.
   */
  lemma HandlerMayRun(trace: seq<Event>, maxLength: U16)
    requires Enabling(trace, maxLength).Some? ==>
               var env := Enabling(trace, maxLength).value;
               RxStale.AllServe(RxLedger.Refills(env.rxPhys, env.rxAnswers, RxTrace(trace, maxLength), maxLength), RxStale.Occupied)
    ensures !View(Run(trace, maxLength)).rx.faulted
  {
    hide Run, Enabling, TxTrace, RxTrace, SentTooEarly, TxTheorems.After, RxSystem.Init, RxSystem.Run, RxLedger.Refills,
         RxStale.AllServe;
    LifecycleHolds(trace, maxLength);
    if Enabling(trace, maxLength).Some? {
      var env := Enabling(trace, maxLength).value;
      RxStale.Unfaulted(env.rxPhys, env.rxAnswers, RxTrace(trace, maxLength), maxLength);
    }
  }
}
