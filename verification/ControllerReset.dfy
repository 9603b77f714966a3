/** The two-phase handshake around a controller reset. */
module ControllerReset {
  import opened Machine
  import opened FirmwareLink

  /** A driver message code; the data and sequence fields are zero. */
  type ResetCode = c: U32 | c % 0x100_0000 == 0 witness 0

  const MISC_ENABLE_CLR_BITS: U32 := 0x0814
  const DMA_BLOCKS: U32 := 0x040a_0010
  const MISC_NEW_CORE_CTL: U32 := 0x08c8
  const CORE_CTL_DMA_ENABLE := 0x1_0000
  const MISC_ID: U32 := 0x0808

  /**
   What the hardware answers during one reset; `enabled`, `id` and `command` are read and
   not used.
   */
  datatype ResetEnv = ResetEnv(
    is5709: bool,
    enabled: U32,
    coreCtl: U32,
    acks0: seq<U32>,
    id: U32,
    command: U32,
    config: seq<U32>,
    swap: U32,
    acks1: seq<U32>)

  ghost predicate EnvOk(env: ResetEnv) {
    |env.acks0| == 1000 && |env.config| == 10 && |env.acks1| == 1000
  }

  function WithoutDma(coreCtl: U32): U32 {
    if coreCtl / CORE_CTL_DMA_ENABLE % 2 == 1 then coreCtl - CORE_CTL_DMA_ENABLE else coreCtl
  }

  /** The DMA blocks are switched off before anything else. */
  function QuiesceLog(env: ResetEnv): seq<Io> {
    [RegWrite(MISC_ENABLE_CLR_BITS, DMA_BLOCKS), RegRead(MISC_ENABLE_CLR_BITS, env.enabled)]
    + (if env.is5709
       then [RegRead(MISC_NEW_CORE_CTL, env.coreCtl), RegWrite(MISC_NEW_CORE_CTL, WithoutDma(env.coreCtl))]
       else [])
  }

  function ResetCommandLog(env: ResetEnv): seq<Io> {
    if env.is5709 then
      [RegWrite(MISC_COMMAND, MISC_COMMAND_SW_RESET),
       RegRead(MISC_COMMAND, env.command),
       ConfigWrite(PCICFG_MISC_CONFIG, REG_WINDOW_ENA + TARGET_MB_WORD_SWAP)]
    else
      [RegWrite(PCICFG_MISC_CONFIG, CORE_RST_REQ + REG_WINDOW_ENA + TARGET_MB_WORD_SWAP)]
      + RegReadLog(PCICFG_MISC_CONFIG, Polled(env.config, ResetQuiet))
  }

  predicate ResetCompletes(env: ResetEnv) {
    env.is5709 || exists i | 0 <= i < |env.config| :: ResetQuiet(env.config[i])
  }

  /** The messages that announce the reset and its completion. */
  function Wait0(code: ResetCode): Message {
    MSG_DATA_WAIT0 + code
  }

  function Wait1(code: ResetCode): Message {
    MSG_DATA_WAIT1 + code
  }

  /** The signature, the reset itself and the byte order check. */
  function ResetBody(env: ResetEnv): seq<Io> {
    [ShMemWrite(DRV_RESET_SIGNATURE, DRV_RESET_SIGNATURE_MAGIC), RegRead(MISC_ID, env.id)] + ResetCommandLog(env)
    + (if ResetCompletes(env) then [RegRead(PCI_SWAP_DIAG0, env.swap)] else [])
  }

  /** What one reset does, when its two handshakes run under `seq0` and `seq1`. */
  function ResetLog(env: ResetEnv, code: ResetCode, seq0: U16, seq1: U16): seq<Io> {
    QuiesceLog(env)
    + SyncLog(Wait0(code), seq0, env.acks0)
    + (if Acked(env.acks0, seq0) then ResetBody(env) else [])
    + (if Acked(env.acks0, seq0) && ResetCompletes(env) && env.swap == SWAP_EXPECTED
       then SyncLog(Wait1(code), seq1, env.acks1) else [])
  }

  predicate ResetSucceeds(env: ResetEnv, seq0: U16, seq1: U16) {
    Acked(env.acks0, seq0) && ResetCompletes(env) && env.swap == SWAP_EXPECTED && Acked(env.acks1, seq1)
  }

  /** How many handshakes a reset makes: the second needs the first and the reset itself. */
  function HandshakesOf(env: ResetEnv, seq0: U16): nat {
    if Acked(env.acks0, seq0) && ResetCompletes(env) && env.swap == SWAP_EXPECTED then 2 else 1
  }

  method ResetController(link: Link, resetCode: ResetCode, env: ResetEnv) returns (success: bool)
    requires link.Valid() && EnvOk(env)
    modifies link
    ensures link.Valid()
    ensures var seq0, seq1 := Wrap16(old(link.calls) + 1), Wrap16(old(link.calls) + 2);
            && success == ResetSucceeds(env, seq0, seq1)
            && link.log == old(link.log) + ResetLog(env, resetCode, seq0, seq1)
    ensures link.calls == old(link.calls) + HandshakesOf(env, Wrap16(old(link.calls) + 1))
  {
    hide SyncLog, Acked, ResetBody, ResetCompletes, WithoutDma, Outcomes;
    link.log := link.log + [RegWrite(MISC_ENABLE_CLR_BITS, DMA_BLOCKS), RegRead(MISC_ENABLE_CLR_BITS, env.enabled)];
    if env.is5709 {
      var reg := env.coreCtl;
      link.log := link.log + [RegRead(MISC_NEW_CORE_CTL, reg), RegWrite(MISC_NEW_CORE_CTL, WithoutDma(reg))];
    }
    var ok := link.FirmwareSync(Wait0(resetCode), env.acks0);
    if !ok {
      return false;
    }
    ok := ResetCore(link, env);
    if !ok {
      return false;
    }
    success := link.FirmwareSync(Wait1(resetCode), env.acks1);
  }

  /** The steps between the two handshakes. */
  method ResetCore(link: Link, env: ResetEnv) returns (ok: bool)
    requires link.Valid() && EnvOk(env)
    modifies link`log
    ensures link.Valid()
    ensures ok == (ResetCompletes(env) && env.swap == SWAP_EXPECTED)
    ensures link.log == old(link.log) + ResetBody(env)
  {
    hide ResetCommandLog, ResetCompletes, Outcomes;
    link.log := link.log + [ShMemWrite(DRV_RESET_SIGNATURE, DRV_RESET_SIGNATURE_MAGIC), RegRead(MISC_ID, env.id)];
    var done := StartReset(link, env);
    if !done {
      return false;
    }
    link.log := link.log + [RegRead(PCI_SWAP_DIAG0, env.swap)];
    return env.swap == SWAP_EXPECTED;
  }

  /** The 5709 is reset by command; the others request it and are polled until it is over. */
  method StartReset(link: Link, env: ResetEnv) returns (done: bool)
    requires link.Valid() && EnvOk(env)
    modifies link`log
    ensures link.Valid()
    ensures done == ResetCompletes(env)
    ensures link.log == old(link.log) + ResetCommandLog(env)
  {
    hide Polled, RegReadLog, Outcomes, ResetQuiet;
    if env.is5709 {
      link.log := link.log + [RegWrite(MISC_COMMAND, MISC_COMMAND_SW_RESET), RegRead(MISC_COMMAND, env.command),
                              ConfigWrite(PCICFG_MISC_CONFIG, REG_WINDOW_ENA + TARGET_MB_WORD_SWAP)];
      return true;
    }
    link.log := link.log + [RegWrite(PCICFG_MISC_CONFIG, CORE_RST_REQ + REG_WINDOW_ENA + TARGET_MB_WORD_SWAP)];
    done := link.PollReset(env.config);
  }

  // ----- What the log shows -----

  /** The register writes that start a reset: the command, or any that sets the request bit. */
  predicate StartsReset(io: Io) {
    io.RegWrite? && (io == RegWrite(0x800, 0x10) || (io.offset == 0x68 && io.value / 0x100 % 2 == 1))
  }

  /** The word of a driver message: code, data and sequence number. */
  predicate IsMessage(io: Io, code: ResetCode, data: U8, seqNo: U16) {
    io == ShMemWrite(0x4, code + data * 0x1_0000 + seqNo)
  }

  predicate IsAck(io: Io, seqNo: U16) {
    io.ShMemRead? && io.offset == 0x8 && io.value % 0x1_0000 == seqNo
  }

  /** An acknowledged handshake writes its message first and reads its acknowledgement last. */
  lemma SyncLogEnds(msg: Message, seqNo: U16, seen: seq<U32>)
    ensures var log := SyncLog(msg, seqNo, seen);
            && |log| >= 1 && log[0] == ShMemWrite(0x4, msg + seqNo)
            && (Acked(seen, seqNo) ==> |log| >= 2 && IsAck(log[|log| - 1], seqNo))
            && (forall i | 0 <= i < |log| :: !log[i].RegWrite?)
  {
    hide SyncLog, Acked, IsAck;
    var n := HandshakeAccesses(msg, seqNo, seen);
    SyncLogNoRegisters(msg, seqNo, seen);
    AckRead(msg, seqNo, seen, n);
  }

  lemma SyncLogNoRegisters(msg: Message, seqNo: U16, seen: seq<U32>)
    ensures var log := SyncLog(msg, seqNo, seen); forall i | 0 <= i < |log| :: !log[i].RegWrite?
  {
    hide Polled, Acked, Word, TimeoutWord, DataField;
  }

  lemma AckRead(msg: Message, seqNo: U16, seen: seq<U32>, n: nat)
    requires n < |seen| ==> seen[n] % 0x1_0000 == seqNo
    ensures n < |seen| ==> IsAck(ShMemRead(0x8, seen[n]), seqNo)
  {
  }

  lemma QuiesceIsQuiet(env: ResetEnv)
    ensures forall i | 0 <= i < |QuiesceLog(env)| :: !StartsReset(QuiesceLog(env)[i])
  {
    hide WithoutDma;
  }

  lemma BodyStarts(env: ResetEnv)
    ensures var body := ResetBody(env);
            && |body| >= 3
            && body[0] == ShMemWrite(0x0, 0x4841_564b)
            && StartsReset(body[2])
            && (forall i | 0 <= i < |body| && i != 2 :: !StartsReset(body[i]))
  {
    hide Polled;
  }

  /**
   The log opens with `quiet`, then the first message, acknowledged at `j`, the signature and
   a reset at `j + 3`.
   */
  ghost predicate FirstPhase(log: seq<Io>, quiet: seq<Io>, code: ResetCode, seq0: U16, j: nat) {
    && |quiet| < j && j + 3 < |log|
    && log[..|quiet|] == quiet
    && IsMessage(log[|quiet|], code, 1, seq0)
    && IsAck(log[j], seq0)
    && log[j + 1] == ShMemWrite(0x0, 0x4841_564b)
    && StartsReset(log[j + 3])
  }

  /** The log closes with a second message at `m` and, as its last access, the acknowledgement. */
  ghost predicate SecondPhase(log: seq<Io>, code: ResetCode, seq1: U16, m: nat) {
    && m < |log| - 1
    && IsMessage(log[m], code, 2, seq1)
    && IsAck(log[|log| - 1], seq1)
  }

  lemma PhaseFromParts(quiet: seq<Io>, first: seq<Io>, body: seq<Io>, rest: seq<Io>, code: ResetCode, seq0: U16)
    requires |first| >= 2 && IsMessage(first[0], code, 1, seq0)
    requires IsAck(first[|first| - 1], seq0)
    requires |body| >= 3 && body[0] == ShMemWrite(0x0, 0x4841_564b) && StartsReset(body[2])
    ensures FirstPhase(quiet + first + body + rest, quiet, code, seq0, |quiet| + |first| - 1)
  {
    hide IsAck, StartsReset, IsMessage;
    var log, n := quiet + first + body + rest, |quiet| + |first|;
    assert log[n] == body[0] && log[n + 2] == body[2] && log[n - 1] == first[|first| - 1];
    assert log[..|quiet|] == quiet;
  }

  lemma OnlyResetInBody(first: seq<Io>, body: seq<Io>, rest: seq<Io>, l: nat)
    requires l < |first + body + rest| && StartsReset((first + body + rest)[l])
    requires forall i | 0 <= i < |first| :: !StartsReset(first[i])
    requires forall i | 0 <= i < |body| && i != 2 :: !StartsReset(body[i])
    requires forall i | 0 <= i < |rest| :: !StartsReset(rest[i])
    ensures l == |first| + 2 && |body| >= 3
  {
    hide StartsReset;
    assert forall i | |first| <= i < |first| + |body| :: (first + body + rest)[i] == body[i - |first|];
  }

  /**
   A reset is started only after the DMA blocks were switched off, the first message was
   acknowledged and the signature written, whatever happens afterwards. It has one place in
   the log, so it is started at most once.
   */
  lemma ResetOnlyAfterAck(env: ResetEnv, code: ResetCode, seq0: U16, seq1: U16, l: nat)
    requires l < |ResetLog(env, code, seq0, seq1)| && StartsReset(ResetLog(env, code, seq0, seq1)[l])
    ensures l == |QuiesceLog(env)| + |SyncLog(Wait0(code), seq0, env.acks0)| + 2
    ensures FirstPhase(ResetLog(env, code, seq0, seq1), QuiesceLog(env), code, seq0, l - 3)
  {
    var quiet, first, last := QuiesceLog(env), SyncLog(Wait0(code), seq0, env.acks0), SyncLog(Wait1(code), seq1, env.acks1);
    SyncLogEnds(Wait0(code), seq0, env.acks0);
    SyncLogEnds(Wait1(code), seq1, env.acks1);
    BodyStarts(env);
    QuiesceIsQuiet(env);
    hide SyncLog, Acked, ResetBody, ResetCompletes, IsAck, FirstPhase, QuiesceLog;
    var body := if Acked(env.acks0, seq0) then ResetBody(env) else [];
    var rest := if Acked(env.acks0, seq0) && ResetCompletes(env) && env.swap == SWAP_EXPECTED then last else [];
    OnlyResetInBody(quiet + first, body, rest, l);
    PhaseFromParts(quiet, first, body, rest, code, seq0);
  }

  /**
   On every outcome the log opens with switching off the four DMA blocks, bits 4, 17, 19 and
   26, and on the 5709 with clearing bit 16, and no other, of the core control register as
   read. The first message follows.
   */
  lemma DmaOffFirst(env: ResetEnv, code: ResetCode, seq0: U16, seq1: U16)
    ensures var log := ResetLog(env, code, seq0, seq1); var first := if env.is5709 then 4 else 2;
            && |log| > first
            && log[0] == RegWrite(0x814, 0x10 + 0x2_0000 + 0x8_0000 + 0x400_0000)
            && log[1] == RegRead(0x814, env.enabled)
            && (env.is5709 ==>
                  && log[2] == RegRead(0x8c8, env.coreCtl)
                  && log[3].RegWrite? && log[3].offset == 0x8c8
                  && var read, written := env.coreCtl, log[3].value;
                     written / 0x1_0000 % 2 == 0 && written % 0x1_0000 == read % 0x1_0000 && written / 0x2_0000 == read / 0x2_0000)
            && IsMessage(log[first], code, 1, seq0)
  {
    hide SyncLog, ResetBody, Acked, ResetCompletes, WithoutDma;
    SyncLogEnds(Wait0(code), seq0, env.acks0);
    OnlyDmaCleared(env.coreCtl);
  }

  lemma OnlyDmaCleared(reg: U32)
    ensures var y := WithoutDma(reg); y / 0x1_0000 % 2 == 0 && y % 0x1_0000 == reg % 0x1_0000 && y / 0x2_0000 == reg / 0x2_0000
  {
    var q := reg / 0x1_0000;
    assert reg / 0x2_0000 == q / 2;
    if q % 2 == 1 {
      assert reg - 0x1_0000 == (q - 1) * 0x1_0000 + reg % 0x1_0000;
      assert (reg - 0x1_0000) / 0x1_0000 == q - 1;
    }
  }

  /**
   Between its handshakes a reset makes exactly these accesses: the signature, the reset by
   command or by request, on the request polls up to the first that shows both bits clear,
   and, unless there is none, the byte order check.
   */
  lemma ResetAccesses(env: ResetEnv) returns (n: nat)
    ensures n <= |env.config| && forall i | 0 <= i < n :: env.config[i] / 0x100 % 2 == 1 || env.config[i] / 0x200 % 2 == 1
    ensures n < |env.config| ==> env.config[n] / 0x100 % 2 == 0 && env.config[n] / 0x200 % 2 == 0
    ensures ResetCompletes(env) <==> env.is5709 || n < |env.config|
    ensures var body := ResetBody(env); var polled := if n < |env.config| then n + 1 else n;
            if env.is5709 then
              body == [ShMemWrite(0x0, 0x4841_564b), RegRead(0x808, env.id), RegWrite(0x800, 0x10),
                       RegRead(0x800, env.command), ConfigWrite(0x68, 0x80 + 0x8), RegRead(0x418, env.swap)]
            else
              && |body| == 3 + polled + (if n < |env.config| then 1 else 0)
              && body[..3] == [ShMemWrite(0x0, 0x4841_564b), RegRead(0x808, env.id), RegWrite(0x68, 0x100 + 0x80 + 0x8)]
              && (forall i | 0 <= i < polled :: body[3 + i] == RegRead(0x68, env.config[i]))
              && (n < |env.config| ==> body[3 + polled] == RegRead(0x418, env.swap))
  {
    hide RegReadLog, Polled, ResetQuiet, ResetBody;
    n := ResetPolls(env.config);
    if env.is5709 {
      CommandBody(env);
    } else {
      RequestBody(env);
    }
  }

  lemma CommandBody(env: ResetEnv)
    requires env.is5709
    ensures ResetBody(env) == [ShMemWrite(0x0, 0x4841_564b), RegRead(0x808, env.id), RegWrite(0x800, 0x10),
                               RegRead(0x800, env.command), ConfigWrite(0x68, 0x80 + 0x8), RegRead(0x418, env.swap)]
  {
  }

  lemma RequestBody(env: ResetEnv)
    requires !env.is5709
    ensures ResetBody(env) ==
            [ShMemWrite(0x0, 0x4841_564b), RegRead(0x808, env.id), RegWrite(0x68, 0x100 + 0x80 + 0x8)]
            + RegReadLog(PCICFG_MISC_CONFIG, Polled(env.config, ResetQuiet))
            + (if exists i | 0 <= i < |env.config| :: ResetQuiet(env.config[i]) then [RegRead(0x418, env.swap)] else [])
  {
    hide RegReadLog, Polled, ResetQuiet;
  }

  /** Some value read shows the sequence number in its low half. */
  ghost predicate Shown(seen: seq<U32>, seqNo: U16) {
    exists i :: 0 <= i < |seen| && seen[i] % 0x1_0000 == seqNo
  }

  /** On the older chips some value read shows both reset bits clear. */
  ghost predicate Finished(env: ResetEnv) {
    env.is5709 || exists i :: 0 <= i < |env.config| && env.config[i] / 0x100 % 2 == 0 && env.config[i] / 0x200 % 2 == 0
  }

  /**
   A reset goes as far as its answers allow: a first message not acknowledged ends it before
   the reset, a reset that does not finish or a wrong byte order before the second message.
   */
  lemma ResetOutcome(env: ResetEnv, code: ResetCode, seq0: U16, seq1: U16)
    ensures var half := Shown(env.acks0, seq0) && Finished(env) && env.swap == 0x0102_0304;
            && (ResetSucceeds(env, seq0, seq1) <==> half && Shown(env.acks1, seq1))
            && HandshakesOf(env, seq0) == (if half then 2 else 1)
            && ResetLog(env, code, seq0, seq1) ==
               QuiesceLog(env) + SyncLog(Wait0(code), seq0, env.acks0)
               + (if Shown(env.acks0, seq0) then ResetBody(env) else [])
               + (if half then SyncLog(Wait1(code), seq1, env.acks1) else [])
  {
    hide SyncLog, Acked, ResetBody, ResetCompletes, QuiesceLog;
    var a := HandshakeAccesses(Wait0(code), seq0, env.acks0);
    var b := HandshakeAccesses(Wait1(code), seq1, env.acks1);
    var n := ResetAccesses(env);
  }

  /**
   A successful reset leaves this order in the log: DMA off, the first message, its
   acknowledgement, the signature, the reset, the second message under its own sequence
   number, and as the last access of all that message's acknowledgement.
   */
  lemma SuccessfulResetOrder(env: ResetEnv, code: ResetCode, seq0: U16, seq1: U16) returns (j: nat, m: nat)
    requires ResetSucceeds(env, seq0, seq1)
    ensures j + 3 < m
    ensures FirstPhase(ResetLog(env, code, seq0, seq1), QuiesceLog(env), code, seq0, j)
    ensures SecondPhase(ResetLog(env, code, seq0, seq1), code, seq1, m)
  {
    hide SyncLog, Acked, ResetBody, ResetCompletes, StartsReset, IsAck, FirstPhase, SecondPhase, ResetLog, QuiesceLog;
    var quiet, first, last := QuiesceLog(env), SyncLog(Wait0(code), seq0, env.acks0), SyncLog(Wait1(code), seq1, env.acks1);
    var body := ResetBody(env);
    SyncLogEnds(Wait0(code), seq0, env.acks0);
    SyncLogEnds(Wait1(code), seq1, env.acks1);
    BodyStarts(env);
    BodyLength(env);
    SuccessfulParts(env, code, seq0, seq1);
    PhaseFromParts(quiet, first, body, last, code, seq0);
    ClosingPhase(quiet + first + body, last, code, seq1);
    j, m := |quiet| + |first| - 1, |quiet + first + body|;
  }

  lemma SuccessfulParts(env: ResetEnv, code: ResetCode, seq0: U16, seq1: U16)
    requires ResetSucceeds(env, seq0, seq1)
    ensures ResetLog(env, code, seq0, seq1) ==
            QuiesceLog(env) + SyncLog(Wait0(code), seq0, env.acks0) + ResetBody(env) + SyncLog(Wait1(code), seq1, env.acks1)
  {
    hide SyncLog, Acked, ResetBody, ResetCompletes, QuiesceLog;
  }

  lemma ClosingPhase(before: seq<Io>, last: seq<Io>, code: ResetCode, seq1: U16)
    requires |last| >= 2 && IsMessage(last[0], code, 2, seq1) && IsAck(last[|last| - 1], seq1)
    ensures SecondPhase(before + last, code, seq1, |before|)
  {
    hide IsAck, IsMessage;
  }

  lemma BodyLength(env: ResetEnv)
    requires ResetCompletes(env)
    ensures |ResetBody(env)| >= 4
  {
    hide Polled;
  }
}
