/**
 The mailbox handshake with the boot firmware, and when its success can be trusted. Every
 access is recorded in an I/O log; the values read are parameters.
 */
module FirmwareLink {
  import opened Machine

  const ACK_POLLS := 1000
  const RESET_POLLS := 10

  const DRV_RESET_SIGNATURE: U32 := 0x0000_0000
  const DRV_RESET_SIGNATURE_MAGIC: U32 := 0x4841_564b
  const DRV_MB: U32 := 0x0000_0004
  const FW_MB: U32 := 0x0000_0008

  const MSG_CODE_FW_TIMEOUT: U32 := 0x0500_0000
  const MSG_DATA_WAIT0: U32 := 0x0001_0000
  const MSG_DATA_WAIT1: U32 := 0x0002_0000
  const MSG_DATA_WAIT2: U32 := 0x0003_0000

  const PCICFG_MISC_CONFIG: U32 := 0x0068
  const CORE_RST_REQ: U32 := 0x0100
  const REG_WINDOW_ENA: U32 := 0x0080
  const TARGET_MB_WORD_SWAP: U32 := 0x0008
  const PCI_SWAP_DIAG0: U32 := 0x0418
  const SWAP_EXPECTED: U32 := 0x0102_0304
  const MISC_COMMAND: U32 := 0x0800
  const MISC_COMMAND_SW_RESET: U32 := 0x0010

  /** One access to shared memory, to a register, or to PCI configuration space. */
  datatype Io =
    | ShMemWrite(offset: U32, value: U32)
    | ShMemRead(offset: U32, value: U32)
    | RegWrite(offset: U32, value: U32)
    | RegRead(offset: U32, value: U32)
    | ConfigWrite(offset: U32, value: U32)

  /** A message without its sequence number: code and data in the upper half. */
  type Message = m: U32 | m % TWO16 == 0 witness 0

  /** The word the driver writes: a message with its sequence number or-ed in. */
  function Word(msg: Message, seqNo: U16): U32 {
    msg + seqNo
  }

  /** The word keeps the code and the data of its message, in bits 24 to 31 and 16 to 23. */
  lemma WordFields(msg: Message, seqNo: U16)
    ensures SeqField(Word(msg, seqNo)) == seqNo
    ensures Word(msg, seqNo) % 0x1_0000 == seqNo
    ensures Word(msg, seqNo) / 0x1_0000 % 0x100 == msg / 0x1_0000 % 0x100
    ensures Word(msg, seqNo) / 0x100_0000 == msg / 0x100_0000
  {
  }

  function SeqField(word: U32): U16 {
    word % TWO16
  }

  function DataField(word: U32): U32 {
    word / TWO16 % 0x100 * TWO16
  }

  /** The same word with its code replaced by the time-out code. */
  function TimeoutWord(word: U32): U32 {
    word % 0x100_0000 + MSG_CODE_FW_TIMEOUT
  }

  /** The core reset request and busy bits are both clear. */
  predicate ResetQuiet(reg: U32) {
    reg / 0x100 % 4 == 0
  }

  /** The position of the first value that satisfies `stop`, or the length. */
  function First(seen: seq<U32>, stop: U32 -> bool): (n: nat)
    ensures n <= |seen|
    ensures forall i | 0 <= i < n :: !stop(seen[i])
    ensures n < |seen| ==> stop(seen[n])
  {
    if seen == [] || stop(seen[0]) then 0 else 1 + First(seen[1..], stop)
  }

  lemma {:induction false} FirstIs(seen: seq<U32>, stop: U32 -> bool, n: nat)
    requires n <= |seen| && (forall i | 0 <= i < n :: !stop(seen[i])) && (n < |seen| ==> stop(seen[n]))
    ensures First(seen, stop) == n
  {
    if n != 0 {
      FirstIs(seen[1..], stop, n - 1);
    }
  }

  /** The values a polling loop has seen: up to and including the first that satisfies `stop`. */
  function Polled(seen: seq<U32>, stop: U32 -> bool): seq<U32> {
    var n := First(seen, stop);
    if n < |seen| then seen[..n + 1] else seen
  }

  function Acks(seqNo: U16): U32 -> bool {
    (reg: U32) => SeqField(reg) == seqNo
  }

  predicate Acked(seen: seq<U32>, seqNo: U16) {
    exists i | 0 <= i < |seen| :: SeqField(seen[i]) == seqNo
  }

  lemma AckedIsFirst(seen: seq<U32>, seqNo: U16)
    ensures Acked(seen, seqNo) <==> First(seen, Acks(seqNo)) < |seen|
  {
    var n := First(seen, Acks(seqNo));
    if Acked(seen, seqNo) {
      var i :| 0 <= i < |seen| && SeqField(seen[i]) == seqNo;
      assert Acks(seqNo)(seen[i]);
    }
  }

  function ReadLog(offset: U32, seen: seq<U32>): (log: seq<Io>)
    ensures |log| == |seen|
  {
    seq(|seen|, i requires 0 <= i < |seen| => ShMemRead(offset, seen[i]))
  }

  /** The log of one handshake under sequence number `seqNo`. */
  function SyncLog(msg: Message, seqNo: U16, seen: seq<U32>): seq<Io> {
    [ShMemWrite(DRV_MB, Word(msg, seqNo))]
    + ReadLog(FW_MB, Polled(seen, Acks(seqNo)))
    + (if !Acked(seen, seqNo) && DataField(Word(msg, seqNo)) != MSG_DATA_WAIT0
       then [ShMemWrite(DRV_MB, TimeoutWord(Word(msg, seqNo)))] else [])
  }

  /** Giving up keeps the data and the sequence number of the message and changes only its code. */
  lemma TimeoutKeepsMessage(word: U32)
    ensures SeqField(TimeoutWord(word)) == SeqField(word)
    ensures DataField(TimeoutWord(word)) == DataField(word)
    ensures TimeoutWord(word) / 0x100_0000 * 0x100_0000 == MSG_CODE_FW_TIMEOUT
  {
    var low := word % 0x100_0000;
    assert word == word / 0x100_0000 * 0x100 * TWO16 + low;
    assert TimeoutWord(word) == 5 * 0x100 * TWO16 + low;
  }

  /** The log of a handshake acknowledged by the n-th read. */
  lemma SyncLogAcked(msg: Message, seqNo: U16, seen: seq<U32>, n: nat)
    requires n < |seen| && SeqField(seen[n]) == seqNo && forall j | 0 <= j < n :: SeqField(seen[j]) != seqNo
    ensures Acked(seen, seqNo)
    ensures SyncLog(msg, seqNo, seen) == [ShMemWrite(DRV_MB, Word(msg, seqNo))] + ReadLog(FW_MB, seen[..n + 1])
  {
    FirstIs(seen, Acks(seqNo), n);
  }

  lemma SyncLogTimeout(msg: Message, seqNo: U16, seen: seq<U32>)
    requires forall j | 0 <= j < |seen| :: SeqField(seen[j]) != seqNo
    ensures !Acked(seen, seqNo)
    ensures SyncLog(msg, seqNo, seen) ==
            [ShMemWrite(DRV_MB, Word(msg, seqNo))] + ReadLog(FW_MB, seen)
            + (if DataField(Word(msg, seqNo)) != MSG_DATA_WAIT0 then [ShMemWrite(DRV_MB, TimeoutWord(Word(msg, seqNo)))] else [])
  {
    FirstIs(seen, Acks(seqNo), |seen|);
  }

  /**
   Access by access, whatever the firmware shows: the word carries the message's code and data
   and the sequence number, the acknowledgement is read up to and including the first value
   whose low half is that number, and if none is, a time-out message follows unless the data
   is that of the first wait.
   */
  lemma HandshakeAccesses(msg: Message, seqNo: U16, seen: seq<U32>) returns (n: nat)
    ensures n <= |seen| && (forall i | 0 <= i < n :: seen[i] % 0x1_0000 != seqNo)
    ensures n < |seen| ==> seen[n] % 0x1_0000 == seqNo
    ensures Acked(seen, seqNo) <==> n < |seen|
    ensures var log, word := SyncLog(msg, seqNo, seen), msg + seqNo;
            var polled := if n < |seen| then n + 1 else n;
            var gaveUp := n == |seen| && msg / 0x1_0000 % 0x100 != 1;
            && word % 0x1_0000 == seqNo && word / 0x1_0000 == msg / 0x1_0000
            && |log| == 1 + polled + (if gaveUp then 1 else 0)
            && log[0] == ShMemWrite(0x4, word)
            && (forall i | 0 < i <= polled :: log[i] == ShMemRead(0x8, seen[i - 1]))
            && (gaveUp ==> log[1 + polled] == ShMemWrite(0x4, 0x0500_0000 + msg % 0x100_0000 + seqNo))
  {
    n := First(seen, Acks(seqNo));
    AckedIsFirst(seen, seqNo);
    WordFields(msg, seqNo);
    WordArithmetic(msg, seqNo);
  }

  lemma WordArithmetic(msg: Message, seqNo: U16)
    ensures (msg + seqNo) / 0x1_0000 == msg / 0x1_0000
    ensures (msg + seqNo) % 0x100_0000 == msg % 0x100_0000 + seqNo
    ensures DataField(Word(msg, seqNo)) == MSG_DATA_WAIT0 <==> msg / 0x1_0000 % 0x100 == 1
  {
    var data := msg / 0x1_0000;
    assert msg + seqNo == data * 0x1_0000 + seqNo;
    assert msg + seqNo == data / 0x100 * 0x100_0000 + (data % 0x100 * 0x1_0000 + seqNo);
  }

  /** The reset is over when the request bit and the busy bit, 8 and 9, are both clear. */
  lemma QuietBits(reg: U32)
    ensures ResetQuiet(reg) <==> reg / 0x100 % 2 == 0 && reg / 0x200 % 2 == 0
  {
    HalfAgain(reg);
    TwoBits(reg / 0x100);
  }

  lemma HalfAgain(reg: U32)
    ensures reg / 0x200 == reg / 0x100 / 2
  {
  }

  lemma TwoBits(q: nat)
    ensures q % 4 == 0 <==> q % 2 == 0 && q / 2 % 2 == 0
  {
    var h := q / 2;
    assert q == 4 * (h / 2) + 2 * (h % 2) + q % 2;
  }

  lemma QuietSome(config: seq<U32>)
    ensures (exists i | 0 <= i < |config| :: ResetQuiet(config[i])) <==>
            exists i | 0 <= i < |config| :: config[i] / 0x100 % 2 == 0 && config[i] / 0x200 % 2 == 0
  {
    hide ResetQuiet;
    forall i | 0 <= i < |config|
      ensures ResetQuiet(config[i]) <==> config[i] / 0x100 % 2 == 0 && config[i] / 0x200 % 2 == 0
    {
      QuietBits(config[i]);
    }
  }

  /** The reset register is read up to and including the first value with both bits clear. */
  lemma ResetPolls(config: seq<U32>) returns (n: nat)
    ensures n <= |config| && (forall i | 0 <= i < n :: config[i] / 0x100 % 2 == 1 || config[i] / 0x200 % 2 == 1)
    ensures n < |config| ==> config[n] / 0x100 % 2 == 0 && config[n] / 0x200 % 2 == 0
    ensures (exists i | 0 <= i < |config| :: ResetQuiet(config[i])) <==> n < |config|
    ensures var log := RegReadLog(PCICFG_MISC_CONFIG, Polled(config, ResetQuiet));
            && |log| == (if n < |config| then n + 1 else n)
            && forall i | 0 <= i < |log| :: log[i] == RegRead(0x68, config[i])
  {
    hide ResetQuiet;
    n := First(config, ResetQuiet);
    forall i | 0 <= i < |config|
      ensures ResetQuiet(config[i]) <==> config[i] / 0x100 % 2 == 0 && config[i] / 0x200 % 2 == 0
    {
      QuietBits(config[i]);
    }
  }

  lemma ReadLogSnoc(offset: U32, seen: seq<U32>, n: nat)
    requires n < |seen|
    ensures ReadLog(offset, seen[..n + 1]) == ReadLog(offset, seen[..n]) + [ShMemRead(offset, seen[n])]
  {
  }

  function RegReadLog(offset: U32, seen: seq<U32>): (log: seq<Io>)
    ensures |log| == |seen|
  {
    seq(|seen|, i requires 0 <= i < |seen| => RegRead(offset, seen[i]))
  }

  // ----- Which message an acknowledgement names -----

  /**
   Call number `n` polls an acknowledgement register in which the firmware has put the
   numbers `acks` of messages already sent, reduced to 16 bits. The call succeeds exactly
   when some polled number agrees with `n` modulo 65536; while every one of them belongs to
   the latest 65536 calls, that is exactly when the current message was acknowledged.
   */
  lemma AckNamesCurrent(n: nat, seen: seq<U32>, acks: seq<nat>)
    requires |acks| == |seen| && forall i | 0 <= i < |seen| :: acks[i] <= n && SeqField(seen[i]) == Wrap16(acks[i])
    ensures Acked(seen, Wrap16(n)) <==> exists i | 0 <= i < |acks| :: Wrap16(n - acks[i]) == 0
    ensures (forall i | 0 <= i < |acks| :: n < acks[i] + TWO16) ==> (Acked(seen, Wrap16(n)) <==> n in acks)
  {
    hide SeqField, Wrap16;
    forall i | 0 <= i < |acks|
      ensures SeqField(seen[i]) == Wrap16(n) <==> Wrap16(n - acks[i]) == 0
      ensures n < acks[i] + TWO16 ==> (SeqField(seen[i]) == Wrap16(n) <==> acks[i] == n)
    {
      SameResidue(acks[i], n);
    }
    if i :| 0 <= i < |acks| && Wrap16(n - acks[i]) == 0 {
      assert SeqField(seen[i]) == Wrap16(n);
    }
  }

  lemma SameResidue(m: nat, n: nat)
    requires m <= n
    ensures Wrap16(m) == Wrap16(n) <==> Wrap16(n - m) == 0
    ensures n < m + TWO16 ==> (Wrap16(m) == Wrap16(n) <==> m == n)
  {
    var p, q := m / TWO16, n / TWO16;
    assert n - m == (q - p) * TWO16 + (Wrap16(n) - Wrap16(m));
  }

  /**
   What the polls of each call showed, as numbers of messages: call `k` is number `k + 1` and
   0 stands for no message. The firmware acknowledges only messages already sent and never
   goes back.
   */
  ghost predicate History(shown: seq<seq<nat>>) {
    && (forall k, i | 0 <= k < |shown| && 0 <= i < |shown[k]| :: shown[k][i] <= k + 1)
    && (forall k, i, l, j | 0 <= k < l < |shown| && 0 <= i < |shown[k]| && 0 <= j < |shown[l]| :: shown[k][i] <= shown[l][j])
  }

  /** The values polled carry those numbers, reduced to 16 bits. */
  ghost predicate Shows(polls: seq<seq<U32>>, shown: seq<seq<nat>>) {
    && |polls| == |shown|
    && forall k | 0 <= k < |polls| :: ShowsOnce(polls[k], shown[k])
  }

  ghost predicate ShowsOnce(seen: seq<U32>, numbers: seq<nat>) {
    |seen| == |numbers| == ACK_POLLS && forall i | 0 <= i < |seen| :: SeqField(seen[i]) == Wrap16(numbers[i])
  }

  /** What the calls returned. */
  ghost predicate Outcomes(polls: seq<seq<U32>>, outcomes: seq<bool>) {
    |polls| == |outcomes| && forall k | 0 <= k < |polls| :: outcomes[k] == Acked(polls[k], Wrap16(k + 1))
  }

  /** Every call that succeeds is preceded by a success among the 65535 calls before it. */
  ghost predicate Regular(outcomes: seq<bool>) {
    forall k | TWO16 - 1 <= k < |outcomes| && outcomes[k] :: exists j :: k - (TWO16 - 1) <= j < k && outcomes[j]
  }

  /** Calls succeeded exactly when their own message was acknowledged while they polled. */
  ghost predicate Truthful(shown: seq<seq<nat>>, outcomes: seq<bool>) {
    |shown| == |outcomes| && forall k | 0 <= k < |shown| :: outcomes[k] <==> k + 1 in shown[k]
  }

  lemma OutcomeOf(seen: seq<U32>, numbers: seq<nat>, n: nat)
    requires ShowsOnce(seen, numbers) && forall i | 0 <= i < |numbers| :: numbers[i] <= n
    ensures Acked(seen, Wrap16(n)) <==> exists i :: 0 <= i < |numbers| && Wrap16(n - numbers[i]) == 0
    ensures n in numbers ==> Acked(seen, Wrap16(n))
  {
    hide Acked, SeqField;
    AckNamesCurrent(n, seen, numbers);
    if n in numbers {
      var i :| 0 <= i < |numbers| && numbers[i] == n;
      assert Wrap16(n - numbers[i]) == 0;
    }
  }

  /** With regular outcomes no success is due to a stale acknowledgement. */
  lemma {:induction false} SuccessIsTruthful(polls: seq<seq<U32>>, shown: seq<seq<nat>>, outcomes: seq<bool>, k: nat)
    requires History(shown) && Shows(polls, shown) && Outcomes(polls, outcomes) && Regular(outcomes) && k < |outcomes|
    ensures outcomes[k] <==> k + 1 in shown[k]
  {
    hide Acked, ShowsOnce, Wrap16;
    OutcomeOf(polls[k], shown[k], k + 1);
    if outcomes[k] && k + 1 !in shown[k] {
      var i :| 0 <= i < |shown[k]| && Wrap16(k + 1 - shown[k][i]) == 0;
      StaleIsFar(shown[k][i], k + 1);
      var j :| k - (TWO16 - 1) <= j < k && outcomes[j];
      SuccessIsTruthful(polls, shown, outcomes, j);
      assert false;
    }
  }

  lemma StaleIsFar(m: nat, n: nat)
    requires m < n && Wrap16(n - m) == 0
    ensures m + TWO16 <= n
  {
  }

  /** What the polls of call `l` show when the firmware is silent from message `k - 65535` until call `k`. */
  function Number(outcomes: seq<bool>, k: nat, l: nat): nat
    requires TWO16 - 1 <= k && l < |outcomes|
  {
    if k - (TWO16 - 1) <= l <= k then k - (TWO16 - 1) else if outcomes[l] then l + 1 else l
  }

  lemma NumberOutcome(outcomes: seq<bool>, k: nat, l: nat)
    requires TWO16 - 1 <= k < |outcomes| && l < |outcomes| && outcomes[k]
    requires forall j | k - (TWO16 - 1) <= j < k :: !outcomes[j]
    ensures Number(outcomes, k, l) <= l + 1
    ensures outcomes[l] <==> Wrap16(l + 1 - Number(outcomes, k, l)) == 0
    ensures l == k ==> Number(outcomes, k, l) != l + 1
  {
  }

  /** 65535 failures before a success admit a history in which that success is stale. */
  lemma StaleSuccess(outcomes: seq<bool>, k: nat) returns (polls: seq<seq<U32>>, shown: seq<seq<nat>>)
    requires TWO16 - 1 <= k < |outcomes| && outcomes[k]
    requires forall j | k - (TWO16 - 1) <= j < k :: !outcomes[j]
    ensures History(shown) && Shows(polls, shown) && Outcomes(polls, outcomes)
    ensures k + 1 !in shown[k]
  {
    hide Acked, SeqField, Wrap16;
    var n := |outcomes|;
    shown := seq(n, l requires 0 <= l < n => seq(ACK_POLLS, _ => Number(outcomes, k, l)));
    polls := seq(n, l requires 0 <= l < n => seq(ACK_POLLS, _ => Wrap16(Number(outcomes, k, l))));
    forall l | 0 <= l < n
      ensures ShowsOnce(polls[l], shown[l]) && outcomes[l] == Acked(polls[l], Wrap16(l + 1)) && shown[l][0] <= l + 1
    {
      NumberOutcome(outcomes, k, l);
      FieldOfWrapped(Number(outcomes, k, l));
      assert shown[l][0] == Number(outcomes, k, l);
      OutcomeOf(polls[l], shown[l], l + 1);
    }
    NumberOutcome(outcomes, k, k);
  }

  lemma FieldOfWrapped(n: nat)
    ensures SeqField(Wrap16(n)) == Wrap16(n)
  {
  }

  /**
   What the caller can conclude from the outcomes alone: they are truthful in every history
   that yields them if and only if no success follows 65535 failures in a row.
   */
  lemma TruthfulIffRegular(outcomes: seq<bool>)
    ensures Regular(outcomes) <==>
            forall polls, shown | History(shown) && Shows(polls, shown) && Outcomes(polls, outcomes) :: Truthful(shown, outcomes)
  {
    hide Shows, History;
    if Regular(outcomes) {
      forall polls, shown | History(shown) && Shows(polls, shown) && Outcomes(polls, outcomes)
        ensures Truthful(shown, outcomes)
      {
        ShowsLength(polls, shown);
        forall k | 0 <= k < |shown|
          ensures outcomes[k] <==> k + 1 in shown[k]
        {
          SuccessIsTruthful(polls, shown, outcomes, k);
        }
      }
    } else {
      var k :| TWO16 - 1 <= k < |outcomes| && outcomes[k] && forall j | k - (TWO16 - 1) <= j < k :: !outcomes[j];
      var polls, shown := StaleSuccess(outcomes, k);
      ShowsLength(polls, shown);
      assert !Truthful(shown, outcomes);
    }
  }

  lemma OutcomesSnoc(polls: seq<seq<U32>>, outcomes: seq<bool>, seen: seq<U32>)
    requires Outcomes(polls, outcomes)
    ensures Outcomes(polls + [seen], outcomes + [Acked(seen, Wrap16(|polls| + 1))])
  {
    hide Acked, Wrap16;
  }

  lemma ShowsLength(polls: seq<seq<U32>>, shown: seq<seq<nat>>)
    requires Shows(polls, shown)
    ensures |polls| == |shown|
  {
  }

  /** The boot firmware link of the controller object. */
  class Link {
    var fwSyncSeq: U16
    var log: seq<Io>
    ghost var calls: nat
    ghost var polls: seq<seq<U32>>
    ghost var outcomes: seq<bool>

    /**
     The sequence number counts handshakes modulo 65536; `polls` holds what the handshakes so
     far could poll and `outcomes` what they returned.
     */
    ghost predicate Valid()
      reads this
    {
      fwSyncSeq == Wrap16(calls) && |polls| == calls && Outcomes(polls, outcomes)
    }

    constructor ()
      ensures Valid() && calls == 0 && log == []
    {
      fwSyncSeq, log, calls, polls, outcomes := 0, [], 0, [], [];
    }

    method FirmwareSync(msg: Message, seen: seq<U32>) returns (ok: bool)
      requires Valid() && |seen| == 1000
      modifies this
      ensures Valid() && calls == old(calls) + 1
      ensures ok <==> Acked(seen, Wrap16(calls))
      ensures polls == old(polls) + [seen] && outcomes == old(outcomes) + [ok]
      ensures log == old(log) + SyncLog(msg, Wrap16(calls), seen)
    {
      hide SyncLog, Acked, ReadLog, TimeoutWord, Word, SeqField, DataField, Outcomes;
      OutcomesSnoc(polls, outcomes, seen);
      calls := calls + 1;
      Wrap16Absorbs(calls - 1, 1);
      polls, outcomes := polls + [seen], outcomes + [Acked(seen, Wrap16(calls))];
      fwSyncSeq := Wrap16(fwSyncSeq + 1);
      var msgData := Word(msg, fwSyncSeq);
      WordFields(msg, fwSyncSeq);
      log := log + [ShMemWrite(DRV_MB, msgData)];
      ghost var start := log;
      assert ReadLog(FW_MB, seen[..0]) == [];

      for i := 0 to ACK_POLLS
        invariant Valid() && SeqField(msgData) == fwSyncSeq && msgData == Word(msg, fwSyncSeq)
        invariant fwSyncSeq == Wrap16(old(calls) + 1) && calls == old(calls) + 1
        invariant polls == old(polls) + [seen] && outcomes == old(outcomes) + [Acked(seen, Wrap16(calls))]
        invariant forall j | 0 <= j < i :: SeqField(seen[j]) != fwSyncSeq
        invariant log == start + ReadLog(FW_MB, seen[..i])
      {
        var reg := seen[i];
        log := log + [ShMemRead(FW_MB, reg)];
        ReadLogSnoc(FW_MB, seen, i);
        if SeqField(reg) == SeqField(msgData) {
          SyncLogAcked(msg, fwSyncSeq, seen, i);
          return true;
        }
      }
      SyncLogTimeout(msg, fwSyncSeq, seen);
      assert seen[..ACK_POLLS] == seen;

      if DataField(msgData) != MSG_DATA_WAIT0 {
        log := log + [ShMemWrite(DRV_MB, TimeoutWord(msgData))];
      }
      return false;
    }

    /** Waits for the core reset to finish; the value left in `reg` decides. */
    method PollReset(config: seq<U32>) returns (ok: bool)
      requires Valid() && |config| == 10
      modifies this`log
      ensures Valid()
      ensures ok <==> exists i | 0 <= i < |config| :: ResetQuiet(config[i])
      ensures ok <==> exists i | 0 <= i < |config| :: config[i] / 0x100 % 2 == 0 && config[i] / 0x200 % 2 == 0
      ensures log == old(log) + RegReadLog(PCICFG_MISC_CONFIG, Polled(config, ResetQuiet))
    {
      hide ResetQuiet;
      var reg := 0;
      ghost var start := log;
      QuietSome(config);
      for i := 0 to RESET_POLLS
        invariant Valid()
        invariant forall j | 0 <= j < i :: !ResetQuiet(config[j])
        invariant i > 0 ==> reg == config[i - 1]
        invariant log == start + RegReadLog(PCICFG_MISC_CONFIG, config[..i])
      {
        reg := config[i];
        log := log + [RegRead(PCICFG_MISC_CONFIG, reg)];
        assert RegReadLog(PCICFG_MISC_CONFIG, config[..i + 1])
            == RegReadLog(PCICFG_MISC_CONFIG, config[..i]) + [RegRead(PCICFG_MISC_CONFIG, reg)];
        if ResetQuiet(reg) {
          FirstIs(config, ResetQuiet, i);
          break;
        }
      }
      if !ResetQuiet(reg) {
        FirstIs(config, ResetQuiet, RESET_POLLS);
        assert config[..RESET_POLLS] == config;
      }
      ok := ResetQuiet(reg);
    }
  }
}
