/** Reading one device (crates/razerd/src/main.rs) and the idle verdict it stops on
    (crates/razer-hid/src/error.rs). */
module Interrogation {
  import opened Wrappers
  import opened Checksum
  import opened ReportCodec
  import opened Messages
  import opened Device
  import opened Protocol
  import opened Runs
  import opened Independence
  import S = Session

  // ------------------------------------------------------------ the reading

  datatype Reading = Answered(value: Value) | ReceiverIdle | Failed(error: HidError)

  function Classify(r: Result<Value, HidError>): Reading {
    match r
    case Success(v) => Answered(v)
    case Failure(e) => if IsReceiverIdle(e) then ReceiverIdle else Failed(e)
  }

  /** `None` is "not attempted". */
  datatype DeviceReport = DeviceReport(firmware: Reading, serial: Option<Reading>, deviceMode: Option<Reading>)

  predicate ReportsIdle(r: DeviceReport) {
    r.firmware.ReceiverIdle? || r.serial == Some(ReceiverIdle) || r.deviceMode == Some(ReceiverIdle)
  }

  function Interrogate(c: Config, st: State): (DeviceReport, State) {
    var (r1, st1) := Perform(c, st, FirmwareVersion);
    var firmware := Classify(r1);
    if firmware.ReceiverIdle? then (DeviceReport(firmware, None, None), st1)
    else
      var (r2, st2) := Perform(c, st1, Serial);
      var serial := Classify(r2);
      if serial.ReceiverIdle? then (DeviceReport(firmware, Some(serial), None), st2)
      else
        var (r3, st3) := Perform(c, st2, GetDeviceMode);
        (DeviceReport(firmware, Some(serial), Some(Classify(r3))), st3)
  }

  method ReadDevice(session: S.Session) returns (report: DeviceReport)
    requires session.Valid()
    modifies session`lastAttempts, session`lastResponseTransactionId, session.transport.log
    ensures (report, session.State()) == Interrogate(session.Config(), old(session.State()))
  {
    hide Perform;
    var firmwareRead := session.FirmwareVersion();
    var firmware := Classify(S.Lift(firmwareRead, (p: (byte, byte)) => Pair(p.0, p.1)));
    if firmware.ReceiverIdle? {
      return DeviceReport(firmware, None, None);
    }
    var serialRead := session.Serial();
    var serial := Classify(S.Lift(serialRead, (t: seq<byte>) => Text(t)));
    if serial.ReceiverIdle? {
      return DeviceReport(firmware, Some(serial), None);
    }
    var modeRead := session.GetDeviceMode();
    var deviceMode := Classify(S.Lift(modeRead, (p: (byte, byte)) => Pair(p.0, p.1)));
    report := DeviceReport(firmware, Some(serial), Some(deviceMode));
  }

  // ------------------------------------------------------- the idle verdict

  predicate IsRead(op: Op) {
    op.FirmwareVersion? || op.Serial? || op.GetDeviceMode? || op.GetBrightness? || op.GetPollRate?
  }

  predicate TimeoutAnswer(request: Report, r: Result<Report, HidError>) {
    r.Success? && Echoes(request, r.value) && r.value.status == Timeout
  }

  /** The verdict, exactly, by the device's answers alone: the first four were full-length and
      rejected for whatever reason, and the fifth echoed the request, declared a size that fits
      and carried TIMEOUT. */
  lemma IdleVerdict(c: Config, st: State, op: Op, request: Report)
    requires IsRead(op) && RequestOf(c.entry, op) == Success(request)
    ensures Classify(Perform(c, st, op).0).ReceiverIdle? <==>
              (forall j :: 0 <= j < MAX_ATTEMPTS - 1 ==> Rejected(c, st.log, request, j))
              && TimeoutAnswer(request, Outcome(c, st.log, request, MAX_ATTEMPTS - 1))
  {
    hide TransactRaw, CheckResponse, Retry, RequestOf, ValueOf;
    var (r, st') := Transact(c, st, request);
    TransactCharacterised(c, st, request, r, st');
    var a := st'.attempts;
    var final := Outcome(c, st.log, request, a - 1);
    SingleErrors(c, Start(c, st.log, request, a - 1), request);
    CheckRequestErrors(request);
    if r.Success? {
      ReadersNeverReportStatus(c.entry, op, r.value);
    }
    if final.Success? {
      CheckResponseCharacterised(request, final.value);
      assert CheckResponse(request, final.value) == Failure(DeviceStatus(Timeout)) <==> TimeoutAnswer(request, final);
    }
    assert a < MAX_ATTEMPTS ==> !Rejected(c, st.log, request, a - 1);
  }

  lemma CheckRequestErrors(request: Report)
    ensures CheckRequest(request).Failure? ==> !CheckRequest(request).error.DeviceStatus?
  {
  }

  lemma ReadersNeverReportStatus(entry: DeviceEntry, op: Op, response: Report)
    requires Typed(op)
    ensures ValueOf(entry, op, response).Failure? ==> !IsReceiverIdle(ValueOf(entry, op, response).error)
  {
  }

  // ------------------------------------------------------------ the sequence

  /** Every frame handed to the transport, accepted or refused. */
  function FramesOf(log: Log): seq<Buffer> {
    if log == [] then []
    else
      FramesOf(log[..|log| - 1]) +
      match log[|log| - 1]
      case Set(frame) => [frame]
      case SetRefused(frame, _) => [frame]
      case _ => []
  }

  function Repeat(frame: Buffer, n: nat): seq<Buffer> {
    seq(n, _ => frame)
  }

  lemma FramesOne(log: Log, e: Event)
    ensures FramesOf(log + [e]) == FramesOf(log) +
              if e.Set? then [e.frame] else if e.SetRefused? then [e.frame] else []
  {
    assert (log + [e])[..|log + [e]| - 1] == log;
  }

  lemma TransactRawFrames(c: Config, log: Log, request: Report)
    requires CheckRequest(request).Success?
    ensures FramesOf(TransactRaw(c, log, request).1) == FramesOf(log) + [Frame(c.tid, request)]
  {
    hide Frame, CheckRequest, Receive;
    var frame := Frame(c.tid, request);
    match c.device.accept(log, frame)
    case Some(errno) =>
      FramesOne(log, SetRefused(frame, errno));
    case None =>
      FramesOne(log, Set(frame));
      FramesOne(log + [Set(frame)], Sleep(c.entry.wait));
      var sent := log + [Set(frame)] + [Sleep(c.entry.wait)];
      FramesOne(sent, Get(c.device.reply(sent)));
  }

  /** A transaction hands over the same frame once per attempt and no other. */
  lemma {:induction false} RetryFrames(c: Config, st: State, request: Report, n: nat, last: Option<ProtoError>)
    requires CheckRequest(request).Success? && n <= MAX_ATTEMPTS && (n > 0 ==> st.attempts == n)
    ensures var st' := Retry(c, st, request, n, last).1;
            n <= st'.attempts <= MAX_ATTEMPTS
            && FramesOf(st'.log) == FramesOf(st.log) + Repeat(Frame(c.tid, request), st'.attempts - n)
    decreases MAX_ATTEMPTS - n
  {
    hide TransactRaw, CheckResponse, CheckRequest, Frame;
    if n < MAX_ATTEMPTS {
      var frame := Frame(c.tid, request);
      var before := BeforeAttempt(st.log, n);
      FramesOne(st.log, Sleep(RETRY_DELAY));
      assert FramesOf(before) == FramesOf(st.log);
      TransactRawFrames(c, before, request);
      var (r, log) := TransactRaw(c, before, request);
      assert [frame] == Repeat(frame, 1);
      if r.Success? && CheckResponse(request, r.value).Failure? {
        var st' := State(log, n + 1, Some(r.value.transactionId));
        var e := Some(CheckResponse(request, r.value).error);
        RetryFrames(c, st', request, n + 1, e);
        var k := Retry(c, st', request, n + 1, e).1.attempts - (n + 1);
        assert Repeat(frame, 1) + Repeat(frame, k) == Repeat(frame, k + 1);
      }
    }
  }

  /** The history ends with an answer carrying TIMEOUT. */
  ghost predicate EndsInTimeout(log: Log) {
    && log != [] && log[|log| - 1].Get?
    && var r := Receive(log[|log| - 1].reply);
    && r.Success? && r.value.status == Timeout
  }

  lemma IdleEndsInTimeout(c: Config, st: State, op: Op, request: Report)
    requires IsRead(op) && RequestOf(c.entry, op) == Success(request)
    requires Classify(Perform(c, st, op).0).ReceiverIdle?
    ensures EndsInTimeout(Perform(c, st, op).1.log)
  {
    hide TransactRaw, Retry, RequestOf, ValueOf, Receive, Rejected;
    IdleVerdict(c, st, op, request);
    var (r, st') := Transact(c, st, request);
    TransactCharacterised(c, st, request, r, st');
    assert st'.attempts == MAX_ATTEMPTS;
    var start := Start(c, st.log, request, MAX_ATTEMPTS - 1);
    TransactRawTrace(c, start, request);
    var reply :| st'.log == start + Block(c, request, reply)
                 && Receive(reply) == Outcome(c, st.log, request, MAX_ATTEMPTS - 1);
    assert st'.log[|st'.log| - 1] == Get(reply);
  }

  /** The frame one read repeats, and how often it did. */
  function ReadFrame(c: Config, op: Op): Buffer
    requires Typed(op)
  {
    match RequestOf(c.entry, op)
    case Success(request) => Frame(c.tid, request)
    case Failure(_) => seq(HIDRAW_BUF_LEN, _ => 0)
  }

  /** What a single read contributes. */
  lemma ReadStep(c: Config, st: State, op: Op) returns (n: nat)
    requires IsRead(op)
    ensures n <= MAX_ATTEMPTS
    ensures var (r, st') := Perform(c, st, op);
            && FramesOf(st'.log) == FramesOf(st.log) + Repeat(ReadFrame(c, op), n)
            && CountSets(st'.log) <= CountSets(st.log) + MAX_ATTEMPTS
            && Elapsed(c, st.log, st'.log, if n > 0 then n - 1 else 0)
            && (Classify(r).ReceiverIdle? ==> EndsInTimeout(st'.log))
  {
    hide Retry, RequestOf, ValueOf, Frame, EndsInTimeout;
    n := 0;
    if RequestOf(c.entry, op).Success? {
      var request := RequestOf(c.entry, op).value;
      TypedRequestsAreSound(c.entry, op);
      RetryFrames(c, st, request, 0, None);
      TransactElapsed(c, st, request);
      n := Transact(c, st, request).1.attempts;
      if Classify(Perform(c, st, op).0).ReceiverIdle? {
        IdleEndsInTimeout(c, st, op, request);
      }
    } else {
      RefusalIsNotIdle(c.entry, op);
    }
  }

  lemma RefusalIsNotIdle(entry: DeviceEntry, op: Op)
    requires IsRead(op) && RequestOf(entry, op).Failure?
    ensures !IsReceiverIdle(RequestOf(entry, op).error)
  {
  }

  /** Firmware frames, then serial frames, then mode frames. */
  ghost predicate InOrder(c: Config, before: Log, after: Log, report: DeviceReport, n1: nat, n2: nat, n3: nat) {
    && n1 <= MAX_ATTEMPTS && n2 <= MAX_ATTEMPTS && n3 <= MAX_ATTEMPTS
    && FramesOf(after) == FramesOf(before) + Repeat(ReadFrame(c, FirmwareVersion), n1)
                          + Repeat(ReadFrame(c, Serial), n2) + Repeat(ReadFrame(c, GetDeviceMode), n3)
    && (report.serial.None? ==> n2 == 0)
    && (report.deviceMode.None? ==> n3 == 0)
  }

  /** Interrogating any device: a reading is missing exactly when an earlier one found the
      receiver idle, so a hard failure never stops the sequence; when the receiver is idle
      its TIMEOUT answer is the last thing that happens; frames appear only in firmware,
      serial, mode order, at most five of each; and the whole costs at most 15 SETs, each
      with its wait, and 120 ms of retry delay. */
  lemma InterrogationProperties(c: Config, st: State)
    ensures var (report, end) := Interrogate(c, st);
            && (report.serial.None? <==> report.firmware.ReceiverIdle?)
            && (report.deviceMode.None? <==> report.firmware.ReceiverIdle? || report.serial == Some(ReceiverIdle))
            && (ReportsIdle(report) ==> EndsInTimeout(end.log))
            && (exists n1, n2, n3 :: InOrder(c, st.log, end.log, report, n1, n2, n3))
            && CountSets(end.log) <= CountSets(st.log) + 15
            && TotalSleep(end.log) <= TotalSleep(st.log) + 15 * c.entry.wait + 120_000
  {
    hide Perform, ReadFrame, EndsInTimeout, CountSets, TotalSleep, FramesOf;
    var (r1, st1) := Perform(c, st, FirmwareVersion);
    var n1 := ReadStep(c, st, FirmwareVersion);
    var d1: nat := if n1 > 0 then n1 - 1 else 0;
    var f1, f2, f3 := ReadFrame(c, FirmwareVersion), ReadFrame(c, Serial), ReadFrame(c, GetDeviceMode);
    var (report, end) := Interrogate(c, st);
    if Classify(r1).ReceiverIdle? {
      assert Repeat(f2, 0) == [] == Repeat(f3, 0);
      assert InOrder(c, st.log, end.log, report, n1, 0, 0);
      Bounded(c, st.log, st1.log, d1);
    } else {
      var (r2, st2) := Perform(c, st1, Serial);
      var n2 := ReadStep(c, st1, Serial);
      var d2: nat := if n2 > 0 then n2 - 1 else 0;
      ElapsedCompose(c, st.log, st1.log, st2.log, d1, d2);
      if Classify(r2).ReceiverIdle? {
        assert Repeat(f3, 0) == [];
        assert InOrder(c, st.log, end.log, report, n1, n2, 0);
        Bounded(c, st.log, st2.log, d1 + d2);
      } else {
        var (r3, st3) := Perform(c, st2, GetDeviceMode);
        var n3 := ReadStep(c, st2, GetDeviceMode);
        var d3: nat := if n3 > 0 then n3 - 1 else 0;
        ElapsedCompose(c, st.log, st2.log, st3.log, d1 + d2, d3);
        assert InOrder(c, st.log, end.log, report, n1, n2, n3);
        Bounded(c, st.log, st3.log, d1 + d2 + d3);
      }
    }
  }

  /** What a reading says about the result of its read. */
  predicate Reports(reading: Reading, r: Result<Value, HidError>) {
    match reading
    case Answered(v) => r == Success(v)
    case Failed(e) => r == Failure(e) && !Idle(e)
    case ReceiverIdle => r.Failure? && Idle(r.error)
  }

  /** TIMEOUT as the device's own last word. */
  predicate Idle(e: HidError) {
    e == RetriesExhausted(DeviceStatus(Timeout)) || e == Proto(DeviceStatus(Timeout))
  }

  const READS := [FirmwareVersion, Serial, GetDeviceMode]

  /** The readings of a report, in the order they were made. */
  function Made(report: DeviceReport): seq<Reading> {
    [report.firmware] + (if report.serial.Some? then [report.serial.value] else [])
    + (if report.deviceMode.Some? then [report.deviceMode.value] else [])
  }

  lemma ClassifyReports(r: Result<Value, HidError>)
    ensures Reports(Classify(r), r)
  {
  }

  lemma RunStep(c: Config, st: State, op: Op, rest: seq<Op>)
    ensures Run(c, st, [op] + rest).0 == [Perform(c, st, op).0] + Run(c, Perform(c, st, op).1, rest).0
    ensures Run(c, st, [op] + rest).1 == Run(c, Perform(c, st, op).1, rest).1
  {
    assert ([op] + rest)[1..] == rest;
  }

  lemma RunOfReads(c: Config, st: State)
    ensures var (r1, st1) := Perform(c, st, FirmwareVersion);
            var (r2, st2) := Perform(c, st1, Serial);
            var (r3, st3) := Perform(c, st2, GetDeviceMode);
            && Run(c, st, READS).0 == [r1, r2, r3]
            && Run(c, st, READS[..1]).1 == st1 && Run(c, st, READS[..2]).1 == st2 && Run(c, st, READS[..3]).1 == st3
  {
    hide Perform;
    var st1 := Perform(c, st, FirmwareVersion).1;
    var st2 := Perform(c, st1, Serial).1;
    assert READS[..1] == [FirmwareVersion] + [] && READS[..2] == [FirmwareVersion] + ([Serial] + []);
    assert READS[..3] == READS == [FirmwareVersion] + ([Serial] + ([GetDeviceMode] + []));
    RunStep(c, st, FirmwareVersion, []);
    RunStep(c, st, FirmwareVersion, [Serial] + []);
    RunStep(c, st, FirmwareVersion, [Serial] + ([GetDeviceMode] + []));
    RunStep(c, st1, Serial, []);
    RunStep(c, st1, Serial, [GetDeviceMode] + []);
    RunStep(c, st2, GetDeviceMode, []);
  }

  /** The report of an interrogation is a run of the three reads, cut short after the first
      that finds the receiver idle: each reading reports the result at its own place, the end
      is that of the reads made, and only the last of them can be idle. */
  lemma ReadingsAreResults(c: Config, st: State)
    ensures var (report, end) := Interrogate(c, st);
            var made, results := Made(report), Run(c, st, READS).0;
            && 1 <= |made| <= 3 == |results|
            && (forall k :: 0 <= k < |made| ==> Reports(made[k], results[k]))
            && (report.deviceMode.Some? ==> report.serial.Some?)
            && end == Run(c, st, READS[..|made|]).1
            && (ReportsIdle(report) <==> made[|made| - 1].ReceiverIdle?)
            && (|made| < 3 ==> ReportsIdle(report))
            && (forall k :: 0 <= k < |made| - 1 ==> !made[k].ReceiverIdle?)
  {
    hide Perform, Classify, Reports;
    RunOfReads(c, st);
    var (r1, st1) := Perform(c, st, FirmwareVersion);
    var (r2, st2) := Perform(c, st1, Serial);
    ClassifyReports(r1);
    ClassifyReports(r2);
    ClassifyReports(Perform(c, st2, GetDeviceMode).0);
  }

  lemma Bounded(c: Config, before: Log, after: Log, delays: nat)
    requires Elapsed(c, before, after, delays) && delays <= 12 && CountSets(after) <= CountSets(before) + 15
    ensures TotalSleep(after) <= TotalSleep(before) + 15 * c.entry.wait + 120_000
  {
    hide CountSets, TotalSleep;
    AtMostFifteen(c.entry.wait, CountSets(after) - CountSets(before));
  }

  lemma AtMostFifteen(wait: nat, sets: nat)
    requires sets <= 15
    ensures wait * sets <= 15 * wait
  {
    assert 0 <= wait * (15 - sets);
  }

  // ---------------------------------------------- the verdict is not "consistent"

  /** The reply a scripted device gives: the routing of a firmware request, this status. */
  function FirmwareReply(status: Status): Reply {
    Data(HIDRAW_BUF_LEN, [0] + Encode(GetFirmwareVersionCommand().(status := status)))
  }

  lemma FirmwareReplyReceived(status: Status)
    requires Canonical(status)
    ensures Receive(FirmwareReply(status)).Success?
    ensures var response := Receive(FirmwareReply(status)).value;
            response.status == status && Echoes(GetFirmwareVersionCommand(), response)
  {
    hide Encode, Decode, ChecksumOf;
    var response := GetFirmwareVersionCommand().(status := status);
    DecodeEncode(response);
    assert ([0] + Encode(response))[1..] == Encode(response);
  }

  /** A script of firmware replies with the given statuses. */
  function StatusScript(statuses: nat -> Status): Device {
    ScriptedDevice((k: nat) => None, (k: nat) => FirmwareReply(statuses(k)))
  }

  lemma {:induction false} ScriptedOutcome(c: Config, statuses: nat -> Status, j: nat)
    requires c.device == StatusScript(statuses)
    ensures CountGets(Start(c, [], GetFirmwareVersionCommand(), j)) == j
    ensures Outcome(c, [], GetFirmwareVersionCommand(), j) == Receive(FirmwareReply(statuses(j)))
    ensures CountGets(TransactRaw(c, Start(c, [], GetFirmwareVersionCommand(), j), GetFirmwareVersionCommand()).1) == j + 1
  {
    hide TransactRaw, Receive, FirmwareReply, StatusScript, CountGets;
    var request := GetFirmwareVersionCommand();
    var start := Start(c, [], request, j);
    if j > 0 {
      ScriptedOutcome(c, statuses, j - 1);
      CountOne(TransactRaw(c, Start(c, [], request, j - 1), request).1, Sleep(RETRY_DELAY));
    } else {
      NoGets();
    }
    ScriptedExchange(c, statuses, start, j);
  }

  lemma NoGets()
    ensures CountGets([]) == 0
  {
  }

  lemma ScriptedExchange(c: Config, statuses: nat -> Status, start: Log, j: nat)
    requires c.device == StatusScript(statuses) && CountGets(start) == j
    ensures var (r, log) := TransactRaw(c, start, GetFirmwareVersionCommand());
            r == Receive(FirmwareReply(statuses(j))) && CountGets(log) == j + 1
  {
    hide Frame, Receive, FirmwareReply, CountGets, CountTries;
    var request := GetFirmwareVersionCommand();
    var frame := Frame(c.tid, request);
    assert CheckRequest(request).Success?;
    CountOne(start, Set(frame));
    CountOne(start + [Set(frame)], Sleep(c.entry.wait));
    var sent := start + [Set(frame)] + [Sleep(c.entry.wait)];
    assert c.device.reply(sent) == FirmwareReply(statuses(j));
    CountOne(sent, Get(c.device.reply(sent)));
  }

  /** The documentation calls the verdict a consistent TIMEOUT; the code looks at the fifth
      answer alone. Four failures and one TIMEOUT read as an idle receiver, and four
      TIMEOUTs with one failure do not. */
  lemma VerdictIgnoresTheFirstFour(c: Config)
    requires Contains(c.entry.capabilities, FIRMWARE_VERSION)
    ensures var failing: nat -> Status := k => if k == 4 then Timeout else CommandFailure;
            Classify(Perform(c.(device := StatusScript(failing)), State([], 0, None), FirmwareVersion).0) == ReceiverIdle
    ensures var timing: nat -> Status := k => if k == 4 then CommandFailure else Timeout;
            Classify(Perform(c.(device := StatusScript(timing)), State([], 0, None), FirmwareVersion).0) != ReceiverIdle
  {
    hide Perform;
    ScriptedVerdict(c, k => if k == 4 then Timeout else CommandFailure);
    ScriptedVerdict(c, k => if k == 4 then CommandFailure else Timeout);
  }

  /** Against a script that rejects the first four attempts, the fifth status decides. */
  lemma ScriptedVerdict(c: Config, statuses: nat -> Status)
    requires Contains(c.entry.capabilities, FIRMWARE_VERSION)
    requires forall k: nat :: k < 5 ==> Canonical(statuses(k)) && !Accepted(statuses(k))
    ensures (Classify(Perform(c.(device := StatusScript(statuses)), State([], 0, None), FirmwareVersion).0) == ReceiverIdle)
              <==> (statuses(4) == Timeout)
  {
    hide TransactRaw, CheckResponse, Retry, ValueOf, Receive, FirmwareReply, StatusScript, Command;
    var d := c.(device := StatusScript(statuses));
    var st := State([], 0, None);
    var request := GetFirmwareVersionCommand();
    forall j: nat | j < 5
      ensures Rejected(d, [], request, j) && Outcome(d, [], request, j).value.status == statuses(j)
      ensures Echoes(request, Outcome(d, [], request, j).value)
    {
      ScriptedOutcome(d, statuses, j);
      FirmwareReplyReceived(statuses(j));
      CheckResponseCharacterised(request, Outcome(d, [], request, j).value);
    }
    IdleVerdict(d, st, FirmwareVersion, request);
  }
}
