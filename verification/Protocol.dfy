/** What one session operation does, as a function of the device and of the session's
    state (crates/razer-hid/src/session.rs). `Session` proves its methods against these
    functions; the properties of the protocol are proved about them. */
module Protocol {
  import opened Wrappers
  import opened Checksum
  import opened ReportCodec
  import opened Messages
  import opened Device

  const MAX_ATTEMPTS := 5

  /** 10 ms, in microseconds. */
  const RETRY_DELAY := 10_000

  datatype Config = Config(entry: DeviceEntry, tid: byte, device: Device)

  /** `attempts` is `last_attempts`, `echoed` is `last_response_transaction_id`. */
  datatype State = State(log: Log, attempts: nat, echoed: Option<byte>)

  // ------------------------------------------------------------ the exchange

  /** The buffer handed to the transport: report id 0, then the report with the session's
      transaction id in byte 1 whatever the request carried there. */
  function Frame(tid: byte, request: Report): Buffer {
    [0] + Encode(request.(transactionId := tid))
  }

  function Send(c: Config, log: Log, request: Report): (Result<(), HidError>, Log) {
    match CheckRequest(request)
    case Failure(e) => (Failure(Proto(e)), log)
    case Success(_) =>
      var frame := Frame(c.tid, request);
      match c.device.accept(log, frame)
      case Some(errno) => (Failure(Io(SetFeatureCall, errno)), log + [SetRefused(frame, errno)])
      case None => (Success(()), log + [Set(frame)] + [Sleep(c.entry.wait)])
  }

  function Receive(reply: Reply): Result<Report, HidError> {
    match reply
    case Fault(errno) => Failure(Io(GetFeatureCall, errno))
    case Data(got, buffer) =>
      if got < HIDRAW_BUF_LEN then Failure(ShortRead(got)) else Success(Decode(buffer[1..]))
  }

  function TransactRaw(c: Config, log: Log, request: Report): (Result<Report, HidError>, Log) {
    match Send(c, log, request)
    case (Failure(e), sent) => (Failure(e), sent)
    case (Success(_), sent) =>
      var reply := c.device.reply(sent);
      (Receive(reply), sent + [Get(reply)])
  }

  function BeforeAttempt(log: Log, n: nat): Log {
    if n > 0 then log + [Sleep(RETRY_DELAY)] else log
  }

  /** The retry loop from attempt `n` on, `last` being the error of attempt `n - 1`. */
  function Retry(c: Config, st: State, request: Report, n: nat, last: Option<ProtoError>)
    : (Result<Report, HidError>, State)
    requires n <= MAX_ATTEMPTS
    decreases MAX_ATTEMPTS - n, st
  {
    if n == MAX_ATTEMPTS then
      (Failure(RetriesExhausted(last.GetOr(Malformed(NoValidatedResponse)))), st)
    else
      match TransactRaw(c, BeforeAttempt(st.log, n), request)
      case (Failure(e), log) => (Failure(e), State(log, n + 1, st.echoed))
      case (Success(response), log) =>
        var st' := State(log, n + 1, Some(response.transactionId));
        match CheckResponse(request, response)
        case Success(_) => (Success(response), st')
        case Failure(e) => Retry(c, st', request, n + 1, Some(e))
  }

  function Transact(c: Config, st: State, request: Report): (Result<Report, HidError>, State) {
    Retry(c, st, request, 0, None)
  }

  // -------------------------------------------------------------- operations

  datatype Op =
    | SendReport(request: Report)
    | ExchangeReport(request: Report)
    | TransactReport(request: Report)
    | SetDeviceMode(mode: DeviceMode)
    | GetDeviceMode
    | FirmwareVersion
    | Serial
    | SetBrightness(level: byte)
    | GetBrightness
    | SetStaticEffect(rgb: Rgb)
    | SetPollRate(rate: PollRate)
    | GetPollRate

  datatype Value =
    | Done
    | Pair(first: byte, second: byte)
    | Text(text: seq<byte>)
    | Level(level: byte)
    | Rate(rate: PollRate)
    | Response(response: Report)

  predicate Typed(op: Op) {
    !op.SendReport? && !op.ExchangeReport? && !op.TransactReport?
  }

  /** The report a typed operation sends, or the guard that stops it. */
  function RequestOf(entry: DeviceEntry, op: Op): Result<Report, HidError>
    requires Typed(op)
  {
    match op
    case SetDeviceMode(mode) =>
      var _ :- Require(entry, DEVICE_MODE, DeviceModeFeature);
      Success(SetDeviceModeCommand(mode))
    case GetDeviceMode =>
      var _ :- Require(entry, DEVICE_MODE, DeviceModeFeature);
      Success(GetDeviceModeCommand())
    case FirmwareVersion =>
      var _ :- Require(entry, FIRMWARE_VERSION, FirmwareVersionFeature);
      Success(GetFirmwareVersionCommand())
    case Serial =>
      var _ :- Require(entry, SERIAL, SerialFeature);
      Success(GetSerialCommand())
    case SetBrightness(level) =>
      var _ :- Require(entry, BRIGHTNESS, BrightnessFeature);
      var led :- DefaultLed(entry);
      Success(SetBrightnessCommand(led, level))
    case GetBrightness =>
      var _ :- Require(entry, BRIGHTNESS, BrightnessFeature);
      var led :- DefaultLed(entry);
      Success(GetBrightnessCommand(led))
    case SetStaticEffect(rgb) =>
      var _ :- Require(entry, STATIC_EFFECT, StaticEffectFeature);
      var led :- DefaultLed(entry);
      Success(SetStaticEffectCommand(led, rgb))
    case SetPollRate(rate) =>
      var _ :- Require(entry, POLL_RATE, PollRateFeature);
      if entry.pollRateKind.V2? then Success(SetPollRateV2Command(rate, 0x00))
      else (match SetPollRateLegacyCommand(rate)
            case Success(request) => Success(request)
            case Failure(e) => Failure(Proto(e)))
    case GetPollRate =>
      var _ :- Require(entry, POLL_RATE, PollRateFeature);
      Success(if entry.pollRateKind.V2? then GetPollRateV2Command() else GetPollRateLegacyCommand())
  }

  /** What a typed operation makes of the response it accepted. */
  function ValueOf(entry: DeviceEntry, op: Op, response: Report): Result<Value, HidError>
    requires Typed(op)
  {
    match op
    case GetDeviceMode => Success(Pair(ReadPair(response).0, ReadPair(response).1))
    case FirmwareVersion => Success(Pair(ReadPair(response).0, ReadPair(response).1))
    case Serial =>
      (match ReadSerial(response) case Success(text) => Success(Text(text)) case Failure(e) => Failure(Proto(e)))
    case GetBrightness => Success(Level(ReadBrightness(response)))
    case GetPollRate =>
      (match if entry.pollRateKind.V2? then ReadPollRateV2(response) else ReadPollRateLegacy(response)
       case Success(rate) => Success(Rate(rate))
       case Failure(e) => Failure(Proto(e)))
    case _ => Success(Done)
  }

  function Perform(c: Config, st: State, op: Op): (Result<Value, HidError>, State) {
    match op
    case SendReport(request) =>
      (match Send(c, st.log, request)
       case (Success(_), log) => (Success(Done), st.(log := log))
       case (Failure(e), log) => (Failure(e), st.(log := log)))
    case ExchangeReport(request) =>
      (match TransactRaw(c, st.log, request)
       case (Success(response), log) => (Success(Response(response)), st.(log := log))
       case (Failure(e), log) => (Failure(e), st.(log := log)))
    case TransactReport(request) =>
      (match Transact(c, st, request)
       case (Success(response), st') => (Success(Response(response)), st')
       case (Failure(e), st') => (Failure(e), st'))
    case _ =>
      match RequestOf(c.entry, op)
      case Failure(e) => (Failure(e), st)
      case Success(request) =>
        match Transact(c, st, request)
        case (Failure(e), st') => (Failure(e), st')
        case (Success(response), st') => (ValueOf(c.entry, op, response), st')
  }

  /** A whole session: the operations in order, with the result of each. */
  function Run(c: Config, st: State, ops: seq<Op>): (seq<Result<Value, HidError>>, State)
    decreases |ops|
  {
    if ops == [] then ([], st)
    else
      var (r, st') := Perform(c, st, ops[0]);
      var (rs, end) := Run(c, st', ops[1..]);
      ([r] + rs, end)
  }

  // ------------------------------------------------- what a transaction does

  /** The history at the start of attempt `j`, when none before it ended the loop. */
  function Start(c: Config, log: Log, request: Report, j: nat): Log {
    if j == 0 then log
    else TransactRaw(c, Start(c, log, request, j - 1), request).1 + [Sleep(RETRY_DELAY)]
  }

  /** What attempt `j` receives. */
  function Outcome(c: Config, log: Log, request: Report, j: nat): Result<Report, HidError> {
    TransactRaw(c, Start(c, log, request, j), request).0
  }

  /** Attempt `j` produced a full-length response that the acceptance test turned down. */
  predicate Rejected(c: Config, log: Log, request: Report, j: nat) {
    var r := Outcome(c, log, request, j);
    r.Success? && CheckResponse(request, r.value).Failure?
  }

  /** The transaction id attempt `j` leaves on record. */
  function Recorded(c: Config, log: Log, request: Report, j: nat): Option<byte> {
    match Outcome(c, log, request, j)
    case Success(response) => Some(response.transactionId)
    case Failure(_) => None
  }

  lemma {:induction false} RetryCharacterised(c: Config, st0: State, st: State, request: Report, n: nat, last: Option<ProtoError>)
    requires n <= MAX_ATTEMPTS
    requires BeforeAttempt(st.log, n) == Start(c, st0.log, request, n)
    requires forall j :: 0 <= j < n ==> Rejected(c, st0.log, request, j)
    requires n > 0 ==> Rejected(c, st0.log, request, n - 1)
    requires n > 0 ==> last == Some(CheckResponse(request, Outcome(c, st0.log, request, n - 1).value).error)
    requires n > 0 ==> st.attempts == n && st.log == TransactRaw(c, Start(c, st0.log, request, n - 1), request).1
    requires n > 0 ==> st.echoed == Recorded(c, st0.log, request, n - 1)
    requires n == 0 ==> st == st0
    ensures Characterised(c, st0, request, Retry(c, st, request, n, last).0, Retry(c, st, request, n, last).1)
    decreases MAX_ATTEMPTS - n
  {
    hide TransactRaw, CheckResponse;
    if n < MAX_ATTEMPTS {
      assert BeforeAttempt(st.log, n) == Start(c, st0.log, request, n);
      match TransactRaw(c, BeforeAttempt(st.log, n), request)
      case (Failure(e), log) =>
        assert n + 1 - 1 == n;
      case (Success(response), log) =>
        var st' := State(log, n + 1, Some(response.transactionId));
        match CheckResponse(request, response)
        case Success(_) =>
          assert n + 1 - 1 == n;
        case Failure(e) =>
          assert Rejected(c, st0.log, request, n);
          RetryCharacterised(c, st0, st', request, n + 1, Some(e));
    }
  }

  /** The loop stopped at the first attempt that was not rejected, or at the fifth. */
  ghost predicate Characterised(c: Config, st: State, request: Report, r: Result<Report, HidError>, st': State) {
    var a := st'.attempts;
    && 1 <= a <= MAX_ATTEMPTS
    && (forall j :: 0 <= j < a - 1 ==> Rejected(c, st.log, request, j))
    && (a < MAX_ATTEMPTS ==> !Rejected(c, st.log, request, a - 1))
    && st'.log == TransactRaw(c, Start(c, st.log, request, a - 1), request).1
    && var final := Outcome(c, st.log, request, a - 1);
    && (r == if final.Failure? then Failure(final.error)
             else match CheckResponse(request, final.value)
                  case Success(_) => Success(final.value)
                  case Failure(e) => Failure(RetriesExhausted(e)))
    && st'.echoed == (if final.Success? || a > 1
                      then Recorded(c, st.log, request, if final.Success? then a - 1 else a - 2)
                      else st.echoed)
  }

  /** The transaction against its reference: the answer is the least-indexed response that
      was not rejected, a transport fault or short read ends the loop at once, five
      rejections yield the fifth one's error, `last_attempts` is the number of attempts
      begun and the recorded id is that of the last decoded response. Both ways: the
      reference determines result and state completely. */
  lemma TransactCharacterised(c: Config, st: State, request: Report, r: Result<Report, HidError>, st': State)
    ensures (r, st') == Transact(c, st, request) <==> Characterised(c, st, request, r, st')
  {
    hide TransactRaw, CheckResponse;
    var (r0, s0) := Transact(c, st, request);
    assert Characterised(c, st, request, r0, s0) by {
      RetryCharacterised(c, st, st, request, 0, None);
    }
    if Characterised(c, st, request, r, st') {
      var a, b := st'.attempts, s0.attempts;
      var ra, rb := Rejected(c, st.log, request, a - 1), Rejected(c, st.log, request, b - 1);
      assert a == b;
    }
  }

  /** Attempt `j` would be the last, and its response accepted. */
  predicate AcceptedAt(c: Config, log: Log, request: Report, j: nat) {
    && Outcome(c, log, request, j).Success? && !Rejected(c, log, request, j)
    && forall i :: 0 <= i < j ==> Rejected(c, log, request, i)
  }

  /** A transaction succeeds exactly when one of its first five exchanges is accepted and all
      before it were merely rejected; it then returns that response. */
  lemma SucceedsWithinFive(c: Config, st: State, request: Report)
    ensures var r := Transact(c, st, request).0;
            && (r.Success? <==> exists j: nat :: j < MAX_ATTEMPTS && AcceptedAt(c, st.log, request, j))
            && (forall j: nat :: j < MAX_ATTEMPTS && AcceptedAt(c, st.log, request, j) ==> r == Outcome(c, st.log, request, j))
  {
    hide TransactRaw, CheckResponse, Outcome, Start;
    var (r, st') := Transact(c, st, request);
    TransactCharacterised(c, st, request, r, st');
    var a := st'.attempts;
    if r.Success? {
      assert AcceptedAt(c, st.log, request, a - 1);
    }
    forall j: nat | j < MAX_ATTEMPTS && AcceptedAt(c, st.log, request, j) ensures r == Outcome(c, st.log, request, j) {
      assert j == a - 1;
    }
  }

  lemma {:induction false} FirstNotRejected(c: Config, log: Log, request: Report, k: nat) returns (j: nat)
    requires !Rejected(c, log, request, k)
    ensures j <= k && !Rejected(c, log, request, j) && forall i :: 0 <= i < j ==> Rejected(c, log, request, i)
  {
    hide Rejected;
    if i: nat :| i < k && !Rejected(c, log, request, i) {
      j := FirstNotRejected(c, log, request, i);
    } else {
      j := k;
    }
  }

  /** Answering badly fewer than five times is harmless: when none of five exchanges faults
      and at least one of them is not rejected, the transaction succeeds. */
  lemma FewerThanFiveBadAnswers(c: Config, st: State, request: Report)
    requires forall j: nat :: j < MAX_ATTEMPTS ==> Outcome(c, st.log, request, j).Success?
    requires exists j: nat :: j < MAX_ATTEMPTS && !Rejected(c, st.log, request, j)
    ensures Transact(c, st, request).0.Success?
  {
    hide Transact, Outcome, Rejected;
    var k: nat :| k < MAX_ATTEMPTS && !Rejected(c, st.log, request, k);
    var j := FirstNotRejected(c, st.log, request, k);
    assert AcceptedAt(c, st.log, request, j);
    SucceedsWithinFive(c, st, request);
  }

  /** One exchange fails by refusing the request, by a transport fault or by a short read. */
  lemma SingleErrors(c: Config, log: Log, request: Report)
    ensures var r := TransactRaw(c, log, request).0;
            r.Failure? ==>
              || r.error.Io? || r.error.ShortRead?
              || (CheckRequest(request).Failure? && r.error == Proto(CheckRequest(request).error))
  {
  }

  /** The fallback error of the loop is unreachable. */
  lemma FallbackUnreachable(c: Config, st: State, request: Report, reason: Reason)
    ensures Transact(c, st, request).0 != Failure(RetriesExhausted(Malformed(reason)))
  {
    hide TransactRaw, CheckResponse;
    var (r, st') := Transact(c, st, request);
    TransactCharacterised(c, st, request, r, st');
    var final := Outcome(c, st.log, request, st'.attempts - 1);
    SingleErrors(c, Start(c, st.log, request, st'.attempts - 1), request);
    if final.Success? {
      CheckResponseCharacterised(request, final.value);
    }
  }

  // ---------------------------------------------------------------- the trace

  /** One complete exchange: SET, wait, GET. */
  function Block(c: Config, request: Report, reply: Reply): Log {
    [Set(Frame(c.tid, request)), Sleep(c.entry.wait), Get(reply)]
  }

  /** Complete exchanges, each followed by the retry delay. */
  function Blocks(c: Config, request: Report, replies: seq<Reply>): Log {
    if replies == [] then []
    else Blocks(c, request, replies[..|replies| - 1])
         + Block(c, request, replies[|replies| - 1]) + [Sleep(10_000)]
  }

  /** A full-length reply whose content the acceptance test turns down. */
  predicate TurnedDown(request: Report, reply: Reply) {
    Receive(reply).Success? && CheckResponse(request, Receive(reply).value).Failure?
  }

  /** The part of a trace contributed by the attempt that ended the loop. */
  ghost predicate LastBlock(c: Config, request: Report, log: Log) {
    || (log == [] && CheckRequest(request).Failure?)
    || (exists errno :: log == [SetRefused(Frame(c.tid, request), errno)])
    || (exists reply :: log == Block(c, request, reply))
  }

  lemma TransactRawTrace(c: Config, log: Log, request: Report)
    ensures var log' := TransactRaw(c, log, request).1;
            log <= log' && LastBlock(c, request, log'[|log|..])
    ensures var (r, log') := TransactRaw(c, log, request);
            r.Success? ==> exists reply :: log' == log + Block(c, request, reply) && Receive(reply) == r
  {
    match Send(c, log, request)
    case (Success(_), sent) =>
      var reply := c.device.reply(sent);
      assert sent + [Get(reply)] == log + Block(c, request, reply);
    case (Failure(_), sent) =>
  }

  lemma {:induction false} StartTrace(c: Config, log: Log, request: Report, j: nat) returns (replies: seq<Reply>)
    requires forall i :: 0 <= i < j ==> Rejected(c, log, request, i)
    ensures |replies| == j && Start(c, log, request, j) == log + Blocks(c, request, replies)
    ensures forall i :: 0 <= i < j ==> Receive(replies[i]) == Outcome(c, log, request, i)
  {
    hide TransactRaw, CheckResponse, Receive, Block;
    if j == 0 {
      replies := [];
    } else {
      var before := StartTrace(c, log, request, j - 1);
      assert Rejected(c, log, request, j - 1);
      var start := Start(c, log, request, j - 1);
      TransactRawTrace(c, start, request);
      var reply :| TransactRaw(c, start, request).1 == start + Block(c, request, reply)
                   && Receive(reply) == Outcome(c, log, request, j - 1);
      replies := before + [reply];
      assert replies[..|replies| - 1] == before;
      assert Start(c, log, request, j) == log + Blocks(c, request, replies);
    }
  }

  /** The events of a transaction are exactly SET, wait, GET blocks, one per attempt,
      separated by single retry delays; only the last may be cut short. */
  lemma TransactTrace(c: Config, st: State, request: Report)
    ensures var st' := Transact(c, st, request).1;
            exists replies: seq<Reply>, tail: Log ::
              && |replies| == st'.attempts - 1
              && st'.log == st.log + Blocks(c, request, replies) + tail
              && LastBlock(c, request, tail)
              && (forall i :: 0 <= i < |replies| ==> TurnedDown(request, replies[i]))
  {
    hide TransactRaw, CheckResponse, Receive, Block, LastBlock;
    var (r, st') := Transact(c, st, request);
    TransactCharacterised(c, st, request, r, st');
    var j := st'.attempts - 1;
    var replies := StartTrace(c, st.log, request, j);
    var start := Start(c, st.log, request, j);
    TransactRawTrace(c, start, request);
    var tail := st'.log[|start|..];
    assert st'.log == start + tail;
    forall i | 0 <= i < |replies| ensures TurnedDown(request, replies[i])
    {
      assert Rejected(c, st.log, request, i);
    }
  }
}
