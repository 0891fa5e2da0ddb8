/** What holds of every frame and of the time spent, over whole sessions: any sequence of
    public operations against any device. */
module Runs {
  import opened Wrappers
  import opened Checksum
  import opened ReportCodec
  import opened Messages
  import opened Device
  import opened Protocol

  // ------------------------------------------------------------- every frame

  /** A frame that may leave the session: report id 0, the session's transaction id in
      report byte 1, a valid checksum, zero protocol type and reserved byte, and a size
      that fits the argument array. Typed operations also leave the status zero. */
  predicate FrameOk(tid: byte, typed: bool, frame: Buffer) {
    && frame[0] == 0
    && frame[1 + 1] == tid
    && VerifyCrc(frame[1..])
    && frame[1 + 4] == 0 && frame[1 + 89] == 0
    && frame[1 + 5] <= 80
    && (typed ==> frame[1 + 0] == 0)
  }

  predicate EventOk(tid: byte, typed: bool, e: Event) {
    match e
    case Set(frame) => FrameOk(tid, typed, frame)
    case SetRefused(frame, _) => FrameOk(tid, typed, frame)
    case _ => true
  }

  ghost predicate LogOk(tid: byte, typed: bool, log: Log) {
    forall i :: 0 <= i < |log| ==> EventOk(tid, typed, log[i])
  }

  lemma FrameIsOk(tid: byte, typed: bool, request: Report)
    requires CheckRequest(request).Success? && (typed ==> request.status == New)
    ensures FrameOk(tid, typed, Frame(tid, request))
  {
    var stamped := request.(transactionId := tid);
    EncodedBytes(stamped);
    EncodeVerifies(stamped);
    assert Frame(tid, request)[1..] == Encode(stamped);
  }

  lemma TransactRawKeepsFrames(c: Config, typed: bool, log: Log, request: Report)
    requires LogOk(c.tid, typed, log) && (typed ==> request.status == New)
    ensures LogOk(c.tid, typed, Send(c, log, request).1)
    ensures LogOk(c.tid, typed, TransactRaw(c, log, request).1)
  {
    hide Encode, FrameOk;
    if CheckRequest(request).Success? {
      FrameIsOk(c.tid, typed, request);
    }
  }

  lemma {:induction false} RetryKeepsFrames(c: Config, typed: bool, st: State, request: Report, n: nat, last: Option<ProtoError>)
    requires n <= MAX_ATTEMPTS
    requires LogOk(c.tid, typed, st.log) && (typed ==> request.status == New)
    ensures LogOk(c.tid, typed, Retry(c, st, request, n, last).1.log)
    decreases MAX_ATTEMPTS - n
  {
    hide TransactRaw, CheckResponse, FrameOk;
    if n < MAX_ATTEMPTS {
      var before := BeforeAttempt(st.log, n);
      TransactRawKeepsFrames(c, typed, before, request);
      match TransactRaw(c, before, request)
      case (Failure(_), _) =>
      case (Success(response), log) =>
        match CheckResponse(request, response)
        case Success(_) =>
        case Failure(e) =>
          RetryKeepsFrames(c, typed, State(log, n + 1, Some(response.transactionId)), request, n + 1, Some(e));
    }
  }

  /** Every request a typed operation builds passes the outbound check. */
  lemma TypedRequestsAreSound(entry: DeviceEntry, op: Op)
    requires Typed(op) && RequestOf(entry, op).Success?
    ensures CheckRequest(RequestOf(entry, op).value).Success?
    ensures RequestOf(entry, op).value.status == New
  {
  }

  lemma PerformKeepsFrames(c: Config, typed: bool, st: State, op: Op)
    requires LogOk(c.tid, typed, st.log) && (typed ==> Typed(op))
    ensures LogOk(c.tid, typed, Perform(c, st, op).1.log)
  {
    hide Send, TransactRaw, Retry, FrameOk, ValueOf, RequestOf;
    match op
    case SendReport(request) => TransactRawKeepsFrames(c, typed, st.log, request);
    case ExchangeReport(request) => TransactRawKeepsFrames(c, typed, st.log, request);
    case TransactReport(request) => RetryKeepsFrames(c, typed, st, request, 0, None);
    case _ =>
      if RequestOf(c.entry, op).Success? {
        TypedRequestsAreSound(c.entry, op);
        RetryKeepsFrames(c, typed, st, RequestOf(c.entry, op).value, 0, None);
      }
  }

  /** Whatever sequence of public operations runs against whatever device, every frame
      handed to the transport is sound and carries the session's own id; with typed
      operations only, every frame is also a fresh command (status 0). */
  lemma {:induction false} EveryFrameIsSound(c: Config, st: State, ops: seq<Op>, typed: bool)
    requires LogOk(c.tid, typed, st.log)
    requires typed ==> forall i :: 0 <= i < |ops| ==> Typed(ops[i])
    ensures LogOk(c.tid, typed, Run(c, st, ops).1.log)
    decreases |ops|
  {
    hide Perform, EventOk;
    if ops != [] {
      var (_, st') := Perform(c, st, ops[0]);
      PerformKeepsFrames(c, typed, st, ops[0]);
      EveryFrameIsSound(c, st', ops[1..], typed);
    }
  }

  // -------------------------------------------------------------------- time

  /** The operation reaches the retry loop. */
  predicate Transacts(c: Config, op: Op) {
    op.TransactReport? || (Typed(op) && RequestOf(c.entry, op).Success?)
  }

  /** Transactions begun by a run, and the attempts they consumed. */
  function Transactions(c: Config, ops: seq<Op>): nat {
    if ops == [] then 0 else (if Transacts(c, ops[0]) then 1 else 0) + Transactions(c, ops[1..])
  }

  function Attempts(c: Config, st: State, ops: seq<Op>): nat
    decreases |ops|
  {
    if ops == [] then 0
    else
      var st' := Perform(c, st, ops[0]).1;
      (if Transacts(c, ops[0]) then st'.attempts else 0) + Attempts(c, st', ops[1..])
  }

  /** Between two points of a history: the sleep is the device wait once for every SET
      that succeeded, plus `delays` retry delays. */
  predicate Elapsed(c: Config, before: Log, after: Log, delays: nat) {
    && CountSets(before) <= CountSets(after)
    && TotalSleep(after) == TotalSleep(before) + c.entry.wait * (CountSets(after) - CountSets(before)) + 10_000 * delays
  }

  lemma ElapsedCompose(c: Config, a: Log, b: Log, d: Log, m: nat, n: nat)
    requires Elapsed(c, a, b, m) && Elapsed(c, b, d, n)
    ensures Elapsed(c, a, d, m + n)
  {
    hide CountSets, TotalSleep;
    Distributes(c.entry.wait, CountSets(b) - CountSets(a), CountSets(d) - CountSets(b));
  }

  lemma Distributes(wait: nat, x: nat, y: nat)
    ensures wait * (x + y) == wait * x + wait * y
  {
  }

  lemma TransactRawElapsed(c: Config, log: Log, request: Report)
    ensures Elapsed(c, log, Send(c, log, request).1, 0)
    ensures Elapsed(c, log, TransactRaw(c, log, request).1, 0)
    ensures CountSets(TransactRaw(c, log, request).1) <= CountSets(log) + 1
  {
    hide Encode, Receive, CheckRequest;
    match CheckRequest(request)
    case Failure(_) =>
    case Success(_) =>
      var frame := Frame(c.tid, request);
      match c.device.accept(log, frame)
      case Some(errno) =>
        CountOne(log, SetRefused(frame, errno));
      case None =>
        CountOne(log, Set(frame));
        CountOne(log + [Set(frame)], Sleep(c.entry.wait));
        var sent := log + [Set(frame)] + [Sleep(c.entry.wait)];
        CountOne(sent, Get(c.device.reply(sent)));
  }

  /** Retry delays slept before the end of the loop, entered at attempt `n`. */
  function Delays(n: nat, attempts: nat): nat
    requires n <= attempts
  {
    if n == 0 then (if attempts == 0 then 0 else attempts - 1) else attempts - n
  }

  lemma BeforeElapsed(c: Config, log: Log, n: nat)
    ensures Elapsed(c, log, BeforeAttempt(log, n), if n > 0 then 1 else 0)
    ensures CountSets(BeforeAttempt(log, n)) == CountSets(log)
  {
    CountOne(log, Sleep(RETRY_DELAY));
  }

  lemma {:induction false} RetryElapsed(c: Config, st: State, request: Report, n: nat, last: Option<ProtoError>)
    requires n <= MAX_ATTEMPTS && (n > 0 ==> st.attempts == n)
    ensures var st' := Retry(c, st, request, n, last).1;
            && n <= st'.attempts <= MAX_ATTEMPTS && 1 <= st'.attempts
            && Elapsed(c, st.log, st'.log, Delays(n, st'.attempts))
            && CountSets(st'.log) <= CountSets(st.log) + st'.attempts - n
    decreases MAX_ATTEMPTS - n
  {
    hide TransactRaw, CheckResponse, CountSets, Elapsed, BeforeAttempt;
    ElapsedNothing(c, st.log);
    if n < MAX_ATTEMPTS {
      var before := BeforeAttempt(st.log, n);
      BeforeElapsed(c, st.log, n);
      TransactRawElapsed(c, before, request);
      var (r, log) := TransactRaw(c, before, request);
      ElapsedCompose(c, st.log, before, log, if n > 0 then 1 else 0, 0);
      if r.Success? && CheckResponse(request, r.value).Failure? {
        var st' := State(log, n + 1, Some(r.value.transactionId));
        var e := CheckResponse(request, r.value).error;
        RetryElapsed(c, st', request, n + 1, Some(e));
        var end := Retry(c, st', request, n + 1, Some(e)).1;
        ElapsedCompose(c, st.log, log, end.log, if n > 0 then 1 else 0, Delays(n + 1, end.attempts));
      }
    }
  }

  /** One transaction: one to five attempts, at most one SET each, and one retry delay
      between successive attempts. */
  lemma TransactElapsed(c: Config, st: State, request: Report)
    ensures var st' := Transact(c, st, request).1;
            && 1 <= st'.attempts <= MAX_ATTEMPTS
            && Elapsed(c, st.log, st'.log, st'.attempts - 1)
            && CountSets(st'.log) <= CountSets(st.log) + st'.attempts
  {
    hide Retry;
    RetryElapsed(c, st, request, 0, None);
  }

  lemma PerformElapsed(c: Config, st: State, op: Op)
    ensures var st' := Perform(c, st, op).1;
            && (Transacts(c, op) ==> 1 <= st'.attempts <= MAX_ATTEMPTS)
            && Elapsed(c, st.log, st'.log, if Transacts(c, op) then st'.attempts - 1 else 0)
  {
    hide Send, TransactRaw, Transact, ValueOf, RequestOf, Elapsed;
    ElapsedNothing(c, st.log);
    match op
    case SendReport(request) => TransactRawElapsed(c, st.log, request);
    case ExchangeReport(request) => TransactRawElapsed(c, st.log, request);
    case TransactReport(request) => TransactElapsed(c, st, request);
    case _ =>
      if RequestOf(c.entry, op).Success? {
        TransactElapsed(c, st, RequestOf(c.entry, op).value);
      }
  }

  /** Time conservation: over any run, the session sleeps exactly the device wait per
      successful SET plus one retry delay per attempt beyond the first of each
      transaction; attempts lie between one and five per transaction. */
  lemma {:induction false} TimeConserved(c: Config, st: State, ops: seq<Op>)
    ensures var end := Run(c, st, ops).1;
            var attempts, transactions := Attempts(c, st, ops), Transactions(c, ops);
            && transactions <= attempts <= MAX_ATTEMPTS * transactions
            && Elapsed(c, st.log, end.log, attempts - transactions)
    decreases |ops|
  {
    hide Perform, Transacts, Elapsed;
    if ops == [] {
      assert Elapsed(c, st.log, st.log, 0) by { ElapsedNothing(c, st.log); }
    } else {
      var st' := Perform(c, st, ops[0]).1;
      PerformElapsed(c, st, ops[0]);
      TimeConserved(c, st', ops[1..]);
      ElapsedCompose(c, st.log, st'.log, Run(c, st', ops[1..]).1.log,
        if Transacts(c, ops[0]) then st'.attempts - 1 else 0, Attempts(c, st', ops[1..]) - Transactions(c, ops[1..]));
    }
  }

  lemma ElapsedNothing(c: Config, log: Log)
    ensures Elapsed(c, log, log, 0)
  {
  }
}
