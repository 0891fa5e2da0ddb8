/** What the session does, in bytes: which buffers it hands over, which answers it accepts and
    what it makes of them. Nothing here is stated through the codec, the acceptance test, the
    command constructors or the code tables it is about. */
module OnTheWire {
  import opened Wrappers
  import opened Checksum
  import opened ReportCodec
  import opened Messages
  import opened Device
  import opened Protocol

  // ------------------------------------------------------------- one buffer

  /** The status byte of a status. */
  predicate StatusIs(status: Status, code: byte) {
    match status
    case New => code == 0x00
    case Busy => code == 0x01
    case Successful => code == 0x02
    case CommandFailure => code == 0x03
    case Timeout => code == 0x04
    case NotSupported => code == 0x05
    case Unknown(other) => code == other
  }

  /** The packet count in bytes 3 and 4, big-endian. */
  function PacketsIn(b: Buffer): bv16 {
    (b[3] as bv16) * 256 + (b[4] as bv16)
  }

  /** The buffer carries the report, behind a report id: byte by byte. */
  predicate Carries(b: Buffer, r: Report) {
    && StatusIs(r.status, b[1]) && b[2] == r.transactionId && PacketsIn(b) == r.remainingPackets
    && b[5] == r.protocolType && b[6] == r.dataSize && b[7] == r.commandClass && b[8] == r.commandId
    && b[9..89] == r.arguments && b[90] == r.reserved
  }

  lemma BigEndian(high: byte, low: byte, v: bv16)
    ensures FromBigEndian(high, low) == (high as bv16) * 256 + (low as bv16)
    ensures (HighByte(v) as bv16) * 256 + (LowByte(v) as bv16) == v
  {
  }

  /** The frame of a request: report id 0, the fields in their places with the session's id,
      and the XOR of bytes 3 to 88. */
  lemma FrameInBytes(tid: byte, request: Report)
    ensures var f := Frame(tid, request);
            f[0] == 0 && Carries(f, request.(transactionId := tid)) && f[89] == XorAll(f[3..89])
  {
    hide XorAll, HighByte, LowByte;
    var stamped := request.(transactionId := tid);
    var f, e := Frame(tid, request), Encode(stamped);
    EncodedBytes(stamped);
    EncodeVerifies(stamped);
    BigEndian(0, 0, request.remainingPackets);
    assert f[1..] == e && forall i :: 0 < i < HIDRAW_BUF_LEN ==> f[i] == e[i - 1];
    assert f[9..89] == e[8..88] && f[3..89] == e[2..88];
  }

  /** A full answer is decoded field by field, a known status by its name. */
  lemma ReceivedInBytes(got: nat, b: Buffer)
    ensures got < 91 ==> Receive(Data(got, b)) == Failure(ShortRead(got))
    ensures got >= 91 ==>
              && Receive(Data(got, b)).Success? && Carries(b, Receive(Data(got, b)).value)
              && Canonical(Receive(Data(got, b)).value.status) && Receive(Data(got, b)).value.crc == b[89]
  {
    hide FromBigEndian;
    BigEndian(b[3], b[4], 0);
    assert b[1..][8..88] == b[9..89];
  }

  // ------------------------------------------------------ the acceptance test

  /** The answer echoes the request, fits, and says BUSY or SUCCESSFUL. */
  predicate Acceptable(request: Report, b: Buffer) {
    && request.dataSize <= 80 && b[6] <= 80
    && PacketsIn(b) == request.remainingPackets && b[7] == request.commandClass && b[8] == request.commandId
    && (b[1] == 0x01 || b[1] == 0x02)
  }

  /** The first thing that is wrong with an answer. */
  predicate WrongWith(request: Report, b: Buffer, e: ProtoError) {
    if request.dataSize > 80 then e == DataSizeTooLarge(request.dataSize)
    else if b[6] > 80 then e == DataSizeTooLarge(b[6])
    else if PacketsIn(b) != request.remainingPackets then e == PacketsMismatch(request.remainingPackets, PacketsIn(b))
    else if b[7] != request.commandClass then e == ClassMismatch(request.commandClass, b[7])
    else if b[8] != request.commandId then e == IdMismatch(request.commandId, b[8])
    else b[1] != 0x01 && b[1] != 0x02 && e.DeviceStatus? && StatusIs(e.status, b[1]) && Canonical(e.status)
  }

  /** The acceptance test by the bytes of the answer, both ways, with its errors in order. */
  lemma AcceptanceInBytes(request: Report, got: nat, b: Buffer)
    requires got >= 91
    ensures var r := CheckResponse(request, Receive(Data(got, b)).value);
            && (r.Success? <==> Acceptable(request, b))
            && (forall e :: r == Failure(e) <==> !Acceptable(request, b) && WrongWith(request, b, e))
  {
    hide Receive, PacketsIn;
    ReceivedInBytes(got, b);
    var response := Receive(Data(got, b)).value;
    forall e ensures CheckResponse(request, response) == Failure(e) <==> !Acceptable(request, b) && WrongWith(request, b, e) {
      if e.DeviceStatus? {
        NamedOnce(e.status, response.status, b[1]);
      }
    }
  }

  lemma NamedOnce(s: Status, t: Status, code: byte)
    requires StatusIs(t, code) && Canonical(t)
    ensures StatusIs(s, code) && Canonical(s) <==> s == t
  {
  }

  // ------------------------------------------------------------- one exchange

  /** What is wrong with a request before anything is sent. */
  predicate Malformable(request: Report, e: ProtoError) {
    if request.dataSize > 80 then e == DataSizeTooLarge(request.dataSize)
    else if request.protocolType != 0 then e == Malformed(ProtocolTypeNotZero)
    else request.reserved != 0 && e == Malformed(ReservedNotZero)
  }

  predicate Sendable(request: Report) {
    request.dataSize <= 80 && request.protocolType == 0 && request.reserved == 0
  }

  /** The events of one exchange after a history, and the result they leave: nothing and an
      error, a SET the device refuses, or SET, wait and GET with the device's reply. */
  ghost predicate Exchange(c: Config, log: Log, request: Report, events: Log, r: Result<Report, HidError>) {
    var frame := Frame(c.tid, request);
    var refusal, reply := c.device.accept(log, frame), c.device.reply(log + [Set(frame)] + [Sleep(c.entry.wait)]);
    if !Sendable(request) then events == [] && r.Failure? && r.error.Proto? && Malformable(request, r.error.error)
    else if refusal.Some? then
      events == [SetRefused(frame, refusal.value)] && r == Failure(Io(SetFeatureCall, refusal.value))
    else events == [Set(frame), Sleep(c.entry.wait), Get(reply)] && Understood(reply, r)
  }

  /** The result of a GET. */
  predicate Understood(reply: Reply, r: Result<Report, HidError>) {
    match reply
    case Fault(errno) => r == Failure(Io(GetFeatureCall, errno))
    case Data(got, b) =>
      if got < 91 then r == Failure(ShortRead(got))
      else r.Success? && Carries(b, r.value) && Canonical(r.value.status) && r.value.crc == b[89]
  }

  lemma ReplyUnderstood(reply: Reply)
    ensures Understood(reply, Receive(reply))
  {
    hide Receive, Carries;
    match reply
    case Data(got, b) => ReceivedInBytes(got, b);
    case Fault(errno) => FaultReceived(errno);
  }

  lemma FaultReceived(errno: int)
    ensures Receive(Fault(errno)) == Failure(Io(GetFeatureCall, errno))
  {
  }

  /** `transact_raw`, as the bytes and events it comes to. */
  lemma ExchangeOnTheWire(c: Config, log: Log, request: Report)
    ensures var (r, log') := TransactRaw(c, log, request);
            log <= log' && Exchange(c, log, request, log'[|log|..], r)
  {
    hide Frame, Receive, Understood;
    if Sendable(request) {
      var frame := Frame(c.tid, request);
      match c.device.accept(log, frame)
      case Some(errno) =>
        assert (log + [SetRefused(frame, errno)])[|log|..] == [SetRefused(frame, errno)];
      case None =>
        var sent := log + [Set(frame)] + [Sleep(c.entry.wait)];
        var reply := c.device.reply(sent);
        ReplyUnderstood(reply);
        assert (sent + [Get(reply)])[|log|..] == [Set(frame), Sleep(c.entry.wait), Get(reply)];
    }
  }

  // ----------------------------------------------------------- a transaction

  /** The buffer of a full-length reply. */
  function Full(reply: Reply): Option<Buffer> {
    match reply
    case Data(got, b) => if got >= 91 then Some(b) else None
    case Fault(_) => None
  }

  /** The buffer of the full-length reply that ends the events. */
  function LastBuffer(events: Log): Option<Buffer> {
    if events != [] && events[|events| - 1].Get? then Full(events[|events| - 1].reply) else None
  }

  predicate TurnedAway(request: Report, reply: Reply) {
    Full(reply).Some? && !Acceptable(request, Full(reply).value)
  }

  /** How attempt `n` (from 1) ends the loop: with the error of its exchange, with the answer
      accepted, or, the fifth, with what is wrong with its answer. */
  ghost predicate Ends(c: Config, log: Log, request: Report, n: nat, events: Log, r: Result<Report, HidError>) {
    match LastBuffer(events)
    case Some(b) =>
      if Acceptable(request, b) then Exchange(c, log, request, events, r) && r.Success?
      else
        && n == 5 && r.Failure? && r.error.RetriesExhausted? && WrongWith(request, b, r.error.last)
        && exists response :: Exchange(c, log, request, events, Success(response))
    case None => Exchange(c, log, request, events, r) && r.Failure?
  }

  /** A transaction by its bytes: up to four exchanges answered in full and turned away, each
      followed by 10 ms, then one that ends it. The id on record is that of the last full
      answer. */
  ghost predicate Transaction(
      c: Config, st: State, request: Report, replies: seq<Reply>, tail: Log, r: Result<Report, HidError>, st': State) {
    var start := st.log + Blocks(c, request, replies);
    && |replies| < 5 && st'.attempts == |replies| + 1 && st'.log == start + tail
    && (forall i :: 0 <= i < |replies| ==> TurnedAway(request, replies[i]))
    && Ends(c, start, request, st'.attempts, tail, r)
    && st'.echoed == match LastBuffer(tail)
                     case Some(b) => Some(b[2])
                     case None => if replies == [] then st.echoed else Some(Full(replies[|replies| - 1]).value[2])
  }

  lemma ExchangeEnds(c: Config, log: Log, request: Report, events: Log, r: Result<Report, HidError>)
    requires Exchange(c, log, request, events, r)
    ensures r.Success? <==> LastBuffer(events).Some?
    ensures r.Success? ==> Carries(LastBuffer(events).value, r.value)
  {
    hide Frame, Carries;
  }

  lemma FullIsReceived(reply: Reply)
    ensures Receive(reply).Success? <==> Full(reply).Some?
    ensures Full(reply).Some? ==> Receive(reply) == Receive(Data(91, Full(reply).value))
  {
    hide Decode;
  }

  /** What the rejection of an attempt says about its reply. */
  lemma RejectedReply(c: Config, log: Log, request: Report, j: nat, reply: Reply)
    requires Rejected(c, log, request, j) && Receive(reply) == Outcome(c, log, request, j)
    ensures TurnedAway(request, reply)
    ensures Recorded(c, log, request, j) == Some(Full(reply).value[2])
  {
    hide Outcome, Receive, CheckResponse, Acceptable, Carries;
    FullIsReceived(reply);
    AcceptanceInBytes(request, 91, Full(reply).value);
    RecordedId(Full(reply).value);
  }

  lemma RecordedId(b: Buffer)
    ensures Receive(Data(91, b)).Success? && Receive(Data(91, b)).value.transactionId == b[2]
  {
    hide Receive;
    ReceivedInBytes(91, b);
  }

  /** What an exchange hands back is the decoded buffer of its reply. */
  lemma ExchangeBuffer(c: Config, log: Log, request: Report)
    ensures var (r, log') := TransactRaw(c, log, request);
            log <= log' && (r.Success? ==> LastBuffer(log'[|log|..]).Some? && r == Receive(Data(91, LastBuffer(log'[|log|..]).value)))
  {
    hide Frame, Receive;
    var (r, log') := TransactRaw(c, log, request);
    ExchangeOnTheWire(c, log, request);
    if r.Success? {
      ExchangeEnds(c, log, request, log'[|log|..], r);
      var frame := Frame(c.tid, request);
      var reply := c.device.reply(log + [Set(frame)] + [Sleep(c.entry.wait)]);
      FullIsReceived(reply);
      assert log'[|log|..][|log'[|log|..]| - 1] == Get(reply);
    }
  }

  /** `transact`, by the bytes of the answers alone. */
  lemma TransactOnTheWire(c: Config, st: State, request: Report) returns (replies: seq<Reply>, tail: Log)
    ensures var (r, st') := Transact(c, st, request);
            Transaction(c, st, request, replies, tail, r, st')
  {
    hide TransactRaw, CheckResponse, Receive, Exchange, Acceptable, WrongWith, LastBuffer, Blocks, Transact;
    var (r, st') := Transact(c, st, request);
    TransactCharacterised(c, st, request, r, st');
    var j := st'.attempts - 1;
    replies := StartTrace(c, st.log, request, j);
    var start := Start(c, st.log, request, j);
    forall i | 0 <= i < |replies|
      ensures TurnedAway(request, replies[i]) && Recorded(c, st.log, request, i) == Some(Full(replies[i]).value[2])
    {
      RejectedReply(c, st.log, request, i, replies[i]);
    }
    ExchangeOnTheWire(c, start, request);
    ExchangeBuffer(c, start, request);
    tail := st'.log[|start|..];
    assert st'.log == start + tail;
    var raw := TransactRaw(c, start, request).0;
    ExchangeEnds(c, start, request, tail, raw);
    if raw.Success? {
      var b := LastBuffer(tail).value;
      AcceptanceInBytes(request, 91, b);
      RecordedId(b);
    }
  }

  /** The three raw operations: a send stops before the GET, and neither it nor a single
      exchange touches the attempt count or the id on record. */
  lemma RawOperations(c: Config, st: State, request: Report)
    ensures var (r, st') := Perform(c, st, SendReport(request));
            && st' == st.(log := st'.log) && st.log <= st'.log
            && Sent(c, st.log, request, st'.log[|st.log|..], r)
    ensures var (r, st') := Perform(c, st, ExchangeReport(request));
            && st' == st.(log := st'.log) && st.log <= st'.log
            && (r.Success? ==> r.value.Response?)
            && Exchange(c, st.log, request, st'.log[|st.log|..], if r.Success? then Success(r.value.response) else Failure(r.error))
    ensures var (r, st') := Perform(c, st, TransactReport(request));
            && (r.Success? ==> r.value.Response?)
            && (if r.Success? then Success(r.value.response) else Failure(r.error), st') == Transact(c, st, request)
  {
    hide Frame, Receive, Understood, Transact;
    ExchangeOnTheWire(c, st.log, request);
  }

  /** What a send alone leaves behind. */
  ghost predicate Sent(c: Config, log: Log, request: Report, events: Log, r: Result<Value, HidError>) {
    var frame := Frame(c.tid, request);
    var refusal := c.device.accept(log, frame);
    if !Sendable(request) then events == [] && r.Failure? && r.error.Proto? && Malformable(request, r.error.error)
    else if refusal.Some? then
      events == [SetRefused(frame, refusal.value)] && r == Failure(Io(SetFeatureCall, refusal.value))
    else events == [Set(frame), Sleep(c.entry.wait)] && r == Success(Done)
  }
}
