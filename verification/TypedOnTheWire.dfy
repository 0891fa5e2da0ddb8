/** The typed operations in bytes: which guard stops each, which frame each repeats, and what each
    makes of the answer it accepts. */
module TypedOnTheWire {
  import opened Wrappers
  import opened Checksum
  import opened ReportCodec
  import opened Messages
  import opened Device
  import opened Protocol
  import opened GoldenFrames
  import opened Interrogation
  import opened OnTheWire
  import R = Runs

  // ------------------------------------------------------------- the guards

  /** The capability bit an operation needs, and the name its refusal carries. */
  function Needs(op: Op): (Capabilities, Feature)
    requires Typed(op)
  {
    match op
    case SetDeviceMode(_) => (0x01, DeviceModeFeature)
    case GetDeviceMode => (0x01, DeviceModeFeature)
    case FirmwareVersion => (0x02, FirmwareVersionFeature)
    case Serial => (0x04, SerialFeature)
    case SetBrightness(_) => (0x08, BrightnessFeature)
    case GetBrightness => (0x08, BrightnessFeature)
    case SetStaticEffect(_) => (0x10, StaticEffectFeature)
    case SetPollRate(_) => (0x20, PollRateFeature)
    case GetPollRate => (0x20, PollRateFeature)
  }

  predicate UsesLed(op: Op) {
    op.SetBrightness? || op.GetBrightness? || op.SetStaticEffect?
  }

  predicate KnownLed(led: byte) {
    led == 0x00 || led == 0x01 || led == 0x04 || led == 0x05
  }

  /** A legacy device takes three rates only. */
  predicate NoSuchRate(entry: DeviceEntry, op: Op) {
    op.SetPollRate? && entry.pollRateKind.Legacy? && op.rate != Hz125 && op.rate != Hz500 && op.rate != Hz1000
  }

  predicate Able(entry: DeviceEntry, op: Op)
    requires Typed(op)
  {
    entry.capabilities & Needs(op).0 != 0
  }

  /** Nothing stops the operation. */
  predicate Passes(entry: DeviceEntry, op: Op)
    requires Typed(op)
  {
    Able(entry, op) && (UsesLed(op) ==> KnownLed(entry.defaultLed)) && !NoSuchRate(entry, op)
  }

  /** Each single-bit capability is contained exactly when its bit is set. */
  lemma OneBit(have: Capabilities)
    ensures Contains(have, 0x01) <==> have & 0x01 != 0
    ensures Contains(have, 0x02) <==> have & 0x02 != 0
    ensures Contains(have, 0x04) <==> have & 0x04 != 0
    ensures Contains(have, 0x08) <==> have & 0x08 != 0
    ensures Contains(have, 0x10) <==> have & 0x10 != 0
    ensures Contains(have, 0x20) <==> have & 0x20 != 0
  {
  }

  lemma NeedsOneBit(entry: DeviceEntry, op: Op)
    requires Typed(op)
    ensures Contains(entry.capabilities, Needs(op).0) <==> Able(entry, op)
  {
    hide Contains;
    OneBit(entry.capabilities);
  }

  lemma LedOfTable(entry: DeviceEntry)
    ensures KnownLed(entry.defaultLed) ==> DefaultLed(entry).Success? && LedByte(DefaultLed(entry).value) == entry.defaultLed
    ensures !KnownLed(entry.defaultLed) ==> DefaultLed(entry) == Failure(Unsupported(entry.pid, ThisLedId))
  {
  }

  lemma RatesWithCode(rate: PollRate)
    ensures LegacyCode(rate).Some? <==> rate == Hz125 || rate == Hz500 || rate == Hz1000
  {
  }

  lemma GuardsOfRequest(entry: DeviceEntry, op: Op)
    requires Typed(op)
    ensures RequestOf(entry, op).Success? <==> Passes(entry, op)
    ensures !Able(entry, op) ==> RequestOf(entry, op) == Failure(Unsupported(entry.pid, Needs(op).1))
    ensures Able(entry, op) && UsesLed(op) && !KnownLed(entry.defaultLed) ==>
              RequestOf(entry, op) == Failure(Unsupported(entry.pid, ThisLedId))
    ensures Able(entry, op) && NoSuchRate(entry, op) ==> RequestOf(entry, op) == Failure(Proto(Malformed(NoLegacyEncoding)))
  {
    hide Contains, Command, LedByte, ModeByte, V2Code, LegacyCode, Able, DefaultLed, KnownLed;
    NeedsOneBit(entry, op);
    LedOfTable(entry);
    if op.SetPollRate? {
      RatesWithCode(op.rate);
    }
  }

  /** An operation is refused, with nothing sent and nothing changed, exactly when its
      capability bit is missing, the table names no known LED it needs, or its rate has no
      legacy code; otherwise it is tried. */
  lemma GuardsStop(c: Config, st: State, op: Op)
    requires Typed(op)
    ensures !Able(c.entry, op) ==> Perform(c, st, op) == (Failure(Unsupported(c.entry.pid, Needs(op).1)), st)
    ensures Able(c.entry, op) && UsesLed(op) && !KnownLed(c.entry.defaultLed) ==>
              Perform(c, st, op) == (Failure(Unsupported(c.entry.pid, ThisLedId)), st)
    ensures Able(c.entry, op) && NoSuchRate(c.entry, op) ==>
              Perform(c, st, op) == (Failure(Proto(Malformed(NoLegacyEncoding))), st)
    ensures Passes(c.entry, op) ==> 1 <= Perform(c, st, op).1.attempts <= 5 && FramesOf(Perform(c, st, op).1.log) != FramesOf(st.log)
  {
    hide RequestOf, Transact, Passes, FramesOf;
    GuardsOfRequest(c.entry, op);
    if Passes(c.entry, op) {
      FramesOfOperation(c, st, op);
    }
  }

  lemma FramesOfOperation(c: Config, st: State, op: Op)
    requires Typed(op) && RequestOf(c.entry, op).Success?
    ensures var n := Perform(c, st, op).1.attempts;
            && 1 <= n <= 5
            && FramesOf(Perform(c, st, op).1.log) ==
               FramesOf(st.log) + Repeat(Frame(c.tid, RequestOf(c.entry, op).value), n)
  {
    hide RequestOf, Retry, FramesOf, Frame;
    var request := RequestOf(c.entry, op).value;
    R.TypedRequestsAreSound(c.entry, op);
    RetryFrames(c, st, request, 0, None);
    R.TransactElapsed(c, st, request);
  }

  // ------------------------------------------------------------- the frames

  /** The frame of a command, byte for byte: report id, status 0, the id, no packets to follow,
      protocol 0, size, class, command id, payload, zeros, checksum, 0. */
  function CommandBuffer(tid: byte, size: byte, commandClass: byte, commandId: byte, payload: seq<byte>): Buffer
    requires |payload| <= 80
  {
    [0, 0, tid, 0, 0, 0, size, commandClass, commandId] + payload + Zeros(80 - |payload|)
    + [size ^ commandClass ^ commandId ^ XorAll(payload), 0]
  }

  /** The operation hands over this frame, once per attempt, and no other. */
  ghost predicate Says(c: Config, st: State, op: Op, frame: Buffer) {
    var st' := Perform(c, st, op).1;
    1 <= st'.attempts <= 5 && FramesOf(st'.log) == FramesOf(st.log) + Repeat(frame, st'.attempts)
  }

  lemma FrameOfCommand(tid: byte, size: byte, commandClass: byte, commandId: byte, payload: seq<byte>)
    requires |payload| <= 80
    ensures Frame(tid, Command(commandClass, commandId, size, payload)) == CommandBuffer(tid, size, commandClass, commandId, payload)
  {
    hide XorAll, Encode, Command, Zeros;
    CommandFrame(tid, commandClass, commandId, size, payload);
    ZerosLength(80 - |payload|);
    Prepend([0, tid, 0, 0, 0, size, commandClass, commandId], payload, Zeros(80 - |payload|),
      [size ^ commandClass ^ commandId ^ XorAll(payload), 0]);
  }

  lemma ZerosLength(n: nat)
    ensures |Zeros(n)| == n
  {
  }

  lemma Prepend(front: seq<byte>, payload: seq<byte>, padding: seq<byte>, end: seq<byte>)
    requires |front| == 8
    ensures [0] + (front + payload + padding + end)
         == [0, front[0], front[1], front[2], front[3], front[4], front[5], front[6], front[7]] + payload + padding + end
  {
  }

  lemma SaysCommand(c: Config, st: State, op: Op, size: byte, commandClass: byte, commandId: byte, payload: seq<byte>)
    requires Typed(op) && |payload| <= 80 && RequestOf(c.entry, op) == Success(Command(commandClass, commandId, size, payload))
    ensures Says(c, st, op, CommandBuffer(c.tid, size, commandClass, commandId, payload))
  {
    hide RequestOf, FramesOf, Perform, Command, Frame, CommandBuffer;
    FramesOfOperation(c, st, op);
    FrameOfCommand(c.tid, size, commandClass, commandId, payload);
  }

  /** Device mode: 0 is the normal mode and 3 the driver mode. */
  lemma ModeOnTheWire(c: Config, st: State)
    requires c.entry.capabilities & 0x01 != 0
    ensures Says(c, st, SetDeviceMode(Normal), CommandBuffer(c.tid, 2, 0x00, 0x04, [0, 0]))
    ensures Says(c, st, SetDeviceMode(Driver), CommandBuffer(c.tid, 2, 0x00, 0x04, [3, 0]))
    ensures Says(c, st, GetDeviceMode, CommandBuffer(c.tid, 2, 0x00, 0x84, []))
  {
    hide Says, CommandBuffer, Contains, Command;
    OneBit(c.entry.capabilities);
    SaysCommand(c, st, SetDeviceMode(Normal), 2, 0x00, 0x04, [0, 0]);
    SaysCommand(c, st, SetDeviceMode(Driver), 2, 0x00, 0x04, [3, 0]);
    SaysCommand(c, st, GetDeviceMode, 2, 0x00, 0x84, []);
  }

  lemma IdentityOnTheWire(c: Config, st: State)
    ensures c.entry.capabilities & 0x02 != 0 ==> Says(c, st, FirmwareVersion, CommandBuffer(c.tid, 2, 0x00, 0x81, []))
    ensures c.entry.capabilities & 0x04 != 0 ==> Says(c, st, Serial, CommandBuffer(c.tid, 22, 0x00, 0x82, []))
  {
    hide Says, CommandBuffer, Contains, Command;
    OneBit(c.entry.capabilities);
    if c.entry.capabilities & 0x02 != 0 {
      SaysCommand(c, st, FirmwareVersion, 2, 0x00, 0x81, []);
    }
    if c.entry.capabilities & 0x04 != 0 {
      SaysCommand(c, st, Serial, 22, 0x00, 0x82, []);
    }
  }

  /** Brightness: storage 1, the table's LED, the level. */
  lemma BrightnessOnTheWire(c: Config, st: State, level: byte)
    requires c.entry.capabilities & 0x08 != 0 && KnownLed(c.entry.defaultLed)
    ensures Says(c, st, SetBrightness(level), CommandBuffer(c.tid, 3, 0x0F, 0x04, [1, c.entry.defaultLed, level]))
    ensures Says(c, st, GetBrightness, CommandBuffer(c.tid, 3, 0x0F, 0x84, [1, c.entry.defaultLed]))
  {
    hide Says, CommandBuffer, Contains, Command, DefaultLed, LedByte;
    OneBit(c.entry.capabilities);
    LedOfTable(c.entry);
    SaysCommand(c, st, SetBrightness(level), 3, 0x0F, 0x04, [1, c.entry.defaultLed, level]);
    SaysCommand(c, st, GetBrightness, 3, 0x0F, 0x84, [1, c.entry.defaultLed]);
  }

  /** The static effect: storage 1, the table's LED, 1, 0, 0, 1, then red, green, blue. */
  lemma StaticEffectOnTheWire(c: Config, st: State, rgb: Rgb)
    requires c.entry.capabilities & 0x10 != 0 && KnownLed(c.entry.defaultLed)
    ensures Says(c, st, SetStaticEffect(rgb),
              CommandBuffer(c.tid, 9, 0x0F, 0x02, [1, c.entry.defaultLed, 1, 0, 0, 1, rgb.r, rgb.g, rgb.b]))
  {
    hide Says, CommandBuffer, Contains, Command, DefaultLed, LedByte;
    OneBit(c.entry.capabilities);
    LedOfTable(c.entry);
    SaysCommand(c, st, SetStaticEffect(rgb), 9, 0x0F, 0x02, [1, c.entry.defaultLed, 1, 0, 0, 1, rgb.r, rgb.g, rgb.b]);
  }

  // The two families of poll-rate codes.

  function Hertz(rate: PollRate): nat {
    match rate
    case Hz125 => 125
    case Hz250 => 250
    case Hz500 => 500
    case Hz1000 => 1000
    case Hz2000 => 2000
    case Hz4000 => 4000
    case Hz8000 => 8000
  }

  /** A newer code divides 8000 Hz, one bit per rate. */
  predicate V2Means(code: byte, rate: PollRate) {
    code as int * Hertz(rate) == 8000
  }

  /** An older code divides 1000 Hz, and there is none for 250 Hz. */
  predicate LegacyMeans(code: byte, rate: PollRate) {
    code as int * Hertz(rate) == 1000 && rate != Hz250
  }

  lemma V2Codes(code: byte, rate: PollRate)
    ensures V2Means(code, rate) <==> V2Code(rate) == code
    ensures FromV2Code(code) == Some(rate) <==> V2Means(code, rate)
  {
  }

  lemma LegacyCodes(code: byte, rate: PollRate)
    ensures LegacyMeans(code, rate) <==> LegacyCode(rate) == Some(code)
    ensures FromLegacyCode(code) == Some(rate) <==> LegacyMeans(code, rate)
  {
  }

  /** Setting the rate: argument byte 0 and the newer code, or the older code alone. */
  lemma SetPollRateOnTheWire(c: Config, st: State, rate: PollRate, code: byte)
    requires c.entry.capabilities & 0x20 != 0
    ensures c.entry.pollRateKind.V2? && V2Means(code, rate) ==>
              Says(c, st, SetPollRate(rate), CommandBuffer(c.tid, 2, 0x00, 0x40, [0, code]))
    ensures c.entry.pollRateKind.Legacy? && LegacyMeans(code, rate) ==>
              Says(c, st, SetPollRate(rate), CommandBuffer(c.tid, 1, 0x00, 0x05, [code]))
  {
    hide Says, CommandBuffer, Contains, Command, V2Code, LegacyCode, V2Means, LegacyMeans;
    OneBit(c.entry.capabilities);
    V2Codes(code, rate);
    LegacyCodes(code, rate);
    if c.entry.pollRateKind.V2? && V2Means(code, rate) {
      SaysCommand(c, st, SetPollRate(rate), 2, 0x00, 0x40, [0, code]);
    }
    if c.entry.pollRateKind.Legacy? && LegacyMeans(code, rate) {
      SaysCommand(c, st, SetPollRate(rate), 1, 0x00, 0x05, [code]);
    }
  }

  lemma GetPollRateOnTheWire(c: Config, st: State)
    requires c.entry.capabilities & 0x20 != 0
    ensures c.entry.pollRateKind.V2? ==> Says(c, st, GetPollRate, CommandBuffer(c.tid, 1, 0x00, 0xC0, []))
    ensures c.entry.pollRateKind.Legacy? ==> Says(c, st, GetPollRate, CommandBuffer(c.tid, 1, 0x00, 0x85, []))
  {
    hide Says, CommandBuffer, Contains, Command;
    OneBit(c.entry.capabilities);
    if c.entry.pollRateKind.V2? {
      SaysCommand(c, st, GetPollRate, 1, 0x00, 0xC0, []);
    } else {
      SaysCommand(c, st, GetPollRate, 1, 0x00, 0x85, []);
    }
  }

  // ------------------------------------------------------------ the answers

  /** Tab, line feed, vertical tab, form feed, carriage return, space. */
  predicate White(b: byte) {
    b == 9 || b == 10 || b == 11 || b == 12 || b == 13 || b == 32
  }

  lemma WhiteIsSpace(b: byte)
    ensures White(b) <==> IsSpace(b)
  {
  }

  /** The text of the 22-byte field: what stands before the first NUL, without the white space
      at its end. */
  predicate TrimmedField(field: seq<byte>, text: seq<byte>) {
    && |text| <= |field| && text == field[..|text|]
    && (text != [] ==> !White(text[|text| - 1]))
    && (forall i :: 0 <= i < |text| ==> 0 < text[i] < 0x80)
    && (exists end :: 0 <= end <= |field| && EndsAt(field, |text|, end))
  }

  /** From `from` on only white space stands before the field's end or first NUL. */
  predicate EndsAt(field: seq<byte>, from: int, end: int) {
    0 <= from <= end <= |field| && (end == |field| || field[end] == 0) && forall i :: from <= i < end ==> White(field[i])
  }

  /** A non-ASCII byte stands before the first NUL. */
  predicate NotText(field: seq<byte>) {
    exists i :: 0 <= i < |field| && field[i] >= 0x80 && forall j :: 0 <= j < i ==> field[j] != 0
  }

  /** What a read makes of the buffer it accepted. */
  predicate Tells(entry: DeviceEntry, op: Op, b: Buffer, r: Result<Value, HidError>)
    requires Typed(op)
  {
    match op
    case FirmwareVersion => r == Success(Pair(b[9], b[10]))
    case GetDeviceMode => r == Success(Pair(b[9], b[10]))
    case GetBrightness => r == Success(Level(b[11]))
    case Serial =>
      if NotText(b[9..31]) then r == Failure(Proto(Malformed(SerialNotAscii)))
      else r.Success? && r.value.Text? && TrimmedField(b[9..31], r.value.text)
    case GetPollRate =>
      if entry.pollRateKind.V2? then
        if r.Success? then r.value.Rate? && V2Means(b[10], r.value.rate)
        else r == Failure(Proto(Malformed(UnknownV2Code))) && NoRate(rate => V2Means(b[10], rate))
      else
        if r.Success? then r.value.Rate? && LegacyMeans(b[9], r.value.rate)
        else r == Failure(Proto(Malformed(UnknownLegacyCode))) && NoRate(rate => LegacyMeans(b[9], rate))
    case _ => r == Success(Done)
  }

  predicate NoRate(means: PollRate -> bool) {
    && !means(Hz125) && !means(Hz250) && !means(Hz500) && !means(Hz1000) && !means(Hz2000) && !means(Hz4000)
    && !means(Hz8000)
  }

  lemma SerialOfField(response: Report)
    ensures var field, r := response.arguments[..22], ReadSerial(response);
            if NotText(field) then r == Failure(Malformed(SerialNotAscii)) else r.Success? && TrimmedField(field, r.value)
  {
    hide White, IsSpace;
    SerialCharacterised(response);
    forall b ensures White(b) <==> IsSpace(b) {
      WhiteIsSpace(b);
    }
    var field := response.arguments[..22];
    assert forall i :: 0 <= i < 22 ==> field[i] == response.arguments[i];
    if ReadSerial(response).Success? {
      var t := ReadSerial(response).value;
      assert t == field[..|t|];
      var end := SerialEnd(response);
      assert EndsAt(field, |t|, end);
    }
  }

  lemma RateOfV2(entry: DeviceEntry, b: Buffer, response: Report)
    requires response.arguments[1] == b[10] && entry.pollRateKind.V2?
    ensures Tells(entry, GetPollRate, b, ValueOf(entry, GetPollRate, response))
  {
    hide V2Means, LegacyMeans, FromV2Code;
    forall rate ensures FromV2Code(b[10]) == Some(rate) <==> V2Means(b[10], rate) {
      V2Codes(b[10], rate);
    }
  }

  lemma RateOfLegacy(entry: DeviceEntry, b: Buffer, response: Report)
    requires response.arguments[0] == b[9] && entry.pollRateKind.Legacy?
    ensures Tells(entry, GetPollRate, b, ValueOf(entry, GetPollRate, response))
  {
    hide V2Means, LegacyMeans, FromLegacyCode;
    forall rate ensures FromLegacyCode(b[9]) == Some(rate) <==> LegacyMeans(b[9], rate) {
      LegacyCodes(b[9], rate);
    }
  }

  lemma ValueTold(entry: DeviceEntry, op: Op, b: Buffer, response: Report)
    requires Typed(op) && Carries(b, response)
    ensures Tells(entry, op, b, ValueOf(entry, op, response))
  {
    hide ReadSerial, NotText, TrimmedField, PacketsIn, StatusIs;
    assert forall i :: 0 <= i < 80 ==> response.arguments[i] == b[9 + i];
    match op
    case GetPollRate =>
      if entry.pollRateKind.V2? {
        RateOfV2(entry, b, response);
      } else {
        RateOfLegacy(entry, b, response);
      }
    case Serial =>
      assert response.arguments[..22] == b[9..31];
      SerialOfField(response);
    case _ =>
  }

  /** A typed operation by its bytes: either an answer was accepted, the last event of the
      history is that answer, and the result is what its bytes tell; or the operation fails as
      its transaction does. */
  lemma AnswerTold(c: Config, st: State, op: Op, request: Report)
    requires Typed(op) && RequestOf(c.entry, op) == Success(request)
    ensures var (r, st') := Perform(c, st, op);
            var t := Transact(c, st, request).0;
            if t.Success? then
              && LastBuffer(st'.log).Some? && Acceptable(request, LastBuffer(st'.log).value)
              && Tells(c.entry, op, LastBuffer(st'.log).value, r)
            else r == Failure(t.error)
  {
    hide RequestOf, Transact, ValueOf, Acceptable, Carries, Tells, Exchange;
    var (r, st') := Perform(c, st, op);
    var t := Transact(c, st, request).0;
    if t.Success? {
      var replies, tail := TransactOnTheWire(c, st, request);
      var start := st.log + Blocks(c, request, replies);
      ExchangeEnds(c, start, request, tail, t);
      assert LastBuffer(start + tail) == LastBuffer(tail);
      ValueTold(c.entry, op, LastBuffer(tail).value, t.value);
    }
  }

  /** The idle verdict in bytes: five attempts, the last full answer echoing the request, with a
      size that fits and status byte 4. */
  lemma IdleInBytes(c: Config, st: State, op: Op, request: Report)
    requires IsRead(op) && RequestOf(c.entry, op) == Success(request)
    ensures var (r, st') := Perform(c, st, op);
            r.Failure? && Idle(r.error) <==>
              st'.attempts == 5
              && match LastBuffer(st'.log)
                 case None => false
                 case Some(b) =>
                   b[1] == 0x04 && b[6] <= 80 && PacketsIn(b) == request.remainingPackets
                   && b[7] == request.commandClass && b[8] == request.commandId
  {
    hide RequestOf, Transact, ValueOf, Carries, PacketsIn, Frame, Tells;
    var (r, st') := Perform(c, st, op);
    var t := Transact(c, st, request).0;
    R.TypedRequestsAreSound(c.entry, op);
    AnswerTold(c, st, op, request);
    var replies, tail := TransactOnTheWire(c, st, request);
    var start := st.log + Blocks(c, request, replies);
    assert tail != [] && LastBuffer(start + tail) == LastBuffer(tail);
    if t.Success? {
      TellsNothingIdle(c.entry, op, LastBuffer(tail).value, r);
    }
  }

  lemma TellsNothingIdle(entry: DeviceEntry, op: Op, b: Buffer, r: Result<Value, HidError>)
    requires Typed(op) && Tells(entry, op, b, r)
    ensures r.Failure? ==> !Idle(r.error)
  {
    hide NotText, TrimmedField, V2Means, LegacyMeans, NoRate;
  }

  /** What an answered reading of an interrogation says, by the bytes of the answer its read
      ended in: version and mode from arguments 0 and 1, the serial from the field. */
  lemma ReadingTold(c: Config, st: State, k: nat)
    requires k < |Made(Interrogate(c, st).0)|
    ensures Made(Interrogate(c, st).0)[k].Answered? ==>
              var b := LastBuffer(Run(c, st, READS[..k + 1]).1.log);
              && b.Some?
              && Tells(c.entry, READS[k], b.value, Success(Made(Interrogate(c, st).0)[k].value))
  {
    hide Perform, Tells, Classify, Run, Interrogate;
    ReadingsAreResults(c, st);
    RunOfReads(c, st);
    var (r1, st1) := Perform(c, st, FirmwareVersion);
    var (r2, st2) := Perform(c, st1, Serial);
    AnsweredRead(c, st, FirmwareVersion);
    AnsweredRead(c, st1, Serial);
    AnsweredRead(c, st2, GetDeviceMode);
  }

  lemma AnsweredRead(c: Config, st: State, op: Op)
    requires Typed(op)
    ensures var (r, st') := Perform(c, st, op);
            r.Success? ==> LastBuffer(st'.log).Some? && Tells(c.entry, op, LastBuffer(st'.log).value, r)
  {
    hide RequestOf, Transact, ValueOf, Tells;
    if RequestOf(c.entry, op).Success? {
      AnswerTold(c, st, op, RequestOf(c.entry, op).value);
    }
  }
}
