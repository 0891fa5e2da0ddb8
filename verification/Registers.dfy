/** The setters and getters of a session against a device that keeps one argument array per
    command: over any sequence of typed operations, each getter tells what the last setter
    set, however often exchanges fail on the way. */
module Registers {
  import opened Wrappers
  import opened Checksum
  import opened ReportCodec
  import opened Messages
  import opened Device
  import opened Protocol

  /** Command class, and command id without the direction bit. */
  type Key = (byte, byte)

  type Store = map<Key, Args>

  function KeyOf(request: Report): Key {
    (request.commandClass, request.commandId & 0x7F)
  }

  function Look(store: Store, key: Key): Args {
    if key in store then store[key] else NoArgs()
  }

  /** The store once a SET has been applied; a GET applies nothing. */
  function Written(store: Store, request: Report): Store {
    if IsGet(request.commandId) then store else store[KeyOf(request) := request.arguments]
  }

  function Unframed(frame: Buffer): Report {
    Decode(frame[1..])
  }

  /** An answer the session would accept is true: to a GET it carries the register, to a
      SET it means the register holds what was sent. Any other answer may be anything. */
  predicate Truthful(request: Report, store: Store, reply: Reply) {
    var r := Receive(reply);
    r.Success? && CheckResponse(request, r.value).Success? ==>
      if IsGet(request.commandId) then r.value.arguments == Look(store, KeyOf(request))
      else store == Written(store, request)
  }

  /** A register device: every SET, accepted or refused, is applied or ignored; reads and
      the passage of time change nothing; accepted answers are truthful. A device may apply
      a SET and answer badly, ignore it and answer badly, or fail the transfer either way. */
  ghost predicate KeepsRegisters(d: Device, store: Log -> Store) {
    && OnlySetsApply(store)
    && (forall log, frame, micros ::
          Truthful(Unframed(frame), store(log + [Set(frame)] + [Sleep(micros)]), d.reply(log + [Set(frame)] + [Sleep(micros)])))
  }

  ghost predicate OnlySetsApply(store: Log -> Store) {
    && (forall log, micros :: store(log + [Sleep(micros)]) == store(log))
    && (forall log, reply :: store(log + [Get(reply)]) == store(log))
    && (forall log, frame :: AppliedOrNot(store(log), store(log + [Set(frame)]), Unframed(frame)))
    && (forall log, frame, errno :: AppliedOrNot(store(log), store(log + [SetRefused(frame, errno)]), Unframed(frame)))
  }

  predicate AppliedOrNot(before: Store, after: Store, request: Report) {
    after == before || after == Written(before, request)
  }

  // -------------------------------------------------------- one transaction

  /** Two requests the register and the acceptance test cannot tell apart. */
  predicate SameCommand(r: Report, s: Report) {
    && r.remainingPackets == s.remainingPackets && r.dataSize == s.dataSize
    && r.commandClass == s.commandClass && r.commandId == s.commandId
    && r.arguments == s.arguments
  }

  lemma UnframedSameCommand(tid: byte, request: Report)
    ensures SameCommand(Unframed(Frame(tid, request)), request)
  {
    hide Encode, Decode, ChecksumOf;
    var stamped := request.(transactionId := tid);
    DecodeEncode(stamped);
    assert Frame(tid, request)[1..] == Encode(stamped);
  }

  lemma SameCommandSameCheck(r: Report, s: Report, response: Report)
    requires SameCommand(r, s)
    ensures CheckResponse(r, response) == CheckResponse(s, response)
  {
  }

  lemma UnframedRequest(tid: byte, request: Report, response: Report)
    ensures var r := Unframed(Frame(tid, request));
            && KeyOf(r) == KeyOf(request) && r.arguments == request.arguments && r.commandId == request.commandId
            && CheckResponse(r, response) == CheckResponse(request, response)
  {
    hide Unframed, Frame, CheckResponse;
    UnframedSameCommand(tid, request);
    SameCommandSameCheck(Unframed(Frame(tid, request)), request, response);
  }

  /** What an exchange can do to the store, and what its answer then means. */
  ghost predicate Effect(before: Store, after: Store, request: Report, accepted: Option<Report>) {
    && AppliedOrNot(before, after, request)
    && (accepted.Some? ==>
          after == Written(before, request)
          && (IsGet(request.commandId) ==> accepted.value.arguments == Look(after, KeyOf(request))))
  }

  function AcceptedResponse(request: Report, r: Result<Report, HidError>): Option<Report> {
    if r.Success? && CheckResponse(request, r.value).Success? then Some(r.value) else None
  }

  lemma TransactRawEffect(c: Config, store: Log -> Store, log: Log, request: Report)
    requires KeepsRegisters(c.device, store)
    ensures var (r, log') := TransactRaw(c, log, request);
            Effect(store(log), store(log'), request, AcceptedResponse(request, r))
  {
    hide Encode, Decode, CheckRequest, CheckResponse, IsGet;
    match CheckRequest(request)
    case Failure(_) =>
    case Success(_) =>
      var frame := Frame(c.tid, request);
      UnframedRequest(c.tid, request, request);
      match c.device.accept(log, frame)
      case Some(errno) =>
        assert AppliedOrNot(store(log), store(log + [SetRefused(frame, errno)]), Unframed(frame));
      case None =>
        var written := log + [Set(frame)];
        var sent := written + [Sleep(c.entry.wait)];
        var reply := c.device.reply(sent);
        assert AppliedOrNot(store(log), store(written), Unframed(frame));
        assert store(written) == store(sent) == store(sent + [Get(reply)]);
        assert Truthful(Unframed(frame), store(sent), reply);
        if Receive(reply).Success? {
          UnframedRequest(c.tid, request, Receive(reply).value);
        }
  }

  lemma {:induction false} RetryEffect(c: Config, store: Log -> Store, st: State, request: Report, n: nat, last: Option<ProtoError>)
    requires KeepsRegisters(c.device, store) && n <= MAX_ATTEMPTS
    ensures var (r, st') := Retry(c, st, request, n, last);
            Effect(store(st.log), store(st'.log), request, AcceptedResponse(request, r))
            && (r.Success? ==> AcceptedResponse(request, r) == Some(r.value))
    decreases MAX_ATTEMPTS - n
  {
    hide TransactRaw, CheckResponse, IsGet;
    if n < MAX_ATTEMPTS {
      var before := BeforeAttempt(st.log, n);
      assert store(before) == store(st.log);
      TransactRawEffect(c, store, before, request);
      match TransactRaw(c, before, request)
      case (Failure(_), _) =>
      case (Success(response), log) =>
        match CheckResponse(request, response)
        case Success(_) =>
        case Failure(e) =>
          // Applying the same SET again is applying it once.
          RetryEffect(c, store, State(log, n + 1, Some(response.transactionId)), request, n + 1, Some(e));
    }
  }

  // ------------------------------------------------------------ one operation

  predicate IsGetter(op: Op) {
    op.GetDeviceMode? || op.GetBrightness? || op.GetPollRate?
  }

  /** The getter that reads back what a setter sets. */
  function ReadBy(op: Op): Option<Op> {
    match op
    case SetDeviceMode(_) => Some(GetDeviceMode)
    case SetBrightness(_) => Some(GetBrightness)
    case SetPollRate(_) => Some(GetPollRate)
    case _ => None
  }

  /** The answer that getter owes after the setter. */
  function ReadBack(op: Op): Value
    requires ReadBy(op).Some?
  {
    match op
    case SetDeviceMode(mode) => Pair(ModeByte(mode), 0x00)
    case SetBrightness(level) => Level(level)
    case SetPollRate(rate) => Rate(rate)
  }

  /** The operation changes what `getter` reads, if it gets past its guards: a legacy rate
      without an encoding, a missing capability or an unknown LED id never does. */
  predicate Sets(entry: DeviceEntry, op: Op, getter: Op)
    requires Typed(op)
  {
    ReadBy(op) == Some(getter) && RequestOf(entry, op).Success?
  }

  /** What a getter makes of the store. */
  function View(entry: DeviceEntry, getter: Op, store: Store): Result<Value, HidError>
    requires IsGetter(getter)
  {
    match RequestOf(entry, getter)
    case Failure(e) => Failure(e)
    case Success(request) =>
      ValueOf(entry, getter, Blank(0, 0, 0).(arguments := Look(store, KeyOf(request))))
  }

  /** A register written by a setter reads back, through the matching getter's own slot and
      code table, as the value set. */
  lemma SetReadsBack(entry: DeviceEntry, op: Op, getter: Op, store: Store)
    requires Typed(op) && IsGetter(getter) && Sets(entry, op, getter)
    ensures View(entry, getter, Written(store, RequestOf(entry, op).value)) == Success(ReadBack(op))
  {
    hide RequestOf, Written, Look, KeyOf, ValueOf;
    var request := RequestOf(entry, op).value;
    SameRegister(entry, op, getter);
    LookWritten(store, request, KeyOf(request));
    SentReadsBack(entry, op, getter, Blank(0, 0, 0).(arguments := request.arguments));
  }

  lemma SentReadsBack(entry: DeviceEntry, op: Op, getter: Op, response: Report)
    requires Typed(op) && IsGetter(getter) && Sets(entry, op, getter)
    requires response.arguments == RequestOf(entry, op).value.arguments
    ensures ValueOf(entry, getter, response) == Success(ReadBack(op))
  {
    hide Padded, V2Code, LegacyCode, FromV2Code, FromLegacyCode, Contains, ModeByte;
    match op
    case SetDeviceMode(mode) =>
      PaddedAt([ModeByte(mode), 0x00], 0);
      PaddedAt([ModeByte(mode), 0x00], 1);
    case SetBrightness(level) =>
      PaddedAt([VAR_STORE, LedByte(DefaultLed(entry).value), level], 2);
    case SetPollRate(rate) =>
      CodesReadBack(rate);
      if entry.pollRateKind.V2? {
        PaddedAt([0x00, V2Code(rate)], 1);
      } else {
        PaddedAt([LegacyCode(rate).value], 0);
      }
  }

  lemma PaddedAt(prefix: seq<byte>, i: nat)
    requires i < |prefix| <= ARGS_LEN
    ensures Padded(prefix)[i] == prefix[i]
  {
  }

  /** Each code table is undone by its reader; the legacy one covers three rates only. */
  lemma CodesReadBack(rate: PollRate)
    ensures FromV2Code(V2Code(rate)) == Some(rate)
    ensures LegacyCode(rate).Some? <==> rate.Hz125? || rate.Hz500? || rate.Hz1000?
    ensures LegacyCode(rate).Some? ==> FromLegacyCode(LegacyCode(rate).value) == Some(rate)
  {
  }

  /** The register map of the typed operations. */
  function Register(entry: DeviceEntry, op: Op): Key
    requires Typed(op)
  {
    match op
    case SetDeviceMode(_) => (0x00, 0x04)
    case GetDeviceMode => (0x00, 0x04)
    case FirmwareVersion => (0x00, 0x01)
    case Serial => (0x00, 0x02)
    case SetBrightness(_) => (0x0F, 0x04)
    case GetBrightness => (0x0F, 0x04)
    case SetStaticEffect(_) => (0x0F, 0x02)
    case _ => if entry.pollRateKind.V2? then (0x00, 0x40) else (0x00, 0x05)
  }

  predicate IsSetter(op: Op) {
    op.SetDeviceMode? || op.SetBrightness? || op.SetStaticEffect? || op.SetPollRate?
  }

  /** The request has the class of its register, and the register's id with bit 7 for the
      direction. */
  predicate Routed(entry: DeviceEntry, op: Op)
    requires Typed(op) && RequestOf(entry, op).Success?
  {
    var request := RequestOf(entry, op).value;
    && request.commandClass == Register(entry, op).0
    && request.commandId == if IsSetter(op) then Register(entry, op).1 else Register(entry, op).1 | 0x80
  }

  lemma SetterRouted(entry: DeviceEntry, op: Op)
    requires Typed(op) && RequestOf(entry, op).Success? && IsSetter(op)
    ensures Routed(entry, op)
  {
    hide Padded, V2Code, LegacyCode, Contains, ModeByte, LedByte, DefaultLed;
  }

  lemma GetterRouted(entry: DeviceEntry, op: Op)
    requires Typed(op) && RequestOf(entry, op).Success? && !IsSetter(op)
    ensures Routed(entry, op)
  {
    hide Padded, Contains, LedByte, DefaultLed;
  }

  /** Every GET id is its SET id with bit 7 set, so both address one register. */
  lemma RequestRegister(entry: DeviceEntry, op: Op)
    requires Typed(op) && RequestOf(entry, op).Success?
    ensures KeyOf(RequestOf(entry, op).value) == Register(entry, op)
    ensures IsGet(RequestOf(entry, op).value.commandId) <==> !IsSetter(op)
  {
    hide RequestOf, Register;
    if IsSetter(op) {
      SetterRouted(entry, op);
    } else {
      GetterRouted(entry, op);
    }
    RegisterIsSetId(entry, op);
    DirectionBit(RequestOf(entry, op).value.commandId, Register(entry, op).1);
  }

  lemma RegisterIsSetId(entry: DeviceEntry, op: Op)
    requires Typed(op)
    ensures Register(entry, op).1 & 0x80 == 0
  {
  }

  lemma DirectionBit(id: byte, setId: byte)
    requires setId & 0x80 == 0 && (id == setId || id == setId | 0x80)
    ensures id & 0x7F == setId && (IsGet(id) <==> id != setId)
  {
  }

  lemma GetterOfSetter(entry: DeviceEntry, op: Op, getter: Op)
    requires Typed(op) && IsGetter(getter) && Sets(entry, op, getter)
    ensures RequestOf(entry, getter).Success? && IsSetter(op) && Register(entry, getter) == Register(entry, op)
  {
    hide Padded, V2Code, Contains, ModeByte, LedByte;
  }

  /** A setter and its getter address the same register, in opposite directions. */
  lemma SameRegister(entry: DeviceEntry, op: Op, getter: Op)
    requires Typed(op) && IsGetter(getter) && Sets(entry, op, getter)
    ensures !IsGet(RequestOf(entry, op).value.commandId)
    ensures RequestOf(entry, getter).Success? && KeyOf(RequestOf(entry, getter).value) == KeyOf(RequestOf(entry, op).value)
  {
    hide RequestOf, KeyOf, IsGet, Register;
    GetterOfSetter(entry, op, getter);
    RequestRegister(entry, op);
    RequestRegister(entry, getter);
  }

  lemma LookWritten(store: Store, request: Report, key: Key)
    ensures Look(Written(store, request), key) ==
            if !IsGet(request.commandId) && KeyOf(request) == key then request.arguments else Look(store, key)
  {
  }

  /** Commands never alias: any other operation leaves what this getter reads alone. */
  lemma OthersDoNotAlias(entry: DeviceEntry, op: Op, getter: Op, store: Store)
    requires Typed(op) && IsGetter(getter) && RequestOf(entry, op).Success?
    requires ReadBy(op) != Some(getter)
    ensures View(entry, getter, Written(store, RequestOf(entry, op).value)) == View(entry, getter, store)
  {
    hide RequestOf, Written, Look, KeyOf, ValueOf, IsGet;
    if RequestOf(entry, getter).Success? {
      RegistersDiffer(entry, op, getter);
      LookWritten(store, RequestOf(entry, op).value, KeyOf(RequestOf(entry, getter).value));
    }
  }

  lemma RegistersDiffer(entry: DeviceEntry, op: Op, getter: Op)
    requires Typed(op) && IsGetter(getter) && RequestOf(entry, op).Success? && RequestOf(entry, getter).Success?
    requires ReadBy(op) != Some(getter)
    ensures IsGet(RequestOf(entry, op).value.commandId)
            || KeyOf(RequestOf(entry, op).value) != KeyOf(RequestOf(entry, getter).value)
  {
    hide RequestOf, KeyOf, IsGet;
    RequestRegister(entry, op);
    RequestRegister(entry, getter);
  }

  /** One operation, as seen through one getter: unrelated and refused operations change
      nothing, a successful setter installs its value, a failed one installs it or not, and
      a successful getter answers what the store says. */
  lemma PerformSeenBy(c: Config, store: Log -> Store, st: State, op: Op, getter: Op)
    requires KeepsRegisters(c.device, store) && Typed(op) && IsGetter(getter)
    ensures var (r, st') := Perform(c, st, op);
            var before, after := View(c.entry, getter, store(st.log)), View(c.entry, getter, store(st'.log));
            && (!Sets(c.entry, op, getter) ==> after == before)
            && (Sets(c.entry, op, getter) ==> after == before || after == Success(ReadBack(op)))
            && (Sets(c.entry, op, getter) && r.Success? ==> after == Success(ReadBack(op)))
            && (op == getter && r.Success? ==> r == after)
            && (RequestOf(c.entry, op).Failure? ==> st' == st)
  {
    hide Retry, RequestOf, Written, View, KeepsRegisters;
    if RequestOf(c.entry, op).Success? {
      var request := RequestOf(c.entry, op).value;
      RetryEffect(c, store, st, request, 0, None);
      var (r, st') := Transact(c, st, request);
      if Sets(c.entry, op, getter) {
        SetReadsBack(c.entry, op, getter, store(st.log));
      } else if ReadBy(op) != Some(getter) {
        OthersDoNotAlias(c.entry, op, getter, store(st.log));
      }
      if op == getter && r.Success? {
        AnswerIsView(c.entry, getter, store(st'.log), request, r.value);
      }
    }
  }

  lemma GettersGet(entry: DeviceEntry, getter: Op)
    requires IsGetter(getter) && RequestOf(entry, getter).Success?
    ensures IsGet(RequestOf(entry, getter).value.commandId)
  {
  }

  lemma ValueDependsOnArguments(entry: DeviceEntry, getter: Op, r: Report, s: Report)
    requires IsGetter(getter) && r.arguments == s.arguments
    ensures ValueOf(entry, getter, r) == ValueOf(entry, getter, s)
  {
  }

  lemma AnswerIsView(entry: DeviceEntry, getter: Op, store: Store, request: Report, response: Report)
    requires IsGetter(getter) && RequestOf(entry, getter) == Success(request)
    requires IsGet(request.commandId) ==> response.arguments == Look(store, KeyOf(request))
    ensures ValueOf(entry, getter, response) == View(entry, getter, store)
  {
    hide RequestOf, ValueOf, IsGet, KeyOf;
    GettersGet(entry, getter);
    ValueDependsOnArguments(entry, getter, response, Blank(0, 0, 0).(arguments := Look(store, KeyOf(request))));
  }

  // ---------------------------------------------------------------- all runs

  predicate AllTyped(ops: seq<Op>) {
    forall i :: 0 <= i < |ops| ==> Typed(ops[i])
  }

  /** The answers a getter may owe after a run, from those it may owe before: a successful
      setter leaves one, a setter that got past its guards and failed adds one, and nothing
      else counts. */
  function Possible(c: Config, st: State, ops: seq<Op>, getter: Op, answers: set<Result<Value, HidError>>)
    : set<Result<Value, HidError>>
    requires AllTyped(ops)
    decreases |ops|
  {
    if ops == [] then answers
    else
      var (r, st') := Perform(c, st, ops[0]);
      var next :=
        if !Sets(c.entry, ops[0], getter) then answers
        else if r.Success? then {Success(ReadBack(ops[0]))}
        else answers + {Success(ReadBack(ops[0]))};
      Possible(c, st', ops[1..], getter, next)
  }

  lemma {:induction false} RunSeenBy(
      c: Config, store: Log -> Store, st: State, ops: seq<Op>, getter: Op, answers: set<Result<Value, HidError>>)
    requires KeepsRegisters(c.device, store) && AllTyped(ops) && IsGetter(getter)
    requires View(c.entry, getter, store(st.log)) in answers
    ensures View(c.entry, getter, store(Run(c, st, ops).1.log)) in Possible(c, st, ops, getter, answers)
    decreases |ops|
  {
    hide KeepsRegisters, Perform, View, ReadBack, RequestOf;
    if ops != [] {
      PerformSeenBy(c, store, st, ops[0], getter);
      var (r, st') := Perform(c, st, ops[0]);
      var next :=
        if !Sets(c.entry, ops[0], getter) then answers
        else if r.Success? then {Success(ReadBack(ops[0]))}
        else answers + {Success(ReadBack(ops[0]))};
      RunSeenBy(c, store, st', ops[1..], getter, next);
    }
  }

  /** Register-store refinement. After any typed operations against any register device,
      a getter that succeeds answers the value of the last setter that succeeded, or of a
      later one that failed after getting past its guards, or, if no setter ever succeeded,
      what the register held at the start. */
  lemma GettersTellTheLastSetting(c: Config, store: Log -> Store, st: State, ops: seq<Op>, getter: Op)
    requires KeepsRegisters(c.device, store) && AllTyped(ops) && IsGetter(getter)
    ensures var r := Perform(c, Run(c, st, ops).1, getter).0;
            r.Success? ==> r in Possible(c, st, ops, getter, {View(c.entry, getter, store(st.log))})
  {
    hide KeepsRegisters, Perform, View, Possible, Run;
    RunSeenBy(c, store, st, ops, getter, {View(c.entry, getter, store(st.log))});
    PerformSeenBy(c, store, Run(c, st, ops).1, getter, getter);
  }

  lemma {:induction false} NothingSetNothingNew(c: Config, st: State, ops: seq<Op>, getter: Op, answers: set<Result<Value, HidError>>)
    requires AllTyped(ops) && forall i :: 0 <= i < |ops| ==> !Sets(c.entry, ops[i], getter)
    ensures Possible(c, st, ops, getter, answers) == answers
    decreases |ops|
  {
    hide Perform;
    if ops != [] {
      NothingSetNothingNew(c, Perform(c, st, ops[0]).1, ops[1..], getter, answers);
    }
  }

  /** The exact form: once a setter has succeeded, and until another setter of the same
      value gets past its guards, its getter can only answer that value, whatever other
      operations succeed, fail or are refused in between. */
  lemma LastSetterWins(c: Config, store: Log -> Store, st: State, setter: Op, between: seq<Op>)
    requires KeepsRegisters(c.device, store) && Typed(setter) && ReadBy(setter).Some? && AllTyped(between)
    requires Perform(c, st, setter).0.Success?
    requires forall i :: 0 <= i < |between| ==> !Sets(c.entry, between[i], ReadBy(setter).value)
    ensures var r := Perform(c, Run(c, st, [setter] + between).1, ReadBy(setter).value).0;
            r.Success? ==> r == Success(ReadBack(setter))
  {
    hide KeepsRegisters, View, RequestOf, Transact, ReadBack;
    var getter := ReadBy(setter).value;
    var ops := [setter] + between;
    assert ops[1..] == between;
    GettersTellTheLastSetting(c, store, st, ops, getter);
    assert Sets(c.entry, setter, getter);
    NothingSetNothingNew(c, Perform(c, st, setter).1, between, getter, {Success(ReadBack(setter))});
  }
}
