/** Whole runs of settings and readings against a device that answers the operations of the run
    badly fewer than five times in a row: a setter past its guards succeeds, and a getter answers
    exactly the last setting. Firmware and serial results are the device's own. */
module Delivery {
  import opened Wrappers
  import opened Checksum
  import opened ReportCodec
  import opened Messages
  import opened Device
  import opened Protocol
  import opened Registers
  import R = Runs

  /** The operation is typed and gets past its guards. */
  predicate Goes(c: Config, op: Op) {
    Typed(op) && RequestOf(c.entry, op).Success?
  }

  /** Whatever has happened, of five exchanges of a request of these operations none faults
      and one is not rejected. What the device does with any other request is left open. */
  ghost predicate Responsive(c: Config, ops: seq<Op>) {
    forall log, op :: op in ops && Goes(c, op) ==> AnswersInFive(c, log, RequestOf(c.entry, op).value)
  }

  ghost predicate AnswersInFive(c: Config, log: Log, request: Report) {
    && (forall j: nat :: j < MAX_ATTEMPTS ==> Outcome(c, log, request, j).Success?)
    && (exists j: nat :: j < MAX_ATTEMPTS && !Rejected(c, log, request, j))
  }

  lemma ResponsiveToPart(c: Config, ops: seq<Op>, part: seq<Op>)
    requires Responsive(c, ops) && forall op :: op in part ==> op in ops
    ensures Responsive(c, part)
  {
    hide AnswersInFive, Goes;
  }

  /** Every such request is delivered. */
  lemma Delivered(c: Config, st: State, ops: seq<Op>, op: Op)
    requires Responsive(c, ops) && op in ops && Goes(c, op)
    ensures Transact(c, st, RequestOf(c.entry, op).value).0.Success?
  {
    hide RequestOf, Outcome, Rejected, Transact;
    assert AnswersInFive(c, st.log, RequestOf(c.entry, op).value);
    FewerThanFiveBadAnswers(c, st, RequestOf(c.entry, op).value);
  }

  /** A setter past its guards succeeds. */
  lemma SettersSucceed(c: Config, st: State, ops: seq<Op>, op: Op)
    requires Responsive(c, ops) && op in ops && IsSetter(op)
    ensures Perform(c, st, op).0 ==
            match RequestOf(c.entry, op)
            case Success(_) => Success(Done)
            case Failure(e) => Failure(e)
  {
    hide RequestOf, Transact;
    if RequestOf(c.entry, op).Success? {
      Delivered(c, st, ops, op);
    }
  }

  /** A getter answers what the store says, be it a value, an unreadable code or a guard. */
  lemma GettersAnswer(c: Config, store: Log -> Store, st: State, ops: seq<Op>, getter: Op)
    requires Responsive(c, ops) && KeepsRegisters(c.device, store) && getter in ops && IsGetter(getter)
    ensures Perform(c, st, getter).0 == View(c.entry, getter, store(Perform(c, st, getter).1.log))
  {
    hide RequestOf, Retry, KeepsRegisters, Written, Look;
    if RequestOf(c.entry, getter).Success? {
      var request := RequestOf(c.entry, getter).value;
      Delivered(c, st, ops, getter);
      RetryEffect(c, store, st, request, 0, None);
      var (r, st') := Transact(c, st, request);
      AnswerIsView(c.entry, getter, store(st'.log), request, r.value);
    }
  }

  /** The value of the last setter that gets past its guards, or the initial one: a function
      of the operations alone. */
  function LastSetting(entry: DeviceEntry, ops: seq<Op>, getter: Op, initial: Result<Value, HidError>): Result<Value, HidError>
    requires AllTyped(ops)
    decreases |ops|
  {
    if ops == [] then initial
    else
      LastSetting(entry, ops[1..], getter, if Sets(entry, ops[0], getter) then Success(ReadBack(ops[0])) else initial)
  }

  lemma {:induction false} RunShows(c: Config, store: Log -> Store, st: State, ops: seq<Op>, getter: Op)
    requires Responsive(c, ops) && KeepsRegisters(c.device, store) && AllTyped(ops) && IsGetter(getter)
    ensures View(c.entry, getter, store(Run(c, st, ops).1.log)) ==
            LastSetting(c.entry, ops, getter, View(c.entry, getter, store(st.log)))
    decreases |ops|
  {
    hide KeepsRegisters, Responsive, Perform, View, ReadBack, RequestOf;
    if ops != [] {
      PerformSeenBy(c, store, st, ops[0], getter);
      if Sets(c.entry, ops[0], getter) {
        GetterOfSetter(c.entry, ops[0], getter);
        SettersSucceed(c, st, ops, ops[0]);
      }
      ResponsiveToPart(c, ops, ops[1..]);
      RunShows(c, store, Perform(c, st, ops[0]).1, ops[1..], getter);
    }
  }

  lemma {:induction false} RunPrefix(c: Config, st: State, ops: seq<Op>, i: nat)
    requires i < |ops|
    ensures |Run(c, st, ops).0| == |ops|
    ensures Run(c, st, ops).0[i] == Perform(c, Run(c, st, ops[..i]).1, ops[i]).0
    decreases |ops|
  {
    hide Perform;
    var st' := Perform(c, st, ops[0]).1;
    if i == 0 {
      RunLength(c, st', ops[1..]);
    } else {
      RunPrefix(c, st', ops[1..], i - 1);
      assert ops[..i][1..] == ops[1..][..i - 1] && ops[..i][0] == ops[0];
    }
  }

  lemma {:induction false} RunLength(c: Config, st: State, ops: seq<Op>)
    ensures |Run(c, st, ops).0| == |ops|
    decreases |ops|
  {
    hide Perform;
    if ops != [] {
      RunLength(c, Perform(c, st, ops[0]).1, ops[1..]);
    }
  }

  /** Register-store refinement of a whole run. Whatever the device does between accepted
      answers, the results of setters and getters are known from the operations alone: a setter
      succeeds or is stopped by its guard, and a getter answers the last setting before it. */
  lemma EveryAnswer(c: Config, store: Log -> Store, st: State, ops: seq<Op>, i: nat)
    requires Responsive(c, ops) && KeepsRegisters(c.device, store) && AllTyped(ops) && i < |ops|
    ensures |Run(c, st, ops).0| == |ops|
    ensures IsGetter(ops[i]) ==>
              Run(c, st, ops).0[i] ==
              LastSetting(c.entry, ops[..i], ops[i], View(c.entry, ops[i], store(st.log)))
    ensures IsSetter(ops[i]) ==>
              Run(c, st, ops).0[i] ==
              match RequestOf(c.entry, ops[i])
              case Success(_) => Success(Done)
              case Failure(e) => Failure(e)
  {
    hide KeepsRegisters, Responsive, Perform, View, RequestOf, LastSetting;
    RunPrefix(c, st, ops, i);
    var before := Run(c, st, ops[..i]).1;
    if IsGetter(ops[i]) {
      ResponsiveToPart(c, ops, ops[..i]);
      RunShows(c, store, st, ops[..i], ops[i]);
      GettersAnswer(c, store, before, ops, ops[i]);
      PerformSeenBy(c, store, before, ops[i], ops[i]);
    }
    if IsSetter(ops[i]) {
      SettersSucceed(c, before, ops, ops[i]);
    }
  }

  // ------------------------------------------------------ such devices exist

  /** The registers after a history, every SET that was not refused having been applied. */
  function Applied(init: Store, log: Log): Store {
    if log == [] then init
    else
      var before := Applied(init, log[..|log| - 1]);
      match log[|log| - 1]
      case Set(frame) => Written(before, Unframed(frame))
      case _ => before
  }

  function LastFrame(log: Log): Option<Buffer> {
    if log == [] then None
    else
      match log[|log| - 1]
      case Set(frame) => Some(frame)
      case _ => LastFrame(log[..|log| - 1])
  }

  /** The response to a request: routing echoed, the register's content, and success, or a
      failure when the answer is garbled. */
  function Answer(request: Report, store: Store, garbled: bool): Report {
    request.(status := if garbled then CommandFailure else Successful, arguments := Look(store, KeyOf(request)))
  }

  /** When a device loses the reply, garbles it, or refuses the transfer. */
  datatype Faults = Faults(lost: Log -> bool, garbled: Log -> bool, refused: Log -> bool)

  /** A device that applies every SET it does not refuse, and answers as its faults let it. */
  function FlakyDevice(init: Store, faults: Faults): Device {
    Device(
      (log, frame) => if faults.refused(log) then Some(5) else None,
      log =>
        match LastFrame(log)
        case Some(frame) =>
          if faults.lost(log) then Fault(110)
          else Data(HIDRAW_BUF_LEN, [0] + Encode(Answer(Unframed(frame), Applied(init, log), faults.garbled(log))))
        case None => Fault(32))
  }

  lemma AppliedStep(init: Store, log: Log, e: Event)
    ensures Applied(init, log + [e]) == if e.Set? then Written(Applied(init, log), Unframed(e.frame)) else Applied(init, log)
    ensures LastFrame(log + [e]) == if e.Set? then Some(e.frame) else LastFrame(log)
  {
    assert (log + [e])[..|log + [e]| - 1] == log;
  }

  /** What the session makes of such an answer. */
  lemma AnswerReceived(request: Report, store: Store, garbled: bool)
    ensures var r := Receive(Data(HIDRAW_BUF_LEN, [0] + Encode(Answer(request, store, garbled))));
            && r.Success? && r.value.arguments == Look(store, KeyOf(request))
            && (CheckResponse(request, r.value).Success? <==> request.dataSize <= 80 && !garbled)
  {
    hide Encode, Decode, ChecksumOf;
    DecodeEncode(Answer(request, store, garbled));
    assert ([0] + Encode(Answer(request, store, garbled)))[1..] == Encode(Answer(request, store, garbled));
  }

  lemma WrittenTwice(store: Store, request: Report)
    ensures Written(Written(store, request), request) == Written(store, request)
  {
  }

  lemma FlakyAnswers(init: Store, faults: Faults, log: Log, frame: Buffer, micros: nat)
    ensures var sent := log + [Set(frame)] + [Sleep(micros)];
            Truthful(Unframed(frame), Applied(init, sent), FlakyDevice(init, faults).reply(sent))
  {
    hide Encode, Decode, Written, Answer, CheckResponse, Receive;
    AppliedStep(init, log, Set(frame));
    AppliedStep(init, log + [Set(frame)], Sleep(micros));
    var sent := log + [Set(frame)] + [Sleep(micros)];
    WrittenTwice(Applied(init, log), Unframed(frame));
    AnswerReceived(Unframed(frame), Applied(init, sent), faults.garbled(sent));
    LostIsNotReceived(110);
  }

  lemma LostIsNotReceived(errno: int)
    ensures Receive(Fault(errno)).Failure?
  {
  }

  lemma OnlySetsAreApplied(init: Store)
    ensures OnlySetsApply(log => Applied(init, log))
  {
    hide Unframed, Written;
    forall log, e: Event
      ensures Applied(init, log + [e]) == if e.Set? then Written(Applied(init, log), Unframed(e.frame)) else Applied(init, log)
    {
      AppliedStep(init, log, e);
    }
  }

  /** Whatever pattern of lost replies, garbled answers and refused transfers, the device
      keeps registers. */
  lemma FlakyDeviceKeepsRegisters(init: Store, faults: Faults)
    ensures KeepsRegisters(FlakyDevice(init, faults), log => Applied(init, log))
  {
    hide Unframed, Truthful, FlakyDevice, OnlySetsApply, Applied;
    OnlySetsAreApplied(init);
    forall log, frame, micros
      ensures Truthful(Unframed(frame), Applied(init, log + [Set(frame)] + [Sleep(micros)]),
                FlakyDevice(init, faults).reply(log + [Set(frame)] + [Sleep(micros)]))
    {
      FlakyAnswers(init, faults, log, frame, micros);
    }
  }

  // A device that only garbles: the `n`th reply of its life when `bad(n)`.

  function Garbling(bad: nat -> bool): Faults {
    Faults(log => false, log => bad(CountGets(log)), log => false)
  }

  predicate AllFiveBad(bad: nat -> bool, n: nat) {
    bad(n) && bad(n + 1) && bad(n + 2) && bad(n + 3) && bad(n + 4)
  }

  ghost predicate NeverFiveInARow(bad: nat -> bool) {
    forall n: nat :: !AllFiveBad(bad, n)
  }

  /** One exchange with it: a full answer, rejected exactly when it is the bad one's turn. */
  lemma GarbledExchange(c: Config, init: Store, bad: nat -> bool, log: Log, request: Report)
    requires c.device == FlakyDevice(init, Garbling(bad)) && CheckRequest(request).Success?
    ensures var (r, log') := TransactRaw(c, log, request);
            && r.Success? && CountGets(log') == CountGets(log) + 1
            && (CheckResponse(request, r.value).Failure? <==> bad(CountGets(log)))
  {
    hide Encode, Decode, Written, Answer, CheckResponse, Receive, Unframed, Frame, Applied;
    var frame := Frame(c.tid, request);
    var sent := log + [Set(frame)] + [Sleep(c.entry.wait)];
    AppliedStep(init, log, Set(frame));
    AppliedStep(init, log + [Set(frame)], Sleep(c.entry.wait));
    CountOne(log, Set(frame));
    CountOne(log + [Set(frame)], Sleep(c.entry.wait));
    CountOne(sent, Get(c.device.reply(sent)));
    var store, garbled := Applied(init, sent), bad(CountGets(sent));
    AnswerReceived(Unframed(frame), store, garbled);
    var reply := Data(HIDRAW_BUF_LEN, [0] + Encode(Answer(Unframed(frame), store, garbled)));
    assert c.device.reply(sent) == reply;
    UnframedRequest(c.tid, request, Receive(reply).value);
    SizeOfUnframed(c.tid, request);
  }

  lemma SizeOfUnframed(tid: byte, request: Report)
    requires CheckRequest(request).Success?
    ensures Unframed(Frame(tid, request)).dataSize <= 80
  {
    hide Unframed, Frame;
    UnframedSameCommand(tid, request);
  }

  lemma {:induction false} GarbledStart(c: Config, init: Store, bad: nat -> bool, log: Log, request: Report, j: nat)
    requires c.device == FlakyDevice(init, Garbling(bad)) && CheckRequest(request).Success?
    ensures CountGets(Start(c, log, request, j)) == CountGets(log) + j
    ensures Outcome(c, log, request, j).Success? && (Rejected(c, log, request, j) <==> bad(CountGets(log) + j))
  {
    hide FlakyDevice, TransactRaw, CheckResponse, CheckRequest;
    if j > 0 {
      GarbledStart(c, init, bad, log, request, j - 1);
      var start := Start(c, log, request, j - 1);
      GarbledExchange(c, init, bad, start, request);
      CountOne(TransactRaw(c, start, request).1, Sleep(RETRY_DELAY));
    }
    GarbledExchange(c, init, bad, Start(c, log, request, j), request);
  }

  function Reads(n: nat): Log {
    seq(n, _ => Get(Fault(0)))
  }

  lemma {:induction false} CountReads(n: nat)
    ensures CountGets(Reads(n)) == n
  {
    if n > 0 {
      CountReads(n - 1);
      assert Reads(n) == Reads(n - 1) + [Get(Fault(0))];
      CountOne(Reads(n - 1), Get(Fault(0)));
    }
  }

  lemma OneOfFive(bad: nat -> bool, n: nat, rejected: nat -> bool)
    requires forall j: nat :: j < MAX_ATTEMPTS ==> (rejected(j) <==> bad(n + j))
    ensures (exists j: nat :: j < MAX_ATTEMPTS && !rejected(j)) <==> !AllFiveBad(bad, n)
  {
    assert !AllFiveBad(bad, n) ==> !rejected(0) || !rejected(1) || !rejected(2) || !rejected(3) || !rejected(4);
  }

  lemma AnswersUnlessFiveBad(c: Config, init: Store, bad: nat -> bool, log: Log, request: Report)
    requires c.device == FlakyDevice(init, Garbling(bad)) && CheckRequest(request).Success?
    ensures AnswersInFive(c, log, request) <==> !AllFiveBad(bad, CountGets(log))
  {
    hide FlakyDevice, Garbling, Outcome, Rejected, CheckRequest, CountGets, Start, AllFiveBad;
    forall j: nat
      ensures Outcome(c, log, request, j).Success? && (Rejected(c, log, request, j) <==> bad(CountGets(log) + j))
    {
      GarbledStart(c, init, bad, log, request, j);
    }
    var rejected := (j: nat) => Rejected(c, log, request, j);
    OneOfFive(bad, CountGets(log), rejected);
    if j: nat :| j < MAX_ATTEMPTS && !Rejected(c, log, request, j) {
      assert !rejected(j);
    }
    if j: nat :| j < MAX_ATTEMPTS && !rejected(j) {
      assert !Rejected(c, log, request, j);
    }
  }

  /** The hypothesis of `EveryAnswer` is met exactly by the patterns that never garble five
      replies in a row, unless no operation gets past its guards; a SET may thus be sent up to
      five times before it is answered. */
  lemma ResponsiveExactly(c: Config, init: Store, bad: nat -> bool, ops: seq<Op>)
    requires c.device == FlakyDevice(init, Garbling(bad))
    ensures Responsive(c, ops) <==> NeverFiveInARow(bad) || forall op :: op in ops ==> !Goes(c, op)
    ensures KeepsRegisters(c.device, log => Applied(init, log))
  {
    hide FlakyDevice, AnswersInFive, RequestOf, KeepsRegisters, AllFiveBad;
    FlakyDeviceKeepsRegisters(init, Garbling(bad));
    if NeverFiveInARow(bad) {
      forall log, op | op in ops && Goes(c, op) ensures AnswersInFive(c, log, RequestOf(c.entry, op).value) {
        R.TypedRequestsAreSound(c.entry, op);
        AnswersUnlessFiveBad(c, init, bad, log, RequestOf(c.entry, op).value);
      }
    }
    if op :| op in ops && Goes(c, op) {
      if Responsive(c, ops) {
        R.TypedRequestsAreSound(c.entry, op);
        forall n: nat ensures !AllFiveBad(bad, n) {
          CountReads(n);
          AnswersUnlessFiveBad(c, init, bad, Reads(n), RequestOf(c.entry, op).value);
        }
      }
    }
  }
}
