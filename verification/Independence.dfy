/** The premise of the controlled experiment (docs/phase3-experiment.md): two sessions that
    differ only in the transaction id, run against a device that does not look at it,
    cannot be told apart except by that byte. */
module Independence {
  import opened Wrappers
  import opened Checksum
  import opened ReportCodec
  import opened Messages
  import opened Device
  import opened Protocol
  import opened Runs

  /** Report byte 1, behind the report id. */
  const ID_INDEX := 2

  predicate SameButId(f: Buffer, g: Buffer) {
    f == g[ID_INDEX := f[ID_INDEX]]
  }

  predicate SimilarEvent(a: Event, b: Event) {
    match a
    case Set(f) => b.Set? && SameButId(f, b.frame)
    case SetRefused(f, errno) => b.SetRefused? && b.errno == errno && SameButId(f, b.frame)
    case _ => a == b
  }

  ghost predicate Similar(a: Log, b: Log) {
    |a| == |b| && forall i :: 0 <= i < |a| ==> SimilarEvent(a[i], b[i])
  }

  ghost predicate SimilarState(s: State, t: State) {
    Similar(s.log, t.log) && s.attempts == t.attempts && s.echoed == t.echoed
  }

  /** The device's behaviour does not depend on report byte 1. */
  ghost predicate Blind(d: Device) {
    && (forall a, b, f, g :: Similar(a, b) && SameButId(f, g) ==> d.accept(a, f) == d.accept(b, g))
    && (forall a, b :: Similar(a, b) ==> d.reply(a) == d.reply(b))
  }

  lemma FramesDifferInIdOnly(t: byte, u: byte, request: Report)
    ensures SameButId(Frame(t, request), Frame(u, request))
    ensures Frame(t, request) == Frame(u, request) <==> t == u
  {
    var f, g := Frame(t, request), Frame(u, request);
    RestampedFrame(request, t);
    RestampedFrame(request, u);
    assert f == ([0] + Encode(request))[ID_INDEX := t];
    assert g == ([0] + Encode(request))[ID_INDEX := u];
  }

  lemma TransactRawBlind(c: Config, d: Config, a: Log, b: Log, request: Report)
    requires d == c.(tid := d.tid) && Blind(c.device) && Similar(a, b)
    ensures Send(c, a, request).0 == Send(d, b, request).0
    ensures Similar(Send(c, a, request).1, Send(d, b, request).1)
    ensures TransactRaw(c, a, request).0 == TransactRaw(d, b, request).0
    ensures Similar(TransactRaw(c, a, request).1, TransactRaw(d, b, request).1)
  {
    hide Frame, Encode, CheckRequest, Receive;
    FramesDifferInIdOnly(c.tid, d.tid, request);
    var f, g := Frame(c.tid, request), Frame(d.tid, request);
    assert c.device.accept(a, f) == d.device.accept(b, g);
    assert Similar(a + [Set(f)] + [Sleep(c.entry.wait)], b + [Set(g)] + [Sleep(d.entry.wait)]);
  }

  lemma {:induction false} RetryBlind(c: Config, d: Config, s: State, t: State, request: Report, n: nat, last: Option<ProtoError>)
    requires d == c.(tid := d.tid) && Blind(c.device) && SimilarState(s, t)
    requires n <= MAX_ATTEMPTS
    ensures Retry(c, s, request, n, last).0 == Retry(d, t, request, n, last).0
    ensures SimilarState(Retry(c, s, request, n, last).1, Retry(d, t, request, n, last).1)
    decreases MAX_ATTEMPTS - n
  {
    hide TransactRaw, CheckResponse, Blind;
    if n < MAX_ATTEMPTS {
      var a, b := BeforeAttempt(s.log, n), BeforeAttempt(t.log, n);
      assert Similar(a, b);
      TransactRawBlind(c, d, a, b, request);
      var (r, log) := TransactRaw(c, a, request);
      var log' := TransactRaw(d, b, request).1;
      if r.Success? && CheckResponse(request, r.value).Failure? {
        var e := Some(CheckResponse(request, r.value).error);
        var id := Some(r.value.transactionId);
        RetryBlind(c, d, State(log, n + 1, id), State(log', n + 1, id), request, n + 1, e);
      }
    }
  }

  lemma PerformBlind(c: Config, d: Config, s: State, t: State, op: Op)
    requires d == c.(tid := d.tid) && Blind(c.device) && SimilarState(s, t)
    ensures Perform(c, s, op).0 == Perform(d, t, op).0
    ensures SimilarState(Perform(c, s, op).1, Perform(d, t, op).1)
  {
    hide Send, TransactRaw, Retry, Blind, ValueOf, RequestOf;
    match op
    case SendReport(request) => TransactRawBlind(c, d, s.log, t.log, request);
    case ExchangeReport(request) => TransactRawBlind(c, d, s.log, t.log, request);
    case TransactReport(request) => RetryBlind(c, d, s, t, request, 0, None);
    case _ =>
      if RequestOf(c.entry, op).Success? {
        RetryBlind(c, d, s, t, RequestOf(c.entry, op).value, 0, None);
      }
  }

  /** Two sessions that differ only in the transaction id give the same results, attempts,
      recorded ids, sleeps and replies on every sequence of operations, and their frames
      agree everywhere but at buffer index 2. */
  lemma {:induction false} IdIsInvisible(c: Config, d: Config, s: State, t: State, ops: seq<Op>)
    requires d == c.(tid := d.tid) && Blind(c.device) && SimilarState(s, t)
    ensures Run(c, s, ops).0 == Run(d, t, ops).0
    ensures SimilarState(Run(c, s, ops).1, Run(d, t, ops).1)
    decreases |ops|
  {
    hide Perform, Blind, SimilarState;
    if ops != [] {
      PerformBlind(c, d, s, t, ops[0]);
      IdIsInvisible(c, d, Perform(c, s, ops[0]).1, Perform(d, t, ops[0]).1, ops[1..]);
    }
  }

  /** Both sessions' frames are sound throughout: a wrong id is never a checksum error. */
  lemma BothRunsAreSound(c: Config, d: Config, s: State, ops: seq<Op>)
    requires d == c.(tid := d.tid) && Blind(c.device)
    requires s.log == []
    ensures LogOk(c.tid, false, Run(c, s, ops).1.log) && LogOk(d.tid, false, Run(d, s, ops).1.log)
    ensures Similar(Run(c, s, ops).1.log, Run(d, s, ops).1.log)
  {
    EveryFrameIsSound(c, s, ops, false);
    EveryFrameIsSound(d, s, ops, false);
    IdIsInvisible(c, d, s, s, ops);
  }

  // ------------------------------------------------------------ reply scripts

  /** How often a SET has been tried, whether it was accepted or refused. */
  function CountTries(log: Log): nat {
    if log == [] then 0
    else CountTries(log[..|log| - 1]) + if log[|log| - 1].Set? || log[|log| - 1].SetRefused? then 1 else 0
  }

  /** The device that plays a script: the outcome of the `n`th SET tried and the reply to the
      `n`th GET are fixed in advance, faults included. */
  function ScriptedDevice(accepts: nat -> Option<int>, replies: nat -> Reply): Device {
    Device((log, frame) => accepts(CountTries(log)), log => replies(CountGets(log)))
  }

  /** The script moves on after every SET tried and every GET, so a device that refuses once
      and then behaves normally is one of these. */
  lemma ScriptMovesOn(accepts: nat -> Option<int>, replies: nat -> Reply, log: Log, e: Event, frame: Buffer)
    ensures var d := ScriptedDevice(accepts, replies);
            && d.accept(log + [e], frame) == accepts(CountTries(log) + if e.Set? || e.SetRefused? then 1 else 0)
            && d.reply(log + [e]) == replies(CountGets(log) + if e.Get? then 1 else 0)
  {
    CountOne(log, e);
    assert CountTries(log + [e]) == CountTries(log) + if e.Set? || e.SetRefused? then 1 else 0 by {
      assert (log + [e])[..|log + [e]| - 1] == log;
    }
  }

  lemma {:induction false} SimilarCounts(a: Log, b: Log)
    requires Similar(a, b)
    ensures CountTries(a) == CountTries(b) && CountGets(a) == CountGets(b)
  {
    if a != [] {
      var n := |a| - 1;
      assert SimilarEvent(a[n], b[n]);
      SimilarCounts(a[..n], b[..n]);
    }
  }

  /** Every script is blind, also one that faults and then goes on. */
  lemma ScriptsAreBlind(accepts: nat -> Option<int>, replies: nat -> Reply)
    ensures Blind(ScriptedDevice(accepts, replies))
  {
    forall a, b | Similar(a, b)
      ensures CountTries(a) == CountTries(b) && CountGets(a) == CountGets(b)
    {
      SimilarCounts(a, b);
    }
  }
}
