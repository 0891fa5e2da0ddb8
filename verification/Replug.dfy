/** The software replug (tools/usb_replug.py) as a machine of interruptible steps: the main
    thread, its `finally` and its `atexit` hook, with a signal handler that may interrupt
    any of them, itself included, at any step. Buffered writes land when their file closes. */
module Replug {
  /** What is being raised: `SystemExit` passes through `except Exception`, an ordinary error
      is caught by it. */
  datatype Exc = Nothing | SystemExit | Error

  /** Where `main` stands: before the open, with the file open, with the flag set, with the
      '1' in the buffer, after the close, about to re-enable in the `finally` (with or
      without an exception to pass on), waiting, about to run the exit hook, finished. */
  datatype MainPc = Armed | Opened | Flagged | Written | Closed | Finally(failing: bool) | Waiting | AtExit | Done

  /** Where a call of `reenable` stands; `Report` is its `except` clause. */
  datatype RePc = Check | Open | Write | Close | Clear | Announce | Report

  /** Before and after the handler's call of `reenable`. */
  datatype BailPc = Enter | Leave

  /** The call stack: `main` at the bottom, calls of `reenable` and signal handlers above. */
  datatype Stack = Main(pc: MainPc) | Call(re: RePc, caller: Stack) | Handler(b: BailPc, interrupted: Stack)

  /** The outcome of an attempt to write the '0'. */
  datatype Attempt = Never | Landed | Lost

  /** `down` is the port, `flag` is `state['disabled']`, `raising` is the exception being
      propagated from the top frame, and `last` is the last attempt to write the '0'
      (attempts are made only while the flag is set). */
  datatype State = State(down: bool, flag: bool, stack: Stack, raising: Exc, last: Attempt)

  /** One step of the top frame, whose I/O succeeds or not (a failed close may have reached
      the port or not), or the delivery of a signal. */
  datatype Choice = Step(ok: bool, reached: bool) | Signal

  /** Handlers and exit hook installed, the port up. */
  const INIT := State(false, false, Main(Armed), Nothing, Never)

  predicate Finished(s: State) {
    s.stack == Main(Done)
  }

  // ---------------------------------------------------------------- the steps

  /** What the caller of `reenable` does once it has returned. */
  function Returned(caller: Stack): Stack {
    match caller
    case Main(Finally(failing)) => Main(if failing then AtExit else Waiting)
    case Main(AtExit) => Main(Done)
    case _ => caller
  }

  function MainStep(s: State, pc: MainPc, ok: bool, reached: bool): State {
    match pc
    case Armed => if ok then s.(stack := Main(Opened)) else s.(raising := Error)
    case Opened => s.(stack := Main(Flagged), flag := true)
    case Flagged => if ok then s.(stack := Main(Written)) else s.(raising := Error)
    case Written =>
      if ok then s.(stack := Main(Closed), down := true)
      else s.(stack := Main(Closed), down := s.down || reached, raising := Error)
    case Closed => s.(stack := Main(Finally(false)))
    case Finally(_) => s.(stack := Call(Check, s.stack))
    case Waiting => s.(stack := Main(AtExit))
    case AtExit => s.(stack := Call(Check, s.stack))
    case Done => s
  }

  function ReenableStep(s: State, re: RePc, caller: Stack, ok: bool, reached: bool): State {
    match re
    case Check => if s.flag then s.(stack := Call(Open, caller)) else s.(stack := Returned(caller))
    case Open =>
      if ok then s.(stack := Call(Write, caller)) else s.(stack := Call(Report, caller), last := Lost)
    case Write =>
      if ok then s.(stack := Call(Close, caller)) else s.(stack := Call(Report, caller), last := Lost)
    case Close =>
      if ok then s.(stack := Call(Clear, caller), down := false, last := Landed)
      else s.(stack := Call(Report, caller), down := s.down && !reached, last := Lost)
    case Clear => s.(stack := Call(Announce, caller), flag := false)
    case Announce => s.(stack := if ok then Returned(caller) else Call(Report, caller))
    case Report =>
      if ok then s.(stack := Returned(caller)) else s.(stack := caller, raising := Error)
  }

  function BailStep(s: State, b: BailPc, interrupted: Stack): State {
    match b
    case Enter => s.(stack := Call(Check, Handler(Leave, interrupted)))
    case Leave => s.(stack := interrupted, raising := SystemExit)
  }

  /** An exception reaches `main`: leaving the `with` closes the file, and a '1' still in
      its buffer lands; the `finally` runs; past it the interpreter shuts down. */
  function MainUnwind(s: State, pc: MainPc, ok: bool, reached: bool): State {
    var caught := s.(raising := Nothing);
    match pc
    case Written => caught.(stack := Main(Finally(true)), down := if ok then true else s.down || reached)
    case Finally(_) => caught.(stack := Main(AtExit))
    case Waiting => caught.(stack := Main(AtExit))
    case AtExit => caught.(stack := Main(Done))
    case Done => caught
    case _ => caught.(stack := Main(Finally(true)))
  }

  /** An exception reaches a call of `reenable`: a '0' in the buffer lands on the way out,
      an ordinary error (also one raised by that close) ends in the `except` clause, and
      `SystemExit` passes through. */
  function ReenableUnwind(s: State, re: RePc, caller: Stack, ok: bool, reached: bool): State {
    var caught := s.(stack := Call(Report, caller), raising := Nothing);
    var passed := s.(stack := caller);
    match re
    case Check => passed
    case Report => passed
    case Close =>
      if !ok then caught.(down := s.down && !reached, last := Lost)
      else (if s.raising.Error? then caught else passed).(down := false, last := Landed)
    case _ => if s.raising.Error? then caught else passed
  }

  function Next(s: State, c: Choice): State {
    if Finished(s) then s
    else
      match c
      case Signal => s.(stack := Handler(Enter, s.stack), raising := Nothing)
      case Step(ok, reached) =>
        if s.raising.Nothing? then
          match s.stack
          case Main(pc) => MainStep(s, pc, ok, reached)
          case Call(re, caller) => ReenableStep(s, re, caller, ok, reached)
          case Handler(b, interrupted) => BailStep(s, b, interrupted)
        else
          match s.stack
          case Main(pc) => MainUnwind(s, pc, ok, reached)
          case Call(re, caller) => ReenableUnwind(s, re, caller, ok, reached)
          case Handler(_, interrupted) => s.(stack := interrupted)
  }

  function Run(s: State, cs: seq<Choice>): State
    decreases |cs|
  {
    if cs == [] then s else Run(Next(s, cs[0]), cs[1..])
  }

  // --------------------------------------------------------------- the window

  function BottomPc(stack: Stack): MainPc {
    match stack
    case Main(pc) => pc
    case Call(_, caller) => BottomPc(caller)
    case Handler(_, interrupted) => BottomPc(interrupted)
  }

  /** The '1' is in the buffer and its file is not closed yet. */
  predicate InWindow(s: State) {
    BottomPc(s.stack).Written?
  }

  /** Some signal is delivered inside the window. */
  predicate SignalInWindow(s: State, cs: seq<Choice>)
    decreases |cs|
  {
    cs != [] && ((cs[0].Signal? && InWindow(s)) || SignalInWindow(Next(s, cs[0]), cs[1..]))
  }

  // --------------------------------------------------------------- the safety

  predicate CallsReenable(stack: Stack) {
    match stack
    case Main(pc) => pc.Finally? || pc.AtExit?
    case Handler(b, _) => b.Leave?
    case Call(_, _) => false
  }

  /** Every call of `reenable` was made by the `finally`, the exit hook or a handler. */
  predicate Shaped(stack: Stack) {
    match stack
    case Main(_) => true
    case Call(_, caller) => CallsReenable(caller) && Shaped(caller)
    case Handler(_, interrupted) => Shaped(interrupted)
  }

  /** Some call of `reenable` stands between its write landing and its clearing the flag. */
  predicate AboutToClear(stack: Stack) {
    match stack
    case Main(_) => false
    case Call(re, caller) => re.Clear? || AboutToClear(caller)
    case Handler(_, interrupted) => AboutToClear(interrupted)
  }

  predicate BeforeClose(pc: MainPc) {
    pc.Armed? || pc.Opened? || pc.Flagged? || pc.Written?
  }

  /** Whoever raised or returned has left the flag clear or an attempt on record. */
  predicate Settled(s: State) {
    s.flag ==> !s.last.Never?
  }

  predicate MustBeSettled(s: State) {
    var pc := BottomPc(s.stack);
    || pc.Waiting? || pc.AtExit? || pc.Done?
    || s.raising == SystemExit
    || (s.raising == Error && (!s.stack.Main? || pc.Finally?))
    || (s.raising.Nothing? && s.stack.Call? && (s.stack.re.Announce? || s.stack.re.Report?))
    || (s.raising.Nothing? && s.stack.Handler? && s.stack.b.Leave?)
  }

  predicate Safe(s: State) {
    && Shaped(s.stack)
    && (s.down ==> s.flag)
    && (s.last.Landed? ==> !s.down)
    && (AboutToClear(s.stack) ==> !s.down)
    && (InWindow(s) ==> s.stack.Main? && s.raising.Nothing?)
    && (s.stack.Main? && BeforeClose(s.stack.pc) && s.raising.Nothing? ==> s.last.Never? && !s.down)
    && (s.stack.Main? && (s.stack.pc.Flagged? || s.stack.pc.Written?) && s.raising.Nothing? ==> s.flag)
    && (MustBeSettled(s) ==> Settled(s))
  }

  /** What one frame adds to the facts about the stack below it. */
  lemma Unfold(stack: Stack)
    ensures match stack
            case Main(pc) =>
              BottomPc(stack) == pc && Shaped(stack) && !AboutToClear(stack)
            case Call(re, caller) =>
              && BottomPc(stack) == BottomPc(caller)
              && (Shaped(stack) <==> CallsReenable(caller) && Shaped(caller))
              && (AboutToClear(stack) <==> re.Clear? || AboutToClear(caller))
            case Handler(b, interrupted) =>
              && BottomPc(stack) == BottomPc(interrupted) && (Shaped(stack) <==> Shaped(interrupted))
              && (AboutToClear(stack) <==> AboutToClear(interrupted))
  {
  }

  lemma NextSafe(s: State, c: Choice)
    requires Safe(s) && !(c.Signal? && InWindow(s))
    ensures Safe(Next(s, c))
  {
    hide BottomPc, Shaped, AboutToClear;
    Unfold(s.stack);
    if c.Signal? {
      Unfold(Handler(Enter, s.stack));
    } else if !s.raising.Nothing? {
      UnwindSafe(s, c);
    } else {
      match s.stack
      case Main(pc) => MainStepSafe(s, pc, c);
      case Handler(b, interrupted) => BailStepSafe(s, b, interrupted, c);
      case Call(re, caller) => ReenableStepSafe(s, re, caller, c);
    }
  }

  lemma UnwindSafe(s: State, c: Choice)
    requires Safe(s) && c.Step? && !s.raising.Nothing?
    ensures Safe(Next(s, c))
  {
    hide BottomPc, Shaped, AboutToClear;
    Unfold(s.stack);
    match s.stack
    case Main(_) =>
      Unfold(Next(s, c).stack);
    case Handler(_, interrupted) =>
      Unfold(interrupted);
    case Call(re, caller) =>
      Unfold(caller);
      Unfold(Call(Report, caller));
  }

  lemma MainStepSafe(s: State, pc: MainPc, c: Choice)
    requires Safe(s) && c.Step? && s.raising.Nothing? && s.stack == Main(pc)
    ensures Safe(Next(s, c))
  {
    hide BottomPc, Shaped, AboutToClear;
    Unfold(s.stack);
    Unfold(Next(s, c).stack);
  }

  lemma BailStepSafe(s: State, b: BailPc, interrupted: Stack, c: Choice)
    requires Safe(s) && c.Step? && s.raising.Nothing? && s.stack == Handler(b, interrupted)
    ensures Safe(Next(s, c))
  {
    hide BottomPc, Shaped, AboutToClear;
    Unfold(s.stack);
    Unfold(interrupted);
    Unfold(Handler(Leave, interrupted));
    Unfold(Call(Check, Handler(Leave, interrupted)));
  }

  lemma ReenableStepSafe(s: State, re: RePc, caller: Stack, c: Choice)
    requires Safe(s) && c.Step? && s.raising.Nothing? && s.stack == Call(re, caller)
    ensures Safe(Next(s, c))
  {
    hide BottomPc, Shaped, AboutToClear;
    Unfold(s.stack);
    Unfold(caller);
    Unfold(Returned(caller));
    Unfold(Next(s, c).stack);
  }

  lemma {:induction false} RunSafe(s: State, cs: seq<Choice>)
    requires Safe(s) && !SignalInWindow(s, cs)
    ensures Safe(Run(s, cs))
    decreases |cs|
  {
    if cs != [] {
      NextSafe(s, cs[0]);
      RunSafe(Next(s, cs[0]), cs[1..]);
    }
  }

  /** On every run, with any I/O faults and any number of nested signals, none of them
      inside the window: a port that is down is always marked by the flag, and when the
      process has finished the port is up unless the last attempt to re-enable it failed. */
  lemma PortIsGuarded(cs: seq<Choice>)
    requires !SignalInWindow(INIT, cs)
    ensures var end := Run(INIT, cs);
            && (end.down ==> end.flag)
            && (Finished(end) && end.down ==> end.last.Lost?)
  {
    hide Next;
    RunSafe(INIT, cs);
  }

  // ------------------------------------------------------- the exact condition

  /** The next step takes part in writing the '0', or closes the file of the '1' on the way
      out of an exception: should it fail, the port may be left either way. */
  predicate Decisive(s: State) {
    if s.raising.Nothing? then s.stack.Call? && (s.stack.re.Open? || s.stack.re.Write? || s.stack.re.Close?)
    else s.stack == Main(Written) || (s.stack.Call? && s.stack.re.Close?)
  }

  /** No decisive step fails. Any print may, as on a closed terminal, and so may any step up to
      the close of the '1'. */
  predicate DecisiveStepsWork(s: State, cs: seq<Choice>)
    decreases |cs|
  {
    cs != [] ==> (cs[0].Step? && Decisive(s) ==> cs[0].ok) && DecisiveStepsWork(Next(s, cs[0]), cs[1..])
  }

  /** A handler is at work, or has just worked, while the '1' waits in the buffer: once it
      is done the flag is clear. */
  predicate Doomed(s: State) {
    && Shaped(s.stack) && InWindow(s) && !s.down
    && (s.stack.Main? ==> !s.raising.Nothing?)
    && (!s.raising.Nothing? ==> !s.flag)
    && (s.stack.Call? && (s.stack.re.Announce? || s.stack.re.Report?) ==> !s.flag)
    && (s.stack.Handler? && s.stack.b.Leave? ==> !s.flag)
  }

  predicate OnlyChecks(stack: Stack) {
    match stack
    case Main(pc) => pc.Finally? || pc.Waiting? || pc.AtExit? || pc.Done?
    case Call(re, caller) => re.Check? && CallsReenable(caller) && OnlyChecks(caller)
    case Handler(_, interrupted) => OnlyChecks(interrupted)
  }

  /** The port is down, the flag is clear, and nobody will write the '0' any more. */
  predicate Stranded(s: State) {
    s.down && !s.flag && OnlyChecks(s.stack)
  }

  lemma NextNotLost(s: State, c: Choice)
    requires !s.last.Lost? && (c.Step? && Decisive(s) ==> c.ok)
    ensures !Next(s, c).last.Lost?
  {
  }

  lemma NextDoomed(s: State, c: Choice)
    requires Doomed(s) && (c.Step? && Decisive(s) ==> c.ok)
    ensures Doomed(Next(s, c)) || Stranded(Next(s, c))
  {
    hide BottomPc, Shaped;
    Unfold(s.stack);
    Unfold(Next(s, c).stack);
    match s.stack
    case Main(_) =>
    case Handler(_, interrupted) =>
      Unfold(Handler(Leave, interrupted));
      Unfold(interrupted);
    case Call(_, caller) =>
      Unfold(caller);
  }

  lemma NextStranded(s: State, c: Choice)
    requires Stranded(s)
    ensures Stranded(Next(s, c))
  {
    match s.stack
    case Main(_) =>
    case Handler(_, interrupted) =>
      assert OnlyChecks(Handler(Leave, interrupted)) == OnlyChecks(interrupted);
    case Call(re, caller) =>
      assert OnlyChecks(Returned(caller));
  }

  lemma {:induction false} StrandedForGood(s: State, cs: seq<Choice>)
    requires Stranded(s)
    ensures Stranded(Run(s, cs))
    decreases |cs|
  {
    if cs != [] {
      NextStranded(s, cs[0]);
      StrandedForGood(Next(s, cs[0]), cs[1..]);
    }
  }

  lemma {:induction false} DoomedRun(s: State, cs: seq<Choice>)
    requires Doomed(s) && DecisiveStepsWork(s, cs)
    ensures Doomed(Run(s, cs)) || Stranded(Run(s, cs))
    decreases |cs|
  {
    hide Doomed, Stranded, Next, Decisive;
    if cs != [] {
      NextDoomed(s, cs[0]);
      if Stranded(Next(s, cs[0])) {
        StrandedForGood(Next(s, cs[0]), cs[1..]);
      } else {
        DoomedRun(Next(s, cs[0]), cs[1..]);
      }
    }
  }

  lemma {:induction false} DecisiveRun(s: State, cs: seq<Choice>)
    requires Safe(s) && !s.last.Lost? && DecisiveStepsWork(s, cs)
    ensures var end := Run(s, cs);
            if SignalInWindow(s, cs) then Doomed(end) || Stranded(end) else Safe(end) && !end.last.Lost?
    decreases |cs|
  {
    hide Doomed, Stranded, Next, Safe, Decisive;
    if cs != [] {
      var next := Next(s, cs[0]);
      if cs[0].Signal? && InWindow(s) {
        FirstSignal(s);
        DoomedRun(next, cs[1..]);
      } else {
        NextSafe(s, cs[0]);
        NextNotLost(s, cs[0]);
        DecisiveRun(next, cs[1..]);
      }
    }
  }

  lemma FirstSignal(s: State)
    requires Safe(s) && InWindow(s)
    ensures Doomed(Next(s, Signal))
  {
  }

  /** The documentation promises that the port is always re-enabled. Exactly when: on a run
      in which no decisive step fails, whatever else does, the process leaves the port up if
      and only if no signal is delivered between the write of the '1' and the close of its
      file. */
  lemma PortUpIffNoSignalInWindow(cs: seq<Choice>)
    requires DecisiveStepsWork(INIT, cs) && Finished(Run(INIT, cs))
    ensures !Run(INIT, cs).down <==> !SignalInWindow(INIT, cs)
  {
    hide Next;
    DecisiveRun(INIT, cs);
  }

  /** No operation fails at all. */
  predicate FaultFree(cs: seq<Choice>) {
    forall i :: 0 <= i < |cs| && cs[i].Step? ==> cs[i].ok
  }

  lemma {:induction false} FaultFreeWorks(s: State, cs: seq<Choice>)
    requires FaultFree(cs)
    ensures DecisiveStepsWork(s, cs)
    decreases |cs|
  {
    hide Decisive, Next;
    if cs != [] {
      FaultFreeWorks(Next(s, cs[0]), cs[1..]);
    }
  }

  /** `n` steps of the top frame in which nothing fails. */
  function Quiet(n: nat): seq<Choice> {
    seq(n, _ => Step(true, true))
  }

  lemma QuietStep(s: State, n: nat)
    ensures Run(s, Quiet(n + 1)) == Run(Next(s, Step(true, true)), Quiet(n))
  {
    assert Quiet(n + 1)[1..] == Quiet(n);
  }

  lemma {:induction false} RunTwo(s: State, a: seq<Choice>, b: seq<Choice>)
    ensures Run(s, a + b) == Run(Run(s, a), b)
    decreases |a|
  {
    if a == [] {
      assert a + b == b;
    } else {
      assert (a + b)[1..] == a[1..] + b;
      RunTwo(Next(s, a[0]), a[1..], b);
    }
  }

  /** The handler's half: it writes the '0', clears the flag and raises. */
  lemma HandlerRuns()
    ensures Run(State(false, true, Handler(Enter, Main(Written)), Nothing, Never), Quiet(8))
         == State(false, false, Main(Written), SystemExit, Landed)
  {
    hide Next;
    assert Quiet(8) == Quiet(4) + Quiet(4);
    RunTwo(State(false, true, Handler(Enter, Main(Written)), Nothing, Never), Quiet(4), Quiet(4));
    HandlerWrites();
    HandlerClears();
  }

  lemma HandlerWrites()
    ensures Run(State(false, true, Handler(Enter, Main(Written)), Nothing, Never), Quiet(4))
         == State(false, true, Call(Close, Handler(Leave, Main(Written))), Nothing, Never)
  {
    var s := State(false, true, Handler(Enter, Main(Written)), Nothing, Never);
    var left := Handler(Leave, Main(Written));
    QuietStep(s, 3);
    QuietStep(s.(stack := Call(Check, left)), 2);
    QuietStep(s.(stack := Call(Open, left)), 1);
    QuietStep(s.(stack := Call(Write, left)), 0);
  }

  lemma HandlerClears()
    ensures Run(State(false, true, Call(Close, Handler(Leave, Main(Written))), Nothing, Never), Quiet(4))
         == State(false, false, Main(Written), SystemExit, Landed)
  {
    var s := State(false, true, Call(Close, Handler(Leave, Main(Written))), Nothing, Never);
    var left := Handler(Leave, Main(Written));
    QuietStep(s, 3);
    QuietStep(s.(stack := Call(Clear, left), last := Landed), 2);
    QuietStep(s.(stack := Call(Announce, left), last := Landed, flag := false), 1);
    QuietStep(s.(stack := left, last := Landed, flag := false), 0);
  }

  /** The unwinding half: the pending '1' lands and nobody looks again. */
  lemma MainUnwinds()
    ensures Run(State(false, false, Main(Written), SystemExit, Landed), Quiet(5))
         == State(true, false, Main(Done), Nothing, Landed)
  {
    var down := State(true, false, Main(Finally(true)), Nothing, Landed);
    QuietStep(State(false, false, Main(Written), SystemExit, Landed), 4);
    QuietStep(down, 3);
    QuietStep(down.(stack := Call(Check, Main(Finally(true)))), 2);
    QuietStep(down.(stack := Main(AtExit)), 1);
    QuietStep(down.(stack := Call(Check, Main(AtExit))), 0);
  }

  lemma WriteBuffers()
    ensures Run(INIT, Quiet(3)) == State(false, true, Main(Written), Nothing, Never)
  {
    QuietStep(INIT, 2);
    QuietStep(INIT.(stack := Main(Opened)), 1);
    QuietStep(INIT.(stack := Main(Flagged), flag := true), 0);
  }

  /** Such a run: the handler re-enables the port and clears the flag, then the interrupted
      `with` closes its file and the pending '1' takes the port down for good. */
  lemma WindowStrandsThePort()
    ensures var cs := Quiet(3) + [Signal] + Quiet(8) + Quiet(5);
            && FaultFree(cs) && Run(INIT, cs) == State(true, false, Main(Done), Nothing, Landed)
            && SignalInWindow(INIT, cs)
  {
    hide Next;
    var cs := Quiet(3) + [Signal] + Quiet(8) + Quiet(5);
    RunTwo(INIT, Quiet(3) + [Signal] + Quiet(8), Quiet(5));
    RunTwo(INIT, Quiet(3) + [Signal], Quiet(8));
    RunTwo(INIT, Quiet(3), [Signal]);
    WriteBuffers();
    var written := State(false, true, Main(Written), Nothing, Never);
    SignalStep(written);
    HandlerRuns();
    MainUnwinds();
    FaultFreeWorks(INIT, cs);
    PortUpIffNoSignalInWindow(cs);
  }

  lemma SignalStep(s: State)
    requires !Finished(s)
    ensures Run(s, [Signal]) == s.(stack := Handler(Enter, s.stack), raising := Nothing)
  {
    assert [Signal][1..] == [];
  }
}
