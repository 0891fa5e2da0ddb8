/** The replug tool as the structured program it is written as: `with`, `except`, `finally` and the
    exit hook, each by what it leaves behind. The machine of `Replug` runs exactly this program. */
module ReplugProgram {
  import opened Replug

  /** What the program leaves in the world: the port, its own flag, its last attempt. */
  datatype World = World(down: bool, flag: bool, last: Attempt)

  /** The I/O of one call of `reenable`: whether the open, the write, the close and the two
      reports succeed, and whether a failing close reaches the port all the same. */
  datatype Try = Try(open: bool, write: bool, close: bool, reached: bool, announce: bool, report: bool)

  function At(w: World, stack: Stack, raising: Exc): State {
    State(w.down, w.flag, stack, raising, w.last)
  }

  /** A step whose I/O succeeds, or which has none. */
  const STEP := Step(true, true)

  // -------------------------------------------------------------- `reenable`

  /** The world after a call: untouched unless the flag is set; up and unflagged when the '0'
      is written and its file closed; otherwise still flagged, up if the failing close reached
      the port. */
  function Reenabled(w: World, t: Try): World {
    if !w.flag then w
    else if t.open && t.write && t.close then World(false, false, Landed)
    else World(w.down && !(t.open && t.write && t.reached), true, Lost)
  }

  /** Only a report that cannot be printed leaves the call with an error. */
  function Raises(w: World, t: Try): Exc {
    if w.flag && !t.report && !(t.open && t.write && t.close && t.announce) then Error else Nothing
  }

  /** The steps of the call. */
  function CallSteps(flag: bool, t: Try): seq<Choice> {
    if !flag then [STEP]
    else if !t.open then [STEP, Step(false, true), Step(t.report, true)]
    else if !t.write then [STEP, STEP, Step(false, true), Step(t.report, true)]
    else if !t.close then [STEP, STEP, STEP, Step(false, t.reached), Step(t.report, true)]
    else if t.announce then [STEP, STEP, STEP, STEP, STEP, STEP]
    else [STEP, STEP, STEP, STEP, STEP, Step(false, true), Step(t.report, true)]
  }

  lemma RunStep(s: State, c: Choice, cs: seq<Choice>)
    ensures Run(s, [c] + cs) == Run(Next(s, c), cs)
  {
    assert ([c] + cs)[1..] == cs;
  }

  lemma RunOne(s: State, c: Choice)
    ensures Run(s, [c]) == Next(s, c)
  {
    assert [c][1..] == [];
  }

  /** Where the caller goes on: past its `finally`, into the wait or, with an exception still
      to pass on, to the exit hook; past the exit hook; or on in the handler. */
  function Resumed(caller: Stack): Stack {
    if caller == Main(Finally(false)) then Main(Waiting)
    else if caller == Main(Finally(true)) then Main(AtExit)
    else if caller == Main(AtExit) then Main(Done)
    else caller
  }

  lemma CallFailsEarly(w: World, caller: Stack, t: Try)
    requires w.flag && !(t.open && t.write)
    ensures Run(At(w, Call(Check, caller), Nothing), CallSteps(w.flag, t)) ==
            At(Reenabled(w, t), if Raises(w, t).Nothing? then Resumed(caller) else caller, Raises(w, t))
  {
    var s := At(w, Call(Check, caller), Nothing);
    if !t.open {
      RunStep(s, STEP, [Step(false, true), Step(t.report, true)]);
      assert [STEP] + [Step(false, true), Step(t.report, true)] == CallSteps(w.flag, t);
      FailedReport(w, caller, Open, false, t.report);
    } else {
      assert [STEP] + ([STEP] + [Step(false, true), Step(t.report, true)]) == CallSteps(w.flag, t);
      RunStep(s, STEP, [STEP] + [Step(false, true), Step(t.report, true)]);
      RunStep(At(w, Call(Open, caller), Nothing), STEP, [Step(false, true), Step(t.report, true)]);
      FailedReport(w, caller, Write, false, t.report);
    }
  }

  /** A failing operation, then the report. */
  lemma FailedReport(w: World, caller: Stack, re: RePc, reached: bool, report: bool)
    requires re.Open? || re.Write? || re.Close?
    ensures var down := if re.Close? then w.down && !reached else w.down;
            forall r: bool :: (re.Close? ==> r == reached) ==>
              Run(At(w, Call(re, caller), Nothing), [Step(false, r), Step(report, true)]) ==
              At(World(down, w.flag, Lost), if report then Resumed(caller) else caller, if report then Nothing else Error)
  {
    forall r: bool | re.Close? ==> r == reached
      ensures Run(At(w, Call(re, caller), Nothing), [Step(false, r), Step(report, true)]) ==
              At(World(if re.Close? then w.down && !reached else w.down, w.flag, Lost),
                if report then Resumed(caller) else caller, if report then Nothing else Error)
    {
      var s := At(w, Call(re, caller), Nothing);
      assert [Step(false, r)] + [Step(report, true)] == [Step(false, r), Step(report, true)];
      RunStep(s, Step(false, r), [Step(report, true)]);
      RunOne(Next(s, Step(false, r)), Step(report, true));
    }
  }

  lemma CallReachesClose(w: World, caller: Stack, rest: seq<Choice>)
    requires w.flag
    ensures Run(At(w, Call(Check, caller), Nothing), [STEP, STEP, STEP] + rest) == Run(At(w, Call(Close, caller), Nothing), rest)
  {
    assert [STEP, STEP, STEP] + rest == [STEP] + ([STEP] + ([STEP] + rest));
    RunStep(At(w, Call(Check, caller), Nothing), STEP, [STEP] + ([STEP] + rest));
    RunStep(At(w, Call(Open, caller), Nothing), STEP, [STEP] + rest);
    RunStep(At(w, Call(Write, caller), Nothing), STEP, rest);
  }

  lemma CallLands(w: World, caller: Stack, rest: seq<Choice>)
    requires w.flag
    ensures Run(At(w, Call(Close, caller), Nothing), [STEP, STEP] + rest) ==
            Run(At(World(false, false, Landed), Call(Announce, caller), Nothing), rest)
  {
    assert [STEP, STEP] + rest == [STEP] + ([STEP] + rest);
    RunStep(At(w, Call(Close, caller), Nothing), STEP, [STEP] + rest);
    RunStep(At(World(false, true, Landed), Call(Clear, caller), Nothing), STEP, rest);
  }

  lemma Announced(w: World, caller: Stack, t: Try)
    ensures Run(At(w, Call(Announce, caller), Nothing), if t.announce then [STEP] else [Step(false, true), Step(t.report, true)]) ==
            if t.announce || t.report then At(w, Resumed(caller), Nothing) else At(w, caller, Error)
  {
    var s := At(w, Call(Announce, caller), Nothing);
    if t.announce {
      RunOne(s, STEP);
    } else {
      assert [Step(false, true)] + [Step(t.report, true)] == [Step(false, true), Step(t.report, true)];
      RunStep(s, Step(false, true), [Step(t.report, true)]);
      RunOne(At(w, Call(Report, caller), Nothing), Step(t.report, true));
    }
  }

  /** A call of `reenable` nobody interrupts, for any I/O. */
  lemma CallCompletes(w: World, caller: Stack, t: Try)
    ensures Run(At(w, Call(Check, caller), Nothing), CallSteps(w.flag, t)) ==
            At(Reenabled(w, t), if Raises(w, t).Nothing? then Resumed(caller) else caller, Raises(w, t))
  {
    hide Run, Next, Resumed;
    var s := At(w, Call(Check, caller), Nothing);
    if !w.flag {
      RunOne(s, STEP);
      CheckReturns(w, caller);
    } else if !(t.open && t.write) {
      CallFailsEarly(w, caller, t);
    } else if !t.close {
      assert [STEP, STEP, STEP] + [Step(false, t.reached), Step(t.report, true)] == CallSteps(w.flag, t);
      CallReachesClose(w, caller, [Step(false, t.reached), Step(t.report, true)]);
      FailedReport(w, caller, Close, t.reached, t.report);
    } else {
      var rest := if t.announce then [STEP] else [Step(false, true), Step(t.report, true)];
      assert [STEP, STEP, STEP] + ([STEP, STEP] + rest) == CallSteps(w.flag, t);
      CallReachesClose(w, caller, [STEP, STEP] + rest);
      CallLands(w, caller, rest);
      Announced(World(false, false, Landed), caller, t);
    }
  }

  lemma CheckReturns(w: World, caller: Stack)
    requires !w.flag
    ensures Next(At(w, Call(Check, caller), Nothing), STEP) == At(w, Resumed(caller), Nothing)
  {
  }

  // ------------------------------------------------------------- the handler

  /** A signal is delivered wherever the program stands, unless it has finished. */
  lemma SignalDelivered(w: World, stack: Stack, raising: Exc)
    ensures Next(At(w, stack, raising), Signal) ==
            if stack == Main(Done) then At(w, stack, raising) else At(w, Handler(Enter, stack), Nothing)
  {
  }

  /** The handler calls `reenable` and then exits: what it interrupted goes on with
      `SystemExit`, or with the error of a report that could not be printed. */
  lemma HandlerCompletes(w: World, interrupted: Stack, t: Try)
    ensures Run(At(w, Handler(Enter, interrupted), Nothing), [STEP] + (CallSteps(w.flag, t) + [STEP])) ==
            At(Reenabled(w, t), interrupted, if Raises(w, t).Nothing? then SystemExit else Error)
  {
    hide Run, CallSteps;
    var left := Handler(Leave, interrupted);
    RunStep(At(w, Handler(Enter, interrupted), Nothing), STEP, CallSteps(w.flag, t) + [STEP]);
    RunTwo(At(w, Call(Check, left), Nothing), CallSteps(w.flag, t), [STEP]);
    CallCompletes(w, left, t);
    RunOne(At(Reenabled(w, t), left, Raises(w, t)), STEP);
  }

  // ------------------------------------------------------ exceptions on the way

  /** Leaving the `with` block of `reenable` closes its file: only a '0' in the buffer matters. */
  function Closed(w: World, re: RePc, ok: bool, reached: bool): World {
    if !re.Close? then w
    else if ok then World(false, w.flag, Landed)
    else World(w.down && !reached, w.flag, Lost)
  }

  /** What is raised past the `with` block: an error of the close supersedes it. */
  function PastWith(re: RePc, e: Exc, ok: bool): Exc {
    if re.Close? && !ok then Error else e
  }

  /** The statements of the `try`: the flag test and the `except` clause are outside it. */
  predicate InTry(re: RePc) {
    !re.Check? && !re.Report?
  }

  /** An exception that reaches a call of `reenable`: an ordinary one raised in its `try` is
      reported, any other goes on to the caller. */
  lemma CallInterrupted(w: World, re: RePc, caller: Stack, e: Exc, ok: bool, reached: bool)
    requires !e.Nothing?
    ensures Next(At(w, Call(re, caller), e), Step(ok, reached)) ==
            if InTry(re) && PastWith(re, e, ok).Error? then At(Closed(w, re, ok, reached), Call(Report, caller), Nothing)
            else At(Closed(w, re, ok, reached), caller, PastWith(re, e, ok))
  {
  }

  /** A handler's own exception goes on into what it interrupted. */
  lemma HandlerInterrupted(w: World, b: BailPc, interrupted: Stack, e: Exc, c: Choice)
    requires !e.Nothing? && c.Step?
    ensures Next(At(w, Handler(b, interrupted), e), c) == At(w, interrupted, e)
  {
  }

  // ---------------------------------------------------------------- the end

  /** The exit hook: one more call of `reenable`, whose error ends with the process. */
  function HookSteps(w: World, t: Try): seq<Choice> {
    [STEP] + (CallSteps(w.flag, t) + (if Raises(w, t).Nothing? then [] else [STEP]))
  }

  lemma HookCompletes(w: World, t: Try)
    ensures Run(At(w, Main(AtExit), Nothing), HookSteps(w, t)) == At(Reenabled(w, t), Main(Done), Nothing)
  {
    hide Run, CallSteps;
    var end := if Raises(w, t).Nothing? then [] else [STEP];
    RunStep(At(w, Main(AtExit), Nothing), STEP, CallSteps(w.flag, t) + end);
    RunTwo(At(w, Call(Check, Main(AtExit)), Nothing), CallSteps(w.flag, t), end);
    CallCompletes(w, Main(AtExit), t);
    if Raises(w, t).Nothing? {
      RunNone(At(Reenabled(w, t), Main(Done), Nothing));
    } else {
      RunOne(At(Reenabled(w, t), Main(AtExit), Error), STEP);
    }
  }

  lemma RunNone(s: State)
    ensures Run(s, []) == s
  {
  }

  /** The `finally`: a call of `reenable`, then the wait, unless an exception is on its way or
      the call raises one; and in any case the exit hook. */
  function FinallySteps(w: World, failing: bool, t: Try, hook: Try): seq<Choice> {
    [STEP] + (CallSteps(w.flag, t) + ((if failing && Raises(w, t).Nothing? then [] else [STEP]) + HookSteps(Reenabled(w, t), hook)))
  }

  lemma FinallyCompletes(w: World, failing: bool, t: Try, hook: Try)
    ensures Run(At(w, Main(Finally(failing)), Nothing), FinallySteps(w, failing, t, hook))
         == At(Reenabled(Reenabled(w, t), hook), Main(Done), Nothing)
  {
    hide Run, CallSteps, HookSteps;
    var between := if failing && Raises(w, t).Nothing? then [] else [STEP];
    var w' := Reenabled(w, t);
    RunStep(At(w, Main(Finally(failing)), Nothing), STEP, CallSteps(w.flag, t) + (between + HookSteps(w', hook)));
    RunTwo(At(w, Call(Check, Main(Finally(failing))), Nothing), CallSteps(w.flag, t), between + HookSteps(w', hook));
    CallCompletes(w, Main(Finally(failing)), t);
    HookCompletes(w', hook);
    if failing && Raises(w, t).Nothing? {
      assert between + HookSteps(w', hook) == HookSteps(w', hook);
    } else if Raises(w, t).Nothing? {
      RunStep(At(w', Main(Waiting), Nothing), STEP, HookSteps(w', hook));
    } else {
      RunStep(At(w', Main(Finally(failing)), Error), STEP, HookSteps(w', hook));
    }
  }

  // -------------------------------------------------------------- the program

  /** The I/O of a whole run: the file of the '1', the call in the `finally`, the exit hook. */
  datatype Outcomes = Outcomes(open: bool, write: bool, close: bool, reached: bool, first: Try, hook: Try)

  /** The world the `try` block leaves. The flag is set once the file is open; the port goes down
      when the file of a written '1' closes, or when a failing close reaches it. */
  function Disabled(o: Outcomes): World {
    World(o.open && o.write && (o.close || o.reached), o.open, Never)
  }

  /** The `try` block raised. */
  predicate Failed(o: Outcomes) {
    !(o.open && o.write && o.close)
  }

  function TrySteps(o: Outcomes): seq<Choice> {
    if !o.open then [Step(false, true), STEP]
    else if !o.write then [STEP, STEP, Step(false, true), STEP]
    else [STEP, STEP, STEP, Step(o.close, o.reached), STEP]
  }

  lemma TryCompletes(o: Outcomes)
    ensures Run(INIT, TrySteps(o)) == At(Disabled(o), Main(Finally(Failed(o))), Nothing)
  {
    if !o.open {
      assert [Step(false, true)] + [STEP] == TrySteps(o);
      RunStep(INIT, Step(false, true), [STEP]);
      RunOne(INIT.(raising := Error), STEP);
    } else {
      var flagged := State(false, true, Main(Flagged), Nothing, Never);
      var rest := if o.write then [STEP] + ([Step(o.close, o.reached)] + [STEP]) else [Step(false, true)] + [STEP];
      assert [STEP] + ([STEP] + rest) == TrySteps(o);
      RunStep(INIT, STEP, [STEP] + rest);
      RunStep(INIT.(stack := Main(Opened)), STEP, rest);
      if o.write {
        RunStep(flagged, STEP, [Step(o.close, o.reached)] + [STEP]);
        RunStep(flagged.(stack := Main(Written)), Step(o.close, o.reached), [STEP]);
        RunOne(Next(flagged.(stack := Main(Written)), Step(o.close, o.reached)), STEP);
      } else {
        RunStep(flagged, Step(false, true), [STEP]);
        RunOne(flagged.(raising := Error), STEP);
      }
    }
  }

  /** The program no signal reaches, for any I/O: it disables the port, and re-enables it in its
      `finally` and again in its exit hook. */
  lemma MainCompletes(o: Outcomes)
    ensures Run(INIT, TrySteps(o) + FinallySteps(Disabled(o), Failed(o), o.first, o.hook))
         == At(Reenabled(Reenabled(Disabled(o), o.first), o.hook), Main(Done), Nothing)
  {
    hide Run, TrySteps, FinallySteps;
    RunTwo(INIT, TrySteps(o), FinallySteps(Disabled(o), Failed(o), o.first, o.hook));
    TryCompletes(o);
    FinallyCompletes(Disabled(o), Failed(o), o.first, o.hook);
  }

  /** An exception that reaches `main`: in the `try` block it goes to the `finally`, closing the
      file on the way, so that a '1' in the buffer lands; later it goes to the exit hook. */
  lemma MainInterrupted(w: World, pc: MainPc, e: Exc, ok: bool, reached: bool)
    requires !e.Nothing? && !pc.Done?
    ensures var next := Next(At(w, Main(pc), e), Step(ok, reached));
            if pc.Written? then next == At(World(w.down || ok || reached, w.flag, w.last), Main(Finally(true)), Nothing)
            else if pc.Armed? || pc.Opened? || pc.Flagged? || pc.Closed? then next == At(w, Main(Finally(true)), Nothing)
            else if pc.AtExit? then next == At(w, Main(Done), Nothing)
            else next == At(w, Main(AtExit), Nothing)
  {
  }

  /** One signal, at any point of the `try` block after the open and outside the window: the
      handler re-enables the port if it was disabled, and whatever its I/O did, the `finally` and
      the exit hook get their turn. */
  lemma SignalledInTry(w: World, pc: MainPc, t: Try, first: Try, hook: Try)
    requires (pc.Flagged? || pc.Closed?) && w.flag
    ensures Run(At(w, Main(pc), Nothing),
              [Signal] + (([STEP] + (CallSteps(true, t) + [STEP])) + ([STEP] + FinallySteps(Reenabled(w, t), true, first, hook)))) ==
            At(Reenabled(Reenabled(Reenabled(w, t), first), hook), Main(Done), Nothing)
  {
    hide Run, CallSteps, FinallySteps;
    var w' := Reenabled(w, t);
    var e := if Raises(w, t).Nothing? then SystemExit else Error;
    var handler, rest := [STEP] + (CallSteps(true, t) + [STEP]), [STEP] + FinallySteps(w', true, first, hook);
    RunStep(At(w, Main(pc), Nothing), Signal, handler + rest);
    SignalDelivered(w, Main(pc), Nothing);
    RunTwo(At(w, Handler(Enter, Main(pc)), Nothing), handler, rest);
    HandlerCompletes(w, Main(pc), t);
    RunStep(At(w', Main(pc), e), STEP, FinallySteps(w', true, first, hook));
    MainInterrupted(w', pc, e, true, true);
    FinallyCompletes(w', true, first, hook);
  }
}
