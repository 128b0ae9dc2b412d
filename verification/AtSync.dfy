/** The emulator thread and its sub-thread, sharing one semaphore and the connection record. */
module AtSync {

  /** Where the emulator is; each name says what comes next. */
  datatype EmuPc =
    | Opening
    | Posting | Polling | Waiting | Executing | LastPost
    | Closing | Signalling | Joining | Destroying | Over

  /** Where the sub-thread is. */
  datatype SubPc = FirstWait | Setup | FirstPost | SigWait | WaitAgain | Printing | PostAgain | Leaving | Exited

  datatype State = State(
    emu: EmuPc,
    sub: SubPc,
    sem: nat,          // value of syncsem
    infoSet: bool,     // atcmd_info has been filled in
    posted: bool,      // the emulator has posted at least once
    pollBroke: bool,   // the loop was left through a poll failure
    termSent: bool,    // GNSS_SIG_TERM has been queued
    closed: bool,      // the GNSS descriptor has been closed
    deadHold: bool     // the sub-thread exited inside its first critical section
  )

  const INITIAL := State(Opening, FirstWait, 0, false, false, false, false, false, false)

  /** One atomic step, with the outcome the environment picks. */
  datatype Step =
    | OpenFails | TtyFails | Opened
    | EmuPost | PollReady | PollFails | EmuWait | EmuWaitFails | Command(shutdown: bool)
    | CloseDevice | SendTerm | Join | Destroy
    | SubWait | SubWaitFails | SetupDone | SetupFails | SubPost
    | SignalError | SignalTerm | SignalData | Print | SignalsOff

  predicate Enabled(st: State, a: Step) {
    match a
    case OpenFails => st.emu == Opening
    case TtyFails => st.emu == Opening
    case Opened => st.emu == Opening
    case EmuPost => st.emu == Posting || st.emu == LastPost
    case PollReady => st.emu == Polling
    case PollFails => st.emu == Polling
    case EmuWait => st.emu == Waiting && st.sem > 0
    case EmuWaitFails => st.emu == Waiting
    case Command(_) => st.emu == Executing
    case CloseDevice => st.emu == Closing
    case SendTerm => st.emu == Signalling
    case Join => st.emu == Joining && st.sub == Exited
    case Destroy => st.emu == Destroying
    case SubWait => (st.sub == FirstWait || st.sub == WaitAgain) && st.sem > 0
    case SubWaitFails => st.sub == FirstWait || st.sub == WaitAgain
    case SetupDone => st.sub == Setup
    case SetupFails => st.sub == Setup
    case SubPost => st.sub == FirstPost || st.sub == PostAgain
    case SignalError => st.sub == SigWait
    case SignalTerm => st.sub == SigWait && st.termSent
    case SignalData => st.sub == SigWait
    case Print => st.sub == Printing
    case SignalsOff => st.sub == Leaving
  }

  function Next(st: State, a: Step): State
    requires Enabled(st, a)
  {
    match a
    case OpenFails => st.(emu := Signalling)
    case TtyFails => st.(emu := Closing)
    case Opened => st.(emu := Posting, infoSet := true)
    case EmuPost => st.(emu := if st.emu == Posting then Polling else Closing, sem := st.sem + 1, posted := true)
    case PollReady => st.(emu := Waiting)
    case PollFails => st.(emu := LastPost, pollBroke := true)
    case EmuWait => st.(emu := Executing, sem := st.sem - 1)
    case EmuWaitFails => st.(emu := Closing)
    case Command(shutdown) => st.(emu := if shutdown then LastPost else Posting)
    case CloseDevice => st.(emu := Signalling, closed := true)
    case SendTerm => st.(emu := Joining, termSent := true)
    case Join => st.(emu := Destroying)
    case Destroy => st.(emu := Over)
    case SubWait => st.(sub := if st.sub == FirstWait then Setup else Printing, sem := st.sem - 1)
    case SubWaitFails => st.(sub := if st.sub == FirstWait then Exited else Leaving)
    case SetupDone => st.(sub := FirstPost)
    case SetupFails => st.(sub := Exited, deadHold := true)
    case SubPost => st.(sub := SigWait, sem := st.sem + 1)
    case SignalError => st
    case SignalTerm => st.(sub := Leaving)
    case SignalData => st.(sub := WaitAgain)
    case Print => st.(sub := PostAgain)
    case SignalsOff => st.(sub := Exited)
  }

  /** Any interleaving; a step that cannot happen is skipped. */
  function Run(st: State, steps: seq<Step>): State
    decreases |steps|
  {
    if steps == [] then st
    else Run(if Enabled(st, steps[0]) then Next(st, steps[0]) else st, steps[1..])
  }

  // ---------------------------------------------------------------- token accounting

  function EmuHolds(st: State): nat {
    if st.emu == Executing || (st.emu == Posting && st.posted) || (st.emu == LastPost && !st.pollBroke) then 1 else 0
  }

  predicate InCriticalSection(sub: SubPc) { sub == Setup || sub == FirstPost || sub == Printing || sub == PostAgain }

  function SubHolds(st: State): nat {
    if InCriticalSection(st.sub) || st.deadHold then 1 else 0
  }

  predicate PastLoop(emu: EmuPc) {
    emu == Closing || emu == Signalling || emu == Joining || emu == Destroying || emu == Over
  }

  /**
   * Tokens in circulation: none before the first post, one in the loop, a second one only after the loop was left
   * through a poll failure.
   */
  function Tokens(st: State): nat {
    if !st.posted then 0 else if st.pollBroke && PastLoop(st.emu) then 2 else 1
  }

  ghost predicate Inv(st: State) {
    && st.sem + EmuHolds(st) + SubHolds(st) == Tokens(st)
    && (st.posted ==> st.infoSet && st.emu != Opening)
    && (st.emu != Opening && !PastLoop(st.emu) ==> st.infoSet)
    && (st.emu == Polling || st.emu == Waiting || st.emu == Executing || st.emu == LastPost ==> st.posted)
    && (st.pollBroke ==> st.emu == LastPost || PastLoop(st.emu))
    && (st.sub != FirstWait && st.sub != Exited ==> st.posted)
    && (st.deadHold ==> st.sub == Exited && st.posted)
    && (st.emu == Joining ==> st.termSent)
    && (st.emu == Destroying || st.emu == Over ==> st.sub == Exited)
  }

  predicate IsSubStep(a: Step) {
    a.SubWait? || a.SubWaitFails? || a.SetupDone? || a.SetupFails? || a.SubPost?
    || a.SignalError? || a.SignalTerm? || a.SignalData? || a.Print? || a.SignalsOff?
  }

  predicate IsLoopStep(a: Step) {
    a.EmuPost? || a.PollReady? || a.PollFails? || a.EmuWait? || a.EmuWaitFails? || a.Command?
  }

  lemma LoopStepKeepsInv(st: State, a: Step)
    requires Inv(st) && Enabled(st, a) && IsLoopStep(a)
    ensures Inv(Next(st, a))
  {
  }

  predicate IsStartStep(a: Step) { a.OpenFails? || a.TtyFails? || a.Opened? }

  lemma StartStepKeepsInv(st: State, a: Step)
    requires Inv(st) && Enabled(st, a) && IsStartStep(a)
    ensures Inv(Next(st, a))
  {
  }

  predicate IsEndStep(a: Step) { a.CloseDevice? || a.SendTerm? || a.Join? || a.Destroy? }

  lemma EndStepKeepsInv(st: State, a: Step)
    requires Inv(st) && Enabled(st, a) && IsEndStep(a)
    ensures Inv(Next(st, a))
  {
  }

  lemma SubStepKeepsInv(st: State, a: Step)
    requires Inv(st) && Enabled(st, a) && IsSubStep(a)
    ensures Inv(Next(st, a))
  {
  }

  lemma StepKeepsInv(st: State, a: Step)
    requires Inv(st) && Enabled(st, a)
    ensures Inv(Next(st, a))
  {
    if IsSubStep(a) {
      SubStepKeepsInv(st, a);
    } else if IsLoopStep(a) {
      LoopStepKeepsInv(st, a);
    } else if IsStartStep(a) {
      StartStepKeepsInv(st, a);
    } else {
      EndStepKeepsInv(st, a);
    }
  }

  lemma {:induction false} RunKeepsInv(st: State, steps: seq<Step>)
    requires Inv(st)
    ensures Inv(Run(st, steps))
    decreases |steps|
  {
    if steps != [] {
      var mid := if Enabled(st, steps[0]) then Next(st, steps[0]) else st;
      if Enabled(st, steps[0]) { StepKeepsInv(st, steps[0]); }
      RunKeepsInv(mid, steps[1..]);
    }
  }

  // ---------------------------------------------------------------- main results

  /** The sub-thread is reading atcmd_info. */
  predicate ReadsInfo(sub: SubPc) { sub == Setup || sub == Printing || sub == Leaving }

  /**
   * In every run, failures included: commands never execute while the sub-thread is in a critical section,
   * atcmd_info is read only after it was set, and the semaphore is destroyed only after the sub-thread is gone.
   */
  lemma NeverOverlap(steps: seq<Step>)
    ensures var st := Run(INITIAL, steps);
            && !(st.emu == Executing && InCriticalSection(st.sub))
            && (ReadsInfo(st.sub) ==> st.infoSet)
            && (st.emu == Over ==> st.sub == Exited)
  {
    RunKeepsInv(INITIAL, steps);
  }

  /**
   * The token count is one from the first post on, except for exactly one extra token once the loop was left
   * through a poll failure.
   */
  lemma TokenCount(steps: seq<Step>)
    ensures var st := Run(INITIAL, steps);
            st.posted ==> st.sem + EmuHolds(st) + SubHolds(st) == if st.pollBroke && PastLoop(st.emu) then 2 else 1
  {
    RunKeepsInv(INITIAL, steps);
  }

  /** Steps a thread takes on its own when nothing fails; a signal other than the termination one may never come. */
  predicate OwnStep(a: Step) {
    a in {Opened, EmuPost, PollReady, EmuWait, Command(false), CloseDevice, SendTerm, Join, Destroy,
          SubWait, SetupDone, SubPost, SignalTerm, Print, SignalsOff}
  }

  /** The emulator waits for a token that went with the sub-thread. */
  predicate TokenDied(st: State) { st.emu == Waiting && st.deadHold }

  /** The emulator joins a sub-thread that waits for a token never posted. */
  predicate NeverPosted(st: State) { st.emu == Joining && st.sub == FirstWait && !st.posted }

  ghost predicate Stuck(st: State) { forall a | OwnStep(a) :: !Enabled(st, a) }

  /**
   * Over every run, nothing can move without a failure exactly when all is over, or the emulator waits for a token
   * that died with the sub-thread, or it joins a sub-thread that waits for a token never posted.
   */
  lemma StuckIff(steps: seq<Step>)
    ensures var st := Run(INITIAL, steps);
            Stuck(st) <==> st.emu == Over || TokenDied(st) || NeverPosted(st)
  {
    RunKeepsInv(INITIAL, steps);
    StuckStates(Run(INITIAL, steps));
  }

  lemma StuckStates(st: State)
    requires Inv(st)
    ensures Stuck(st) <==> st.emu == Over || TokenDied(st) || NeverPosted(st)
  {
    var own :=
      match st.emu
      case Opening => Opened
      case Posting => EmuPost
      case LastPost => EmuPost
      case Polling => PollReady
      case Executing => Command(false)
      case Closing => CloseDevice
      case Signalling => SendTerm
      case Destroying => Destroy
      case Waiting => if st.sem > 0 then EmuWait else SubMove(st.sub)
      case Joining => if st.sub == Exited then Join else SubMove(st.sub)
      case Over => Destroy;
    assert OwnStep(own);
    if Stuck(st) { assert !Enabled(st, own); }
  }

  /** The own step of a sub-thread that can move. */
  function SubMove(sub: SubPc): Step {
    match sub
    case FirstWait => SubWait
    case WaitAgain => SubWait
    case Setup => SetupDone
    case FirstPost => SubPost
    case PostAgain => SubPost
    case SigWait => SignalTerm
    case Printing => Print
    case Leaving => SignalsOff
    case Exited => SignalsOff
  }

  /** If the first set_signal fails, the token is gone for good: no command is ever executed again. */
  lemma {:induction false} DeadHoldStopsCommands(st: State, steps: seq<Step>)
    requires Inv(st) && st.deadHold
    ensures Run(st, steps).emu != Executing && Run(st, steps).deadHold
    decreases |steps|
  {
    if steps != [] {
      if Enabled(st, steps[0]) {
        StepKeepsInv(st, steps[0]);
        DeadHoldStopsCommands(Next(st, steps[0]), steps[1..]);
      } else {
        DeadHoldStopsCommands(st, steps[1..]);
      }
    }
  }

  /**
   * While the emulator waits for the sub-thread to end, the sub-thread is starved of the token only if the
   * emulator never posted, that is, if opening failed.
   */
  lemma JoinStarvedIff(steps: seq<Step>)
    ensures var st := Run(INITIAL, steps);
            st.emu == Joining && (st.sub == FirstWait || st.sub == WaitAgain) ==> (st.sem == 0 <==> !st.posted)
  {
    RunKeepsInv(INITIAL, steps);
  }

  // ---------------------------------------------------------------- the descriptor

  predicate PastClose(emu: EmuPc) { emu == Signalling || emu == Joining || emu == Destroying || emu == Over }

  /** The descriptor is closed before the termination signal goes out. */
  ghost predicate CloseInv(st: State) {
    && (st.closed ==> PastClose(st.emu)) && (PastClose(st.emu) && st.infoSet ==> st.closed)
    && (st.termSent ==> PastClose(st.emu)) && (st.emu == Opening ==> !st.infoSet)
  }

  lemma StepKeepsCloseInv(st: State, a: Step)
    requires Inv(st) && CloseInv(st) && Enabled(st, a)
    ensures CloseInv(Next(st, a))
  {
  }

  lemma {:induction false} RunKeepsCloseInv(st: State, steps: seq<Step>)
    requires Inv(st) && CloseInv(st)
    ensures CloseInv(Run(st, steps))
    decreases |steps|
  {
    if steps != [] {
      if Enabled(st, steps[0]) {
        StepKeepsInv(st, steps[0]);
        StepKeepsCloseInv(st, steps[0]);
        RunKeepsCloseInv(Next(st, steps[0]), steps[1..]);
      } else {
        RunKeepsCloseInv(st, steps[1..]);
      }
    }
  }

  /**
   * In every run the sub-thread works on a closed descriptor exactly while the emulator is about to signal or joining;
   * and whenever it obeys the termination signal, the descriptor it then turns the signals off on is closed already.
   */
  lemma ClosedDescriptorIff(steps: seq<Step>)
    ensures var st := Run(INITIAL, steps);
            && (ReadsInfo(st.sub) ==> (st.closed <==> st.emu == Signalling || st.emu == Joining))
            && (Enabled(st, SignalTerm) ==> st.closed)
  {
    RunKeepsInv(INITIAL, steps);
    RunKeepsCloseInv(INITIAL, steps);
    ClosedStates(Run(INITIAL, steps));
  }

  lemma ClosedStates(st: State)
    requires Inv(st) && CloseInv(st)
    ensures ReadsInfo(st.sub) ==> (st.closed <==> st.emu == Signalling || st.emu == Joining)
    ensures Enabled(st, SignalTerm) ==> st.closed
  {
  }

  /** No failure: a thread's own step, or the exit command. */
  predicate Smooth(a: Step) { OwnStep(a) || a == Command(true) }

  ghost predicate Leads(steps: seq<Step>, st: State) {
    Run(INITIAL, steps) == st && forall a | a in steps :: Smooth(a)
  }

  lemma {:induction false} RunAppend(st: State, steps: seq<Step>, a: Step)
    requires Enabled(Run(st, steps), a)
    ensures Run(st, steps + [a]) == Next(Run(st, steps), a)
    decreases |steps|
  {
    if steps == [] {
      assert [] + [a] == [a] && [a][1..] == [];
    } else {
      assert (steps + [a])[1..] == steps[1..] + [a];
      RunAppend(if Enabled(st, steps[0]) then Next(st, steps[0]) else st, steps[1..], a);
    }
  }

  lemma Then(steps: seq<Step>, st: State, a: Step) returns (more: seq<Step>)
    requires Leads(steps, st) && Enabled(st, a) && Smooth(a)
    ensures Leads(more, Next(st, a))
  {
    RunAppend(INITIAL, steps, a);
    more := steps + [a];
  }

  const SERVING := State(Polling, SigWait, 1, true, true, false, false, false, false)
  const EXITING := State(Closing, SigWait, 1, true, true, false, false, false, false)

  lemma StartUp() returns (steps: seq<Step>)
    ensures Leads(steps, SERVING)
  {
    steps := Then([], INITIAL, Opened);
    steps := Then(steps, State(Posting, FirstWait, 0, true, false, false, false, false, false), EmuPost);
    steps := Then(steps, State(Polling, FirstWait, 1, true, true, false, false, false, false), SubWait);
    steps := Then(steps, State(Polling, Setup, 0, true, true, false, false, false, false), SetupDone);
    steps := Then(steps, State(Polling, FirstPost, 0, true, true, false, false, false, false), SubPost);
  }

  lemma ExitCommand(start: seq<Step>) returns (steps: seq<Step>)
    requires Leads(start, SERVING)
    ensures Leads(steps, EXITING)
  {
    steps := Then(start, SERVING, PollReady);
    steps := Then(steps, State(Waiting, SigWait, 1, true, true, false, false, false, false), EmuWait);
    steps := Then(steps, State(Executing, SigWait, 0, true, true, false, false, false, false), Command(true));
    steps := Then(steps, State(LastPost, SigWait, 0, true, true, false, false, false, false), EmuPost);
  }

  /** A run without any failure that gets there: start-up, one exit command, and the end. */
  lemma OrderlyShutdown() returns (steps: seq<Step>)
    ensures forall a | a in steps :: Smooth(a)
    ensures var st := Run(INITIAL, steps); st.closed && st.emu == Joining && st.sub == Leaving
  {
    steps := StartUp();
    steps := ExitCommand(steps);
    steps := Then(steps, EXITING, CloseDevice);
    steps := Then(steps, State(Signalling, SigWait, 1, true, true, false, false, true, false), SendTerm);
    steps := Then(steps, State(Joining, SigWait, 1, true, true, false, true, true, false), SignalTerm);
  }

  // ---------------------------------------------------------------- data signals

  /** How often a step of one kind really happened in a run. */
  function Times(st: State, steps: seq<Step>, kind: Step -> bool): nat
    decreases |steps|
  {
    if steps == [] then 0
    else if !Enabled(st, steps[0]) then Times(st, steps[1..], kind)
    else (if kind(steps[0]) then 1 else 0) + Times(Next(st, steps[0]), steps[1..], kind)
  }

  function IsData(): Step -> bool { (a: Step) => a.SignalData? }
  function IsPrint(): Step -> bool { (a: Step) => a.Print? }

  /** A data signal has been taken and not printed yet. */
  function Owing(sub: SubPc): nat { if sub == WaitAgain || sub == Printing then 1 else 0 }

  /** A wait that fails ends the sub-thread: at its first wait nothing is owed, at a later one a signal is dropped. */
  function Drops(st: State, a: Step): nat { if a.SubWaitFails? && st.sub == WaitAgain then 1 else 0 }

  function Dropped(st: State, steps: seq<Step>): nat
    decreases |steps|
  {
    if steps == [] then 0
    else if !Enabled(st, steps[0]) then Dropped(st, steps[1..])
    else Drops(st, steps[0]) + Dropped(Next(st, steps[0]), steps[1..])
  }

  lemma OwesOneMore(st: State, a: Step)
    requires Enabled(st, a)
    ensures Owing(st.sub) + (if a.SignalData? then 1 else 0) ==
              Owing(Next(st, a).sub) + (if a.Print? then 1 else 0) + Drops(st, a)
  {
    if IsSubStep(a) { SubStepOwes(st, a); } else { EmuStepOwes(st, a); }
  }

  lemma EmuStepOwes(st: State, a: Step)
    requires Enabled(st, a) && !IsSubStep(a)
    ensures Next(st, a).sub == st.sub
  {
    if IsLoopStep(a) {
      LoopStepOwes(st, a);
    } else if IsStartStep(a) {
      StartStepOwes(st, a);
    } else {
      EndStepOwes(st, a);
    }
  }

  lemma LoopStepOwes(st: State, a: Step)
    requires Enabled(st, a) && IsLoopStep(a)
    ensures Next(st, a).sub == st.sub
  {
  }

  lemma StartStepOwes(st: State, a: Step)
    requires Enabled(st, a) && IsStartStep(a)
    ensures Next(st, a).sub == st.sub
  {
  }

  lemma EndStepOwes(st: State, a: Step)
    requires Enabled(st, a) && IsEndStep(a)
    ensures Next(st, a).sub == st.sub
  {
    if a.CloseDevice? || a.SendTerm? { ClosingOwes(st, a); }
  }

  lemma ClosingOwes(st: State, a: Step)
    requires Enabled(st, a) && (a.CloseDevice? || a.SendTerm?)
    ensures Next(st, a).sub == st.sub
  {
  }

  lemma SubStepOwes(st: State, a: Step)
    requires Enabled(st, a) && IsSubStep(a)
    ensures Owing(st.sub) + (if a.SignalData? then 1 else 0) ==
              Owing(Next(st, a).sub) + (if a.Print? then 1 else 0) + Drops(st, a)
  {
    if a.SubWait? || a.SubWaitFails? || a.SignalData? || a.Print? {
      OwingSteps(st, a);
    } else {
      OtherSubSteps(st, a);
    }
  }

  lemma OwingSteps(st: State, a: Step)
    requires Enabled(st, a) && (a.SubWait? || a.SubWaitFails? || a.SignalData? || a.Print?)
    ensures Owing(st.sub) + (if a.SignalData? then 1 else 0) ==
              Owing(Next(st, a).sub) + (if a.Print? then 1 else 0) + Drops(st, a)
  {
  }

  lemma OtherSubSteps(st: State, a: Step)
    requires Enabled(st, a)
    requires a.SetupDone? || a.SetupFails? || a.SubPost? || a.SignalError? || a.SignalTerm? || a.SignalsOff?
    ensures Owing(st.sub) == 0 == Owing(Next(st, a).sub)
  {
  }

  lemma {:induction false} DataBalance(st: State, steps: seq<Step>)
    ensures Owing(st.sub) + Times(st, steps, IsData()) ==
              Owing(Run(st, steps).sub) + Times(st, steps, IsPrint()) + Dropped(st, steps)
    decreases |steps|
  {
    if steps != [] {
      if Enabled(st, steps[0]) {
        OwesOneMore(st, steps[0]);
        DataBalance(Next(st, steps[0]), steps[1..]);
      } else {
        DataBalance(st, steps[1..]);
      }
    }
  }

  lemma {:induction false} NoFailureNoDrop(st: State, steps: seq<Step>)
    requires forall a | a in steps :: !a.SubWaitFails?
    ensures Dropped(st, steps) == 0
    decreases |steps|
  {
    if steps != [] {
      assert steps[0] in steps;
      NoFailureNoDrop(if Enabled(st, steps[0]) then Next(st, steps[0]) else st, steps[1..]);
    }
  }

  /**
   * In every run without a failing sem_wait of the sub-thread, each data signal it took has been printed, but for the
   * one it is waiting to print or printing.
   */
  lemma DataIsPrinted(steps: seq<Step>)
    requires forall a | a in steps :: !a.SubWaitFails?
    ensures var st := Run(INITIAL, steps);
            Times(INITIAL, steps, IsData()) ==
              Times(INITIAL, steps, IsPrint()) + if st.sub == WaitAgain || st.sub == Printing then 1 else 0
  {
    DataBalance(INITIAL, steps);
    NoFailureNoDrop(INITIAL, steps);
  }
}
