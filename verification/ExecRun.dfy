/** The command runner (exec_run.go) as a transition system: the child and the processes
    it leaves behind, the two output pipes and their readers, the deadline, the caller's
    cancellation, the two timers, and the function that waits for them all. Every order
    in which these can act is a run. */
module ExecRun {
  import opened ExecOutput

  datatype Config = Config(limit: int, hasTimeout: bool)

  // --------------------------------------------------------------------- the pipes

  datatype Reader = Reading | AtEof | Cut

  /** An output pipe: what was written so far, whether some process can still write, how
      much of it the reader took, and what was kept of that. */
  datatype Stream = Stream(written: seq<Byte>, open: bool, taken: nat, kept: seq<Byte>, reader: Reader)

  /** `cut`: runCommand closed its ends; `done`: outputDone is closed. */
  datatype Pipes = Pipes(out: Stream, err: Stream, cut: bool, done: bool)

  datatype Which = Out | Err

  datatype PipeEvent =
    | Produce(w: Which, bytes: seq<Byte>) | CloseWriters(w: Which)
    | Read(w: Which, n: nat) | ReadEof(w: Which) | ReadCut(w: Which) | ReadersDone

  function Get(p: Pipes, w: Which): Stream { if w == Out then p.out else p.err }

  function Put(p: Pipes, w: Which, x: Stream): Pipes { if w == Out then p.(out := x) else p.(err := x) }

  predicate BothFinished(p: Pipes) { p.out.reader != Reading && p.err.reader != Reading }

  predicate AllRead(p: Pipes) { p.out.reader == AtEof && p.err.reader == AtEof }

  predicate PipeEnabled(p: Pipes, e: PipeEvent)
  {
    match e
    case Produce(w, bytes) => Get(p, w).open && bytes != []
    case CloseWriters(w) => Get(p, w).open
    case Read(w, n) => Get(p, w).reader == Reading && !p.cut && 0 < n && Get(p, w).taken + n <= |Get(p, w).written|
    case ReadEof(w) =>
      Get(p, w).reader == Reading && !p.cut && !Get(p, w).open && Get(p, w).taken == |Get(p, w).written|
    case ReadCut(w) => Get(p, w).reader == Reading && p.cut
    case ReadersDone => BothFinished(p) && !p.done
  }

  function StreamStep(c: Config, x: Stream, e: PipeEvent): Stream
    requires e.Read? ==> x.taken + e.n <= |x.written|
  {
    match e
    case Produce(_, bytes) => x.(written := x.written + bytes)
    case CloseWriters(_) => x.(open := false)
    case Read(_, n) => x.(taken := x.taken + n, kept := Kept(x.written[..x.taken + n], c.limit))
    case ReadEof(_) => x.(reader := AtEof)
    case ReadCut(_) => x.(reader := Cut)
    case ReadersDone => x
  }

  function PipeStep(c: Config, p: Pipes, e: PipeEvent): Pipes
    requires PipeEnabled(p, e)
  {
    if e.ReadersDone? then p.(done := true) else Put(p, e.w, StreamStep(c, Get(p, e.w), e))
  }

  // -------------------------------------------------------- the child, time and the caller

  datatype Child = Running | Zombie(code: int) | Reaped(code: int)

  /** `exitSeen`: childExited is closed. */
  datatype World = World(child: Child, exitSeen: bool, deadline: bool, cancelled: bool,
                         graceFired: bool, killTimerFired: bool)

  datatype WorldEvent =
    ChildExits(code: int) | NoticeExit | DeadlinePasses | Cancel | GraceFires | KillTimerFires

  predicate WorldEnabled(c: Config, w: World, m: Main, e: WorldEvent)
  {
    match e
    case ChildExits(_) => w.child.Running?
    case NoticeExit => !w.child.Running? && !w.exitSeen
    case DeadlinePasses => c.hasTimeout && !w.deadline
    case Cancel => !w.cancelled
    case GraceFires => m.graceArmed && !w.graceFired
    case KillTimerFires => m.pc == AfterKill && !w.killTimerFired
  }

  function WorldStep(w: World, e: WorldEvent): World
  {
    match e
    case ChildExits(code) => w.(child := Zombie(code))
    case NoticeExit => w.(exitSeen := true)
    case DeadlinePasses => w.(deadline := true)
    case Cancel => w.(cancelled := true)
    case GraceFires => w.(graceFired := true)
    case KillTimerFires => w.(killTimerFired := true)
  }

  // -------------------------------------------------------------------- runCommand

  datatype Result = Exited(code: int) | TimedOut | Interrupted | Stuck | KillFailed

  /** Where runCommand stands. */
  datatype Pc = Select | Killing | AfterKill | Draining | Waiting | Deciding | Returned(result: Result)

  datatype Main = Main(pc: Pc, awaitsOut: bool, awaitsChild: bool, graceArmed: bool,
                       killed: bool, stuck: bool, signals: nat)

  datatype MainEvent =
    | TakeOut | TakeChild | TakeGrace | TakeDone | LoopEnds
    | Kill(ok: bool) | LeaveKill | Drained | Reap | Decide

  datatype State = State(pipes: Pipes, world: World, main: Main)

  function Decision(w: World, m: Main): Result
    requires w.child.Reaped?
  {
    if m.killed && w.cancelled then Interrupted
    else if m.killed then TimedOut
    else if m.stuck then Stuck
    else Exited(w.child.code)
  }

  predicate MainEnabled(s: State, e: MainEvent)
  {
    var m, w, p := s.main, s.world, s.pipes;
    match e
    case TakeOut => m.pc == Select && m.awaitsOut && p.done
    case TakeChild => m.pc == Select && m.awaitsChild && w.exitSeen
    case TakeGrace => m.pc == Select && (m.awaitsOut || m.awaitsChild) && m.graceArmed && w.graceFired
    case TakeDone => m.pc == Select && (m.awaitsOut || m.awaitsChild) && (w.deadline || w.cancelled)
    case LoopEnds => m.pc == Select && !m.awaitsOut && !m.awaitsChild
    case Kill(_) => m.pc == Killing
    case LeaveKill => m.pc == AfterKill && (p.done || w.killTimerFired)
    case Drained => m.pc == Draining && p.done
    case Reap => m.pc == Waiting && w.child.Zombie?
    case Decide => m.pc == Deciding && w.child.Reaped?
  }

  /** Closing the read ends and waiting for the readers. */
  function Drain(s: State, m: Main): State { s.(main := m.(pc := Draining), pipes := s.pipes.(cut := true)) }

  function MainStep(s: State, e: MainEvent): State
    requires MainEnabled(s, e)
  {
    var m := s.main;
    match e
    case TakeOut => s.(main := m.(awaitsOut := false))
    case TakeChild => s.(main := m.(awaitsChild := false, graceArmed := m.graceArmed || m.awaitsOut))
    case TakeGrace => Drain(s, m.(stuck := true))
    case TakeDone =>
      if s.pipes.done && s.world.exitSeen then Drain(s, m) else s.(main := m.(killed := true, pc := Killing))
    case LoopEnds => Drain(s, m)
    case Kill(ok) =>
      s.(main := if ok then m.(signals := m.signals + 1, pc := AfterKill) else m.(pc := Returned(KillFailed)))
    case LeaveKill => Drain(s, m)
    case Drained => s.(main := m.(pc := Waiting))
    case Reap => s.(main := m.(pc := Deciding), world := s.world.(child := Reaped(s.world.child.code)))
    case Decide => s.(main := m.(pc := Returned(Decision(s.world, m))))
  }

  // ------------------------------------------------------------------------- the runs

  datatype Event = Flow(pipe: PipeEvent) | Outside(world: WorldEvent) | Act(main: MainEvent)

  predicate Enabled(c: Config, s: State, e: Event)
  {
    match e
    case Flow(x) => PipeEnabled(s.pipes, x)
    case Outside(x) => WorldEnabled(c, s.world, s.main, x)
    case Act(x) => MainEnabled(s, x)
  }

  function Step(c: Config, s: State, e: Event): State
    requires Enabled(c, s, e)
  {
    match e
    case Flow(x) => s.(pipes := PipeStep(c, s.pipes, x))
    case Outside(x) => s.(world := WorldStep(s.world, x))
    case Act(x) => MainStep(s, x)
  }

  const NEW_STREAM := Stream([], true, 0, [], Reading)

  const START := State(Pipes(NEW_STREAM, NEW_STREAM, false, false),
                       World(Running, false, false, false, false, false),
                       Main(Select, true, true, false, false, false, 0))

  /** The state after a sequence of events, each possible when it happens. */
  ghost predicate Reaches(c: Config, events: seq<Event>, s: State)
    decreases |events|
  {
    if events == [] then s == START
    else
      var e := events[|events| - 1];
      exists before: State ::
        Reaches(c, events[..|events| - 1], before) && Enabled(c, before, e) && s == Step(c, before, e)
  }

  // ------------------------------------------------------------------------ invariants

  ghost predicate StreamOk(c: Config, x: Stream)
  {
    && x.taken <= |x.written| && x.kept == Kept(x.written[..x.taken], c.limit)
    && (x.reader == AtEof ==> !x.open && x.taken == |x.written|)
  }

  ghost predicate PipesOk(c: Config, p: Pipes)
  {
    && StreamOk(c, p.out) && StreamOk(c, p.err)
    && (!p.cut ==> p.out.reader != Cut && p.err.reader != Cut)
    && (p.done ==> BothFinished(p))
  }

  ghost predicate WorldOk(c: Config, w: World)
  {
    (w.exitSeen ==> !w.child.Running?) && (w.deadline ==> c.hasTimeout)
  }

  /** runCommand returned something other than a failed kill. */
  predicate Finished(m: Main) { m.pc.Returned? && m.pc.result != KillFailed }

  predicate PastSelect(m: Main) { m.pc == Draining || m.pc == Waiting || m.pc == Deciding || Finished(m) }

  ghost predicate MainOk(m: Main)
  {
    && (m.signals == if m.killed && m.pc != Killing && m.pc != Returned(KillFailed) then 1 else 0)
    && (m.pc == Select ==> !m.killed && !m.stuck)
    && (m.pc == Killing || m.pc == AfterKill || m.pc == Returned(KillFailed) ==> m.killed)
    && (m.killed ==> !m.stuck)
    && (m.pc == Select && m.awaitsOut && !m.awaitsChild ==> m.graceArmed)
    && (m.pc.Returned? && m.pc.result.Exited? ==> !m.killed && !m.stuck)
    && (m.pc == Returned(TimedOut) || m.pc == Returned(Interrupted) ==> m.killed)
    && (m.pc == Returned(Stuck) ==> m.stuck)
  }

  /** What runCommand knows of the pipes. */
  ghost predicate PipesSeen(p: Pipes, m: Main)
  {
    && (!m.awaitsOut ==> p.done)
    && (p.cut <==> PastSelect(m))
    && (m.pc == Waiting || m.pc == Deciding || Finished(m) ==> p.done)
    && (PastSelect(m) && !m.killed && !m.stuck ==> AllRead(p))
  }

  /** runCommand gave up on the readers only after a timer fired. */
  ghost predicate Waited(p: Pipes, w: World, m: Main)
  {
    && (m.stuck ==> w.graceFired)
    && (PastSelect(m) && m.killed ==> AllRead(p) || w.killTimerFired)
    && (w.killTimerFired ==> m.killed && m.signals == 1)
    && (w.graceFired ==> m.graceArmed)
    && (PastSelect(m) && !m.killed ==> w.exitSeen)
  }

  /** What runCommand knows of the child, the clock and the caller. */
  ghost predicate WorldSeen(w: World, m: Main)
  {
    && (!m.awaitsChild || m.graceArmed || m.stuck ==> w.exitSeen)
    && (w.child.Reaped? <==> m.pc == Deciding || Finished(m))
    && (m.killed ==> w.deadline || w.cancelled)
    && (m.pc.Returned? && m.pc.result.Exited? ==> w.child == Reaped(m.pc.result.code))
    && (m.pc == Returned(TimedOut) ==> w.deadline)
    && (m.pc == Returned(Interrupted) ==> w.cancelled)
  }

  ghost predicate Inv(c: Config, s: State)
  {
    && PipesOk(c, s.pipes) && WorldOk(c, s.world) && MainOk(s.main)
    && PipesSeen(s.pipes, s.main) && WorldSeen(s.world, s.main) && Waited(s.pipes, s.world, s.main)
  }

  lemma StreamStepKeepsOk(c: Config, p: Pipes, e: PipeEvent)
    requires PipesOk(c, p) && PipeEnabled(p, e) && !e.ReadersDone?
    ensures StreamOk(c, StreamStep(c, Get(p, e.w), e))
  {}

  /** Nothing that was settled about the pipes is unsettled. */
  ghost predicate PipesGoOn(p: Pipes, q: Pipes)
  {
    q.cut == p.cut && (p.done ==> q.done) && (AllRead(p) ==> AllRead(q))
  }

  lemma PipeStepKeeps(c: Config, p: Pipes, e: PipeEvent)
    requires PipesOk(c, p) && PipeEnabled(p, e)
    ensures PipesOk(c, PipeStep(c, p, e)) && PipesGoOn(p, PipeStep(c, p, e))
  {
    if !e.ReadersDone? {
      StreamStepKeepsOk(c, p, e);
    }
    hide StreamOk, Kept;
  }

  ghost predicate WorldGoesOn(w: World, v: World)
  {
    && (w.exitSeen ==> v.exitSeen) && (w.deadline ==> v.deadline) && (w.cancelled ==> v.cancelled)
    && (w.child.Reaped? ==> v.child == w.child) && (v.child.Reaped? ==> w.child.Reaped?)
  }

  lemma WorldStepKeeps(c: Config, w: World, m: Main, e: WorldEvent)
    requires WorldOk(c, w) && WorldEnabled(c, w, m, e)
    ensures WorldOk(c, WorldStep(w, e)) && WorldGoesOn(w, WorldStep(w, e))
  {}

  lemma MainStepKeepsMain(c: Config, s: State, e: MainEvent)
    requires Inv(c, s) && MainEnabled(s, e)
    ensures MainOk(MainStep(s, e).main)
  {
    hide PipesOk, WorldOk, PipesSeen, WorldSeen;
  }

  lemma MainStepKeepsPipes(c: Config, s: State, e: MainEvent)
    requires Inv(c, s) && MainEnabled(s, e)
    ensures PipesOk(c, MainStep(s, e).pipes)
  {}

  lemma DoneBeforeCutIsAllRead(c: Config, p: Pipes)
    requires PipesOk(c, p) && p.done && !p.cut
    ensures AllRead(p)
  {}

  lemma MainStepKeepsPipesSeen(c: Config, s: State, e: MainEvent)
    requires Inv(c, s) && MainEnabled(s, e)
    ensures PipesSeen(MainStep(s, e).pipes, MainStep(s, e).main)
  {}

  lemma MainStepKeepsWorld(c: Config, s: State, e: MainEvent)
    requires Inv(c, s) && MainEnabled(s, e)
    ensures WorldOk(c, MainStep(s, e).world) && WorldSeen(MainStep(s, e).world, MainStep(s, e).main)
  {
    hide PipesOk, PipesSeen;
  }

  lemma StepKeepsWaited(c: Config, s: State, e: Event)
    requires Inv(c, s) && Enabled(c, s, e)
    ensures Waited(Step(c, s, e).pipes, Step(c, s, e).world, Step(c, s, e).main)
  {
    hide WorldOk, StreamOk, PipeStep, PipeEnabled, MainStep, MainEnabled, PipesSeen, WorldSeen, PipesOk;
    match e
    case Flow(x) => PipeStepKeeps(c, s.pipes, x);
    case Outside(x) =>
    case Act(x) => MainStepKeepsWaited(c, s, x);
  }

  lemma MainStepKeepsWaited(c: Config, s: State, e: MainEvent)
    requires Inv(c, s) && MainEnabled(s, e)
    ensures Waited(MainStep(s, e).pipes, MainStep(s, e).world, MainStep(s, e).main)
  {
    hide WorldOk, StreamOk, PipesOk;
    if s.pipes.done && !s.pipes.cut {
      DoneBeforeCutIsAllRead(c, s.pipes);
    }
  }

  /** Every step of every participant keeps the invariant. */
  lemma StepKeepsInv(c: Config, s: State, e: Event)
    requires Inv(c, s) && Enabled(c, s, e)
    ensures Inv(c, Step(c, s, e))
  {
    hide PipesOk, WorldOk, MainOk, PipeStep, WorldStep, MainStep, PipeEnabled, WorldEnabled, MainEnabled, Waited;
    StepKeepsWaited(c, s, e);
    match e
    case Flow(x) =>
      PipeStepKeeps(c, s.pipes, x);
    case Outside(x) =>
      WorldStepKeeps(c, s.world, s.main, x);
    case Act(x) =>
      MainStepKeepsMain(c, s, x);
      MainStepKeepsPipes(c, s, x);
      MainStepKeepsPipesSeen(c, s, x);
      MainStepKeepsWorld(c, s, x);
  }

  lemma StartOk(c: Config)
    ensures Inv(c, START)
  {}

  lemma {:induction false} ReachableOk(c: Config, events: seq<Event>, s: State)
    requires Reaches(c, events, s)
    ensures Inv(c, s)
    decreases |events|
  {
    hide Inv, Step, Enabled;
    if events == [] {
      StartOk(c);
    } else {
      var e := events[|events| - 1];
      var before: State :|
        Reaches(c, events[..|events| - 1], before) && Enabled(c, before, e) && s == Step(c, before, e);
      ReachableOk(c, events[..|events| - 1], before);
      StepKeepsInv(c, before, e);
    }
  }

  // -------------------------------------------------------------------------- theorems

  /** In every interleaving the process group is signalled at most once, and only while
      the child has not been reaped, so that its number cannot belong to another group. */
  lemma SignalledOnceBeforeReaping(c: Config, events: seq<Event>, s: State, e: Event)
    requires Reaches(c, events, s) && Enabled(c, s, e)
    ensures s.main.signals <= 1
    ensures Step(c, s, e).main.signals != s.main.signals ==>
      s.main.signals == 0 && Step(c, s, e).main.signals == 1 && !s.world.child.Reaped?
  {
    hide Reaches, PipesOk, WorldOk, PipesSeen, PipeStep, WorldStep, MainStep;
    ReachableOk(c, events, s);
    if e.Act? {
      MainSignalsOnce(s, e.main);
    }
  }

  lemma MainSignalsOnce(s: State, a: MainEvent)
    requires MainOk(s.main) && WorldSeen(s.world, s.main) && MainEnabled(s, a)
    ensures MainStep(s, a).main.signals != s.main.signals ==>
      s.main.signals == 0 && MainStep(s, a).main.signals == 1 && !s.world.child.Reaped?
  {}

  /** A returned result is complete: both readers are finished, so that nothing is written
      to it any more, what was kept is the start of what was read, and no zombie remains. */
  lemma ResultIsComplete(c: Config, events: seq<Event>, s: State)
    requires Reaches(c, events, s) && Finished(s.main)
    ensures BothFinished(s.pipes) && s.world.child.Reaped?
    ensures forall w :: var x := Get(s.pipes, w);
      x.taken <= |x.written| && x.kept == Kept(x.written[..x.taken], c.limit)
  {
    ReachableOk(c, events, s);
    hide Reaches, MainOk, WorldOk, Kept;
  }

  /** A result that is neither an error nor a timeout is the child's own: it exited with
      that code, nobody can write any more, everything written was read, and no signal
      was sent. */
  lemma ExitIsGenuine(c: Config, events: seq<Event>, s: State)
    requires Reaches(c, events, s) && s.main.pc.Returned? && s.main.pc.result.Exited?
    ensures s.world.child == Reaped(s.main.pc.result.code) && s.main.signals == 0
    ensures forall w :: !Get(s.pipes, w).open && Get(s.pipes, w).kept == Kept(Get(s.pipes, w).written, c.limit)
  {
    ReachableOk(c, events, s);
    hide Reaches, Kept;
    var p := s.pipes;
    assert p.out.written[..|p.out.written|] == p.out.written;
    assert p.err.written[..|p.err.written|] == p.err.written;
  }

  /** The other results say why: a timeout needs a deadline that passed and one signal, an
      interruption the caller's cancellation and one signal; a command whose output is held
      open by others has exited itself, and nothing was signalled. */
  lemma OtherResultsAreGenuine(c: Config, events: seq<Event>, s: State)
    requires Reaches(c, events, s) && s.main.pc.Returned?
    ensures s.main.pc.result == TimedOut ==> c.hasTimeout && s.world.deadline && s.main.signals == 1
    ensures s.main.pc.result == Interrupted ==> s.world.cancelled && s.main.signals == 1
    ensures s.main.pc.result == Stuck ==> s.world.child.Reaped? && s.main.signals == 0
    ensures s.main.pc.result == KillFailed ==> s.main.signals == 0 && !s.world.child.Reaped?
  {
    ReachableOk(c, events, s);
    hide Reaches, PipesOk, PipesSeen;
  }

  // -------------------------------------------------------------------------- progress

  /** The events of runCommand, its goroutines and its timers. */
  predicate Internal(e: Event)
  {
    match e
    case Flow(x) => !x.Produce? && !x.CloseWriters?
    case Outside(x) => x.NoticeExit? || x.GraceFires? || x.KillTimerFires?
    case Act(_) => true
  }

  function Flag(b: bool): nat { if b then 1 else 0 }

  function Unread(x: Stream): nat
  {
    (if x.taken <= |x.written| then |x.written| - x.taken else 0) + Flag(x.reader == Reading)
  }

  function PipesLeft(p: Pipes): nat { Unread(p.out) + Unread(p.err) + Flag(!p.done) }

  function WorldLeft(w: World): nat { Flag(!w.exitSeen) + Flag(!w.graceFired) + Flag(!w.killTimerFired) }

  function MainLeft(m: Main): nat
  {
    Flag(m.awaitsOut) + Flag(m.awaitsChild) +
    match m.pc
    case Select => 6
    case Killing => 5
    case AfterKill => 4
    case Draining => 3
    case Waiting => 2
    case Deciding => 1
    case Returned(_) => 0
  }

  /** What is left to do: it bounds how long the runner can go on by itself. */
  function Left(s: State): nat { PipesLeft(s.pipes) + WorldLeft(s.world) + MainLeft(s.main) }

  lemma PipeStepsDecrease(c: Config, p: Pipes, e: PipeEvent)
    requires PipesOk(c, p) && PipeEnabled(p, e) && Internal(Flow(e))
    ensures PipesLeft(PipeStep(c, p, e)) < PipesLeft(p)
  {}

  lemma MainStepsDecrease(c: Config, s: State, e: MainEvent)
    requires MainEnabled(s, e)
    ensures MainLeft(MainStep(s, e).main) < MainLeft(s.main)
    ensures PipesLeft(MainStep(s, e).pipes) == PipesLeft(s.pipes)
    ensures WorldLeft(MainStep(s, e).world) == WorldLeft(s.world)
  {
    hide Unread;
  }

  /** Without news from outside, the runner comes to a stop: each of its steps leaves less
      to do. */
  lemma InternalStepsDecrease(c: Config, s: State, e: Event)
    requires Inv(c, s) && Enabled(c, s, e) && Internal(e)
    ensures Left(Step(c, s, e)) < Left(s)
  {
    hide PipesOk, WorldOk, MainOk, PipeStep, MainStep, PipeEnabled, MainEnabled, PipesLeft, MainLeft, PipesSeen, WorldSeen;
    match e
    case Flow(x) => PipeStepsDecrease(c, s.pipes, x);
    case Outside(x) =>
    case Act(x) => MainStepsDecrease(c, s, x);
  }

  /** The next step of runCommand when its goroutines have nothing to report. */
  function NextOf(s: State): Event
  {
    match s.main.pc
    case Select =>
      if s.main.awaitsChild then Act(TakeChild)
      else if !s.main.awaitsOut then Act(LoopEnds)
      else if s.pipes.done then Act(TakeOut)
      else if s.world.graceFired then Act(TakeGrace)
      else Outside(GraceFires)
    case Killing => Act(Kill(true))
    case AfterKill => if s.world.killTimerFired then Act(LeaveKill) else Outside(KillTimerFires)
    case Draining =>
      if s.pipes.done then Act(Drained) else Flow(ReadCut(if s.pipes.out.reader == Reading then Out else Err))
    case Waiting => Act(Reap)
    case _ => Act(Decide)
  }

  lemma NextIsEnabled(c: Config, s: State)
    requires Inv(c, s) && s.world.exitSeen && !s.main.pc.Returned?
    requires s.pipes.done || !BothFinished(s.pipes)
    ensures Internal(NextOf(s)) && Enabled(c, s, NextOf(s))
  {}

  /** Once the child has exited, the runner never waits for anything that may not come: it
      has a step to take until it has returned, even if other processes hold the output
      open for ever. */
  lemma NeverBlocked(c: Config, events: seq<Event>, s: State)
    requires Reaches(c, events, s) && !s.world.child.Running? && !s.main.pc.Returned?
    ensures exists e :: Internal(e) && Enabled(c, s, e)
  {
    ReachableOk(c, events, s);
    if !s.world.exitSeen {
      assert Enabled(c, s, Outside(NoticeExit));
    } else if !s.pipes.done && BothFinished(s.pipes) {
      assert Enabled(c, s, Flow(ReadersDone));
    } else {
      hide Inv, Internal, Enabled, NextOf, Reaches;
      NextIsEnabled(c, s);
    }
  }

  /** The step to take once the deadline has passed or the caller has cancelled, whether or
      not the child has exited. */
  function NewsOf(s: State): Event
  {
    match s.main.pc
    case Select => if s.main.awaitsOut || s.main.awaitsChild then Act(TakeDone) else Act(LoopEnds)
    case _ => NextOf(s)
  }

  lemma NewsIsEnabled(c: Config, s: State)
    requires Inv(c, s) && (s.world.deadline || s.world.cancelled) && !s.main.pc.Returned?
    requires s.pipes.done || !BothFinished(s.pipes)
    requires s.main.pc == Waiting ==> !s.world.child.Running?
    ensures Internal(NewsOf(s)) && Enabled(c, s, NewsOf(s))
  {
    hide StreamOk;
  }

  /** A deadline or a cancellation is always acted on: the runner has a step to take until it
      has returned, even if the child never exits. It only waits for a child that was
      signalled to be gone. */
  lemma NewsIsActedOn(c: Config, events: seq<Event>, s: State)
    requires Reaches(c, events, s) && (s.world.deadline || s.world.cancelled) && !s.main.pc.Returned?
    ensures (exists e :: Internal(e) && Enabled(c, s, e))
         || (s.main.pc == Waiting && s.world.child.Running? && s.main.signals == 1)
  {
    ReachableOk(c, events, s);
    hide Reaches, StreamOk, PipesSeen, WorldSeen;
    if !s.pipes.done && BothFinished(s.pipes) {
      assert Enabled(c, s, Flow(ReadersDone));
    } else if s.main.pc == Waiting && s.world.child.Running? {
      assert s.main.killed;
    } else {
      NewsStep(c, s);
    }
  }

  lemma NewsStep(c: Config, s: State)
    requires Inv(c, s) && (s.world.deadline || s.world.cancelled) && !s.main.pc.Returned?
    requires s.pipes.done || !BothFinished(s.pipes)
    requires s.main.pc == Waiting ==> !s.world.child.Running?
    ensures exists e :: Internal(e) && Enabled(c, s, e)
  {
    hide Inv, Internal, Enabled, NewsOf;
    NewsIsEnabled(c, s);
  }

  /** Nothing happens any more without news from outside. */
  ghost predicate AtRest(c: Config, s: State) { forall e :: Internal(e) ==> !Enabled(c, s, e) }

  /** `t` is reached from `s` by internal steps. */
  ghost predicate Runs(c: Config, s: State, events: seq<Event>, t: State)
    decreases |events|
  {
    if events == [] then s == t
    else
      var e := events[|events| - 1];
      exists before: State ::
        && Runs(c, s, events[..|events| - 1], before)
        && Internal(e) && Enabled(c, before, e) && t == Step(c, before, e)
  }

  lemma InternalStepKeepsNews(c: Config, s: State, e: Event)
    requires Inv(c, s) && Enabled(c, s, e)
    ensures s.world.deadline ==> Step(c, s, e).world.deadline
    ensures s.world.cancelled ==> Step(c, s, e).world.cancelled
  {
    hide Inv, PipeStep, PipeEnabled;
  }

  /** However the runner goes on by itself, it takes no more steps than there are left, and
      keeps the news it has. */
  lemma {:induction false} RunsAreShort(c: Config, s: State, events: seq<Event>, t: State)
    requires Inv(c, s) && Runs(c, s, events, t)
    ensures |events| + Left(t) <= Left(s) && Inv(c, t)
    ensures (s.world.deadline ==> t.world.deadline) && (s.world.cancelled ==> t.world.cancelled)
    decreases |events|
  {
    hide Inv, Step, Enabled, Internal, Left;
    if events != [] {
      var e := events[|events| - 1];
      var before: State :|
        && Runs(c, s, events[..|events| - 1], before)
        && Internal(e) && Enabled(c, before, e) && t == Step(c, before, e);
      RunsAreShort(c, s, events[..|events| - 1], before);
      InternalStepsDecrease(c, before, e);
      StepKeepsInv(c, before, e);
      InternalStepKeepsNews(c, before, e);
    }
  }

  lemma RunsOn(c: Config, s: State, events: seq<Event>, t: State, e: Event)
    requires Runs(c, s, events, t) && Internal(e) && Enabled(c, t, e)
    ensures Runs(c, s, events + [e], Step(c, t, e))
  {
    hide Internal, Enabled, Step;
    var all := events + [e];
    assert all[..|all| - 1] == events && all[|all| - 1] == e;
  }

  /** From every state the runner comes to rest by itself. */
  lemma {:induction false} ComesToRest(c: Config, s: State, events: seq<Event>, t: State)
    returns (all: seq<Event>, u: State)
    requires Inv(c, s) && Runs(c, s, events, t)
    ensures Runs(c, s, all, u) && AtRest(c, u)
    decreases Left(t)
  {
    hide Inv, Step, Enabled, Internal, Left;
    RunsAreShort(c, s, events, t);
    if AtRest(c, t) {
      all, u := events, t;
    } else {
      var e :| Internal(e) && Enabled(c, t, e);
      InternalStepsDecrease(c, t, e);
      RunsOn(c, s, events, t, e);
      all, u := ComesToRest(c, s, events + [e], Step(c, t, e));
    }
  }

  lemma {:induction false} RunsAreReached(c: Config, before: seq<Event>, s: State, events: seq<Event>, t: State)
    requires Reaches(c, before, s) && Runs(c, s, events, t)
    ensures Reaches(c, before + events, t)
    decreases |events|
  {
    hide Step, Enabled, Internal;
    if events == [] {
      assert before + events == before;
    } else {
      var e, init := events[|events| - 1], events[..|events| - 1];
      var x: State :| Runs(c, s, init, x) && Internal(e) && Enabled(c, x, e) && t == Step(c, x, e);
      RunsAreReached(c, before, s, init, x);
      ReachesOn(c, before + init, x, e);
      assert before + events == before + init + [e];
    }
  }

  lemma ReachesOn(c: Config, events: seq<Event>, s: State, e: Event)
    requires Reaches(c, events, s) && Enabled(c, s, e)
    ensures Reaches(c, events + [e], Step(c, s, e))
  {
    hide Enabled, Step;
    var all := events + [e];
    assert all[..|all| - 1] == events && all[|all| - 1] == e;
  }

  /** A command that hangs is killed: once its deadline has passed or the caller has cancelled,
      the runner comes to rest by itself, after no more steps than there were left; and
      wherever it rests it has returned, or has signalled the group of a child that has not
      exited yet. */
  lemma HungCommandIsSignalled(c: Config, events: seq<Event>, s: State)
    requires Reaches(c, events, s) && (s.world.deadline || s.world.cancelled)
    ensures exists more, t :: Runs(c, s, more, t) && AtRest(c, t)
    ensures forall more, t :: Runs(c, s, more, t) ==> |more| <= Left(s)
    ensures forall more, t :: Runs(c, s, more, t) && AtRest(c, t) ==>
      t.main.pc.Returned? || (t.world.child.Running? && t.main.signals == 1)
  {
    hide Inv, Reaches, Runs, AtRest, Left;
    ReachableOk(c, events, s);
    NoRun(c, s);
    var all, u := ComesToRest(c, s, [], s);
    forall more, t | Runs(c, s, more, t)
      ensures |more| <= Left(s)
      ensures AtRest(c, t) ==> t.main.pc.Returned? || (t.world.child.Running? && t.main.signals == 1)
    {
      RunsAreShort(c, s, more, t);
      RunsAreReached(c, events, s, more, t);
      if AtRest(c, t) && !t.main.pc.Returned? {
        NewsIsActedOn(c, events + more, t);
        RestIsRest(c, t);
      }
    }
  }

  lemma NoRun(c: Config, s: State)
    ensures Runs(c, s, [], s)
  {}

  lemma RestIsRest(c: Config, s: State)
    requires AtRest(c, s)
    ensures !exists e :: Internal(e) && Enabled(c, s, e)
  {
    hide Internal, Enabled;
  }

  /** A command that has completed when its deadline is noticed is not killed: once both
      readers are done and the exit is seen, nothing is ever signalled, and the result is the
      child's own, unless the grace timer had fired as well. */
  lemma {:induction false} CompletedIsNotKilled(c: Config, s: State, events: seq<Event>, t: State)
    requires Inv(c, s) && s.main.pc == Select && s.pipes.done && s.world.exitSeen
    requires Continues(c, s, events, t)
    ensures t.pipes.done && t.world.exitSeen && !t.main.killed && t.main.signals == 0 && Inv(c, t)
    ensures t.main.pc.Returned? ==>
      t.main.pc.result == Exited(t.world.child.code) || (t.main.pc.result == Stuck && t.world.graceFired)
    decreases |events|
  {
    hide Step, Enabled, Inv;
    if events == [] {
      SelectIsUnkilled(c, s);
    } else {
      var e, init := events[|events| - 1], events[..|events| - 1];
      var x: State :| Continues(c, s, init, x) && Enabled(c, x, e) && t == Step(c, x, e);
      CompletedIsNotKilled(c, s, init, x);
      StepKeepsInv(c, x, e);
      CompletedStep(c, x, e);
      CompletedResult(c, t);
    }
  }

  /** `t` comes after `s`, with any news in between. */
  ghost predicate Continues(c: Config, s: State, events: seq<Event>, t: State)
    decreases |events|
  {
    if events == [] then s == t
    else
      var e := events[|events| - 1];
      exists before: State ::
        Continues(c, s, events[..|events| - 1], before) && Enabled(c, before, e) && t == Step(c, before, e)
  }

  lemma SelectIsUnkilled(c: Config, s: State)
    requires Inv(c, s) && s.main.pc == Select
    ensures !s.main.killed && s.main.signals == 0
  {
    hide PipesOk, WorldOk, PipesSeen, WorldSeen;
  }

  lemma CompletedStep(c: Config, s: State, e: Event)
    requires Inv(c, s) && s.pipes.done && s.world.exitSeen && !s.main.killed && Enabled(c, s, e)
    ensures var t := Step(c, s, e); t.pipes.done && t.world.exitSeen && !t.main.killed
  {
    hide PipesOk, WorldOk, WorldSeen, PipesSeen, StreamStep;
  }

  lemma CompletedResult(c: Config, t: State)
    requires Inv(c, t) && !t.main.killed
    ensures t.main.signals == 0
    ensures t.main.pc.Returned? ==>
      t.main.pc.result == Exited(t.world.child.code) || (t.main.pc.result == Stuck && t.world.graceFired)
  {
    hide PipesOk, WorldOk, PipesSeen;
  }

  /** What a step that returns reports: a failed kill; after a signal an interruption if the
      caller has cancelled, and a timeout otherwise; without one that the output is held open
      if it was not read to the end, and the child's exit unless the grace timer fired. */
  lemma ResultIs(c: Config, events: seq<Event>, s: State, e: Event)
    requires Reaches(c, events, s) && Enabled(c, s, e)
    requires !s.main.pc.Returned? && Step(c, s, e).main.pc.Returned?
    ensures var r := Step(c, s, e).main.pc.result;
      if e == Act(Kill(false)) then r == KillFailed
      else if s.main.signals == 1 then r == if s.world.cancelled then Interrupted else TimedOut
      else
        && (r == Stuck || (r.Exited? && s.world.child == Reaped(r.code)))
        && (!AllRead(s.pipes) ==> r == Stuck) && (!s.world.graceFired ==> r.Exited?)
  {
    hide Reaches, PipesOk, WorldOk, StreamStep;
    ReachableOk(c, events, s);
  }

  /** After a signal the readers are given time: what was kept is all that was written, up to
      the limit, unless the timer fired. */
  lemma KilledOutputIsComplete(c: Config, events: seq<Event>, s: State)
    requires Reaches(c, events, s) && Finished(s.main) && !s.world.killTimerFired && !s.world.graceFired
    ensures forall w :: !Get(s.pipes, w).open && Get(s.pipes, w).kept == Kept(Get(s.pipes, w).written, c.limit)
  {
    ReachableOk(c, events, s);
    hide Reaches, Kept, WorldOk, WorldSeen;
    var p := s.pipes;
    assert AllRead(p);
    assert p.out.written[..|p.out.written|] == p.out.written;
    assert p.err.written[..|p.err.written|] == p.err.written;
  }
}
