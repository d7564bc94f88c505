/** What the scheduler guarantees over whole runs: fairness, and registers that survive preemption. */
module SchedRuns {
  import opened Context
  import opened SchedSpec

  // ----- Registers -----

  /** The registers the interrupted thread leaves behind: its own, with the result of a system call in RAX. */
  ghost function Kept<T, P>(e: Event<T, P>): Registers {
    match e
    case Tick(frame) => Regs(frame)
    case Call(frame, result) => Regs(frame)[RAX := result]
    case Fork(frame, _, _, _) => Regs(frame)[RAX := 0]
    case Spawn(frame, _, _, _, result) => Regs(frame)[RAX := result]
    case Exit(frame, _) => Regs(frame)
  }

  /** The registers thread `t` is owed after `es`: those of its last interrupt or, when it never ran, the ones it was
      made with, which for a forked thread are its parent's with the process id in RAX. */
  ghost function Owed<T, P>(s: State<T, P>, es: seq<Event<T, P>>, t: T): Registers {
    if es == [] then Loads(s.(current := t))
    else
      var before, e := es[..|es| - 1], es[|es| - 1];
      if t == Run(s, before).current then Kept(e)
      else if e.Fork? && t == e.child then Regs(e.frame)[RAX := e.pid]
      else if e.Spawn? && t == e.child then e.start
      else Owed(s, before, t)
  }

  /** The handler writes exit's leftover RAX into the context of whichever thread is next. */
  ghost function Due<T, P>(e: Event<T, P>, owed: Registers): Registers {
    if e.Exit? then owed[RAX := e.residue] else owed
  }

  /** Of the threads that are not running, a step writes only the context of the one that exit hands over to. */
  lemma StepWrites<T, P>(s: State<T, P>, e: Event<T, P>, t: T)
    requires t in s.regs && t != s.current && Enabled(s, e)
    ensures Loads(Step(s, e).(current := t)) ==
            if t == Step(s, e).current then Due(e, s.regs[t]) else s.regs[t]
  {
  }

  /** A thread that a step adds is the new one. */
  lemma StepMakes<T, P>(s: State<T, P>, e: Event<T, P>, init: T, t: T)
    requires Sound(s, init) && Enabled(s, e)
    requires t in Step(s, e).regs && t !in s.regs
    ensures t != Step(s, e).current
    ensures (e.Fork? || e.Spawn?) && t == e.child
    ensures Step(s, e).regs[t] == if e.Fork? then Regs(e.frame)[RAX := e.pid] else e.start
  {
    var saved := Loaded(s, Regs(e.frame));
    match e
    case Tick(_) =>
    case Exit(_, _) => SchedKeepsSound(Left(saved), init);
    case _ =>
  }

  /** The interrupted thread's own context. */
  lemma StepSaves<T, P>(s: State<T, P>, e: Event<T, P>)
    requires Enabled(s, e) && s.current in s.regs
    ensures Loads(Step(s, e).(current := s.current)) ==
            if s.current == Step(s, e).current then Due(e, Kept(e)) else Kept(e)
  {
  }

  /** In every reachable state the context of a thread that is not running is the one it is owed. */
  lemma {:induction false} ContextIsOwed<T, P>(s: State<T, P>, es: seq<Event<T, P>>, init: T, t: T)
    requires Sound(s, init) && Legal(s, es)
    requires t in Run(s, es).regs && t != Run(s, es).current
    ensures Run(s, es).regs[t] == Owed(s, es, t)
  {
    if es != [] {
      var prior, e := es[..|es| - 1], es[|es| - 1];
      var before := Run(s, prior);
      RunIsSound(s, prior, init);
      if t == before.current {
        StepSaves(before, e);
      } else if t in before.regs {
        StepWrites(before, e, t);
        ContextIsOwed(s, prior, init, t);
      } else {
        StepMakes(before, e, init, t);
      }
    }
  }

  /** After any run, the next interrupt returns to the thread it picks with exactly the registers that thread is owed,
      and the rest of the frame as it was; only exit puts its leftover RAX there instead. */
  lemma {:induction false} ResumesWhereItStopped<T, P>(s: State<T, P>, es: seq<Event<T, P>>, e: Event<T, P>, init: T)
    requires Sound(s, init) && Legal(s, es) && Enabled(Run(s, es), e)
    ensures Delivered(Run(s, es), e) == Restored(e.frame, Due(e, Owed(s, es + [e], Step(Run(s, es), e).current)))
  {
    var all := es + [e];
    assert all[..|all| - 1] == es;
    var before, after := Run(s, es), Step(Run(s, es), e);
    RunIsSound(s, es, init);
    StepKeepsSound(before, e, init);
    if after.current == before.current {
      StepSaves(before, e);
    } else {
      if after.current !in before.regs {
        StepMakes(before, e, init, after.current);
      }
      StepWrites(before, e, after.current);
      ContextIsOwed(s, es, init, after.current);
    }
  }

  /** The thread that an interrupt resumes gets exactly what it is owed unless the interrupt was exit and the leftover
      is not the thread's own RAX. */
  lemma ExitDisturbs<T, P>(s: State<T, P>, es: seq<Event<T, P>>, e: Event<T, P>, init: T)
    requires Sound(s, init) && Legal(s, es) && Enabled(Run(s, es), e)
    ensures Regs(Delivered(Run(s, es), e)) == Owed(s, es + [e], Step(Run(s, es), e).current) <==>
            e.Exit? ==> e.residue == Owed(s, es + [e], Step(Run(s, es), e).current)[RAX]
  {
    ResumesWhereItStopped(s, es, e, init);
    var owed := Owed(s, es + [e], Step(Run(s, es), e).current);
    LoadInvertsSave(e.frame, Due(e, owed));
    assert e.Exit? && Due(e, owed) == owed ==> owed[RAX] == e.residue;
  }

  // ----- In terms of the processor's registers -----

  /** What the interrupted thread's registers become while it does not run. */
  ghost function KeptCpu<T, P>(e: Event<T, P>): Cpu {
    match e
    case Tick(frame) => Popped(frame)
    case Call(frame, result) => Popped(frame).(rax := result)
    case Fork(frame, _, _, _) => Popped(frame).(rax := 0)
    case Spawn(frame, _, _, _, result) => Popped(frame).(rax := result)
    case Exit(frame, _) => Popped(frame)
  }

  /** The registers that thread `t` was interrupted with last, or was made with. */
  ghost function OwedCpu<T, P>(s: State<T, P>, es: seq<Event<T, P>>, t: T): Cpu {
    if es == [] then Fields(Loads(s.(current := t)))
    else
      var before, e := es[..|es| - 1], es[|es| - 1];
      if t == Run(s, before).current then KeptCpu(e)
      else if e.Fork? && t == e.child then Popped(e.frame).(rax := e.pid)
      else if e.Spawn? && t == e.child then Fields(e.start)
      else OwedCpu(s, before, t)
  }

  lemma KeptFields<T, P>(e: Event<T, P>)
    ensures Fields(Kept(e)) == KeptCpu(e)
  {
    SavedFields(e.frame);
  }

  lemma {:induction false} OwedFields<T, P>(s: State<T, P>, es: seq<Event<T, P>>, t: T)
    ensures Fields(Owed(s, es, t)) == OwedCpu(s, es, t)
  {
    if es != [] {
      var e := es[|es| - 1];
      KeptFields(e);
      SavedFields(e.frame);
      OwedFields(s, es[..|es| - 1], t);
    }
  }

  /** After any run, the next interrupt leaves on the stack exactly what makes the processor go on with the registers
      that the chosen thread had when it was interrupted last: from RAX to GS where context_load pops them, its own
      return address, and RIP, CS, RFLAGS, RSP and SS where iretq pops them. Only exit's leftover replaces the RAX. */
  lemma ResumesCpu<T, P>(s: State<T, P>, es: seq<Event<T, P>>, e: Event<T, P>, init: T)
    requires Sound(s, init) && Legal(s, es) && Enabled(Run(s, es), e)
    ensures var owed := OwedCpu(s, es + [e], Step(Run(s, es), e).current);
            Delivered(Run(s, es), e) ==
              Stack(if e.Exit? then owed.(rax := e.residue) else owed, e.frame[17], e.frame[23..])
  {
    var owed := Owed(s, es + [e], Step(Run(s, es), e).current);
    ResumesWhereItStopped(s, es, e, init);
    OwedFields(s, es + [e], Step(Run(s, es), e).current);
    LoadedFields(e.frame, Due(e, owed));
  }

  ghost function Still(): Frame { seq(FRAME, _ => 0) }

  ghost function Zero(): Registers { seq(REGISTERS, _ => 0) }

  /** The queue and the running thread of a machine with two threads, whose registers are all zero. */
  ghost function Pair(queue: seq<int>, current: int): State<int, int> {
    State(queue, {}, current, map[0 := Zero(), 1 := Zero()], map[1 := 9])
  }

  lemma PairStarts()
    ensures Step(Boot<int, int>(0), Spawn(Still(), 1, 9, Zero(), 0)) == Pair([0, 1], 0)
  {
    assert Regs(Still()) == Zero() && Zero()[RAX := 0] == Zero();
  }

  lemma PairTicks(a: int, b: int, current: int)
    requires (current == 0 || current == 1) && (a == 0 || a == 1) && (b == 0 || b == 1)
    ensures Step(Pair([a, b], current), Tick(Still())) == Pair([b, a], a)
  {
    assert Regs(Still()) == Zero();
    assert [a, b][1..] + [a] == [b, a];
    assert map[0 := Zero(), 1 := Zero()][current := Zero()] == map[0 := Zero(), 1 := Zero()];
  }

  /** From boot: a thread is started, and two ticks bring it in. */
  ghost function Entering(): seq<Event<int, int>> {
    [Spawn(Still(), 1, 9, Zero(), 0), Tick(Still()), Tick(Still())]
  }

  /** The events one after the other. */
  lemma EnteringParts()
    ensures var es := Entering();
      && es[..3] == es && es[..3][..2] == es[..2] && es[..2][..1] == es[..1] && es[..1][..0] == []
  {
  }

  lemma EnteringStates()
    ensures var s, es := Boot<int, int>(0), Entering();
      Run(s, es[..1]) == Pair([0, 1], 0) && Run(s, es[..2]) == Pair([1, 0], 0) && Run(s, es) == Pair([0, 1], 1)
  {
    EnteringParts();
    PairStarts();
    PairTicks(0, 1, 0);
    PairTicks(1, 0, 0);
  }

  lemma Entered()
    ensures Legal(Boot<int, int>(0), Entering()) && Run(Boot<int, int>(0), Entering()) == Pair([0, 1], 1)
    ensures Owed(Boot<int, int>(0), Entering(), 0) == Zero()
  {
    var s, es := Boot<int, int>(0), Entering();
    EnteringParts();
    EnteringStates();
    assert Enabled(s, es[0]) && Legal(s, es[..1]) && Legal(s, es[..2]);
    assert Regs(Still()) == Zero();
  }

  /** When that thread then exits with 7 left in RAX, the first thread, interrupted with 0 there, is resumed with 7. */
  lemma ExitLeavesSeven()
    ensures var s, es, e := Boot<int, int>(0), Entering(), Exit(Still(), 7);
      && Legal(s, es) && Enabled(Run(s, es), e) && Step(Run(s, es), e).current == 0
      && Owed(s, es + [e], 0)[RAX] == 0 && Regs(Delivered(Run(s, es), e))[RAX] == 7
  {
    var s, es, e := Boot<int, int>(0), Entering(), Exit(Still(), 7);
    Entered();
    BootIsSound<int, int>(0);
    assert (es + [e])[..3] == es && (es + [e])[3] == e;
    assert Mates(Loaded(Pair([0, 1], 1), Zero())) == {1};
    ResumesWhereItStopped(s, es, e, 0);
    LoadInvertsSave(e.frame, Due(e, Owed(s, es + [e], 0)));
  }

  /** The child of a fork is owed its parent's registers at the call, except that RAX holds the new process id; the
      parent goes on with RAX 0. */
  lemma ForkReturnsTwice<T, P>(s: State<T, P>, es: seq<Event<T, P>>, e: Event<T, P>, init: T)
    requires Sound(s, init) && Legal(s, es) && Enabled(Run(s, es), e) && e.Fork?
    ensures Owed(s, es + [e], e.child) == Regs(e.frame)[RAX := e.pid]
    ensures Regs(Delivered(Run(s, es), e)) == Regs(e.frame)[RAX := 0]
    ensures Step(Run(s, es), e).queue == Run(s, es).queue + [e.child]
    ensures Step(Run(s, es), e).current == Run(s, es).current
  {
    var all := es + [e];
    assert all[..|all| - 1] == es;
    RunIsSound(s, es, init);
    ResumesWhereItStopped(s, es, e, init);
    LoadInvertsSave(e.frame, Regs(e.frame)[RAX := 0]);
  }

  // ----- Fairness -----

  ghost predicate Schedules<T, P>(e: Event<T, P>) { e.Tick? || e.Exit? }

  /** How often sched ran. */
  ghost function Scheds<T, P>(es: seq<Event<T, P>>): nat {
    if es == [] then 0 else Scheds(es[..|es| - 1]) + (if Schedules(es[|es| - 1]) then 1 else 0)
  }

  /** Only exit stops threads: those of the process that leaves, and never the first thread. */
  lemma StepStops<T, P>(s: State<T, P>, e: Event<T, P>, init: T)
    requires Sound(s, init) && Enabled(s, e)
    ensures Step(s, e).stopped == s.stopped + (if e.Exit? then Mates(s) else {})
    ensures Step(s, e).current !in Step(s, e).stopped
    ensures init !in Step(s, e).stopped
  {
    StepKeepsSound(s, e, init);
  }

  /** A stopped thread stays stopped, and never runs again. */
  lemma {:induction false} StoppedForever<T, P>(s: State<T, P>, es: seq<Event<T, P>>, init: T, t: T)
    requires Sound(s, init) && Legal(s, es)
    requires t in s.stopped
    ensures t in Run(s, es).stopped && Run(s, es).current != t
  {
    if es != [] {
      StoppedForever(s, es[..|es| - 1], init, t);
      RunIsSound(s, es[..|es| - 1], init);
      StepStops(Run(s, es[..|es| - 1]), es[|es| - 1], init);
    }
  }

  /** Thread `t` stands at place `i` of the queue. */
  ghost predicate Stands<T, P>(s: State<T, P>, t: T, i: nat) {
    i < |s.queue| && s.queue[i] == t
  }

  /** Each call of sched either picks a runnable thread or moves it towards the head. */
  lemma SchedMoves<T, P>(s: State<T, P>, t: T, i: nat) returns (j: nat)
    requires Stands(s, t, i) && t !in s.stopped
    ensures Scheduled(s).current == t || (j < i && Stands(Scheduled(s), t, j))
    ensures j <= i
  {
    RunnableIsSuffix(s.queue, s.stopped);
    var rest := Runnable(s.queue, s.stopped);
    var gone := |s.queue| - |rest|;
    assert rest[i - gone] == t;
    j := if i > gone then i - gone - 1 else 0;
  }

  /** One event: `t` is chosen, or is nearer to the head when sched ran and no further when it did not. */
  lemma StepMoves<T, P>(s: State<T, P>, e: Event<T, P>, t: T, i: nat) returns (j: nat)
    requires Stands(s, t, i) && t !in Step(s, e).stopped && t !in s.stopped
    ensures (Schedules(e) && Step(s, e).current == t) || Stands(Step(s, e), t, j)
    ensures j <= i && (Schedules(e) ==> j < i || Step(s, e).current == t)
  {
    var saved := Loaded(s, Regs(e.frame));
    j := i;
    match e
    case Tick(_) => j := SchedMoves(saved, t, i);
    case Exit(_, _) => j := SchedMoves(Left(saved), t, i);
    case _ =>
  }

  /** The `k`th event of `es` called sched, and sched chose `t`. */
  ghost predicate ChosenAt<T, P>(s: State<T, P>, es: seq<Event<T, P>>, t: T, k: nat) {
    0 < k <= |es| && Schedules(es[k - 1]) && Run(s, es[..k]).current == t
  }

  lemma RunStops<T, P>(s: State<T, P>, es: seq<Event<T, P>>, init: T)
    requires Sound(s, init) && Legal(s, es) && es != []
    ensures Run(s, es[..|es| - 1]).stopped <= Run(s, es).stopped
  {
  }

  /** Until `t` is chosen, each call of sched brings it one place nearer to the head. */
  lemma {:induction false} WaitShrinks<T, P>(s: State<T, P>, es: seq<Event<T, P>>, init: T, t: T, p: nat)
    returns (k: nat, i: nat)
    requires Sound(s, init) && Legal(s, es)
    requires Stands(s, t, p) && t !in Run(s, es).stopped
    ensures k == 0 ==> Stands(Run(s, es), t, i) && i + Scheds(es) <= p
    ensures k > 0 ==> ChosenAt(s, es, t, k)
  {
    k, i := 0, p;
    if es != [] {
      var prior, e := es[..|es| - 1], es[|es| - 1];
      RunStops(s, es, init);
      k, i := WaitShrinks(s, prior, init, t, p);
      if k > 0 {
        assert prior[..k] == es[..k];
      } else {
        i := StepMoves(Run(s, prior), e, t, i);
        if Schedules(e) && Run(s, es).current == t {
          assert es[..|es|] == es;
          k := |es|;
        }
      }
    }
  }

  /** Whatever forks, exits and system calls come between, a thread at place `p` of the queue that is not stopped
      meanwhile is chosen within `p + 1` calls of sched. */
  lemma BoundedWait<T, P>(s: State<T, P>, es: seq<Event<T, P>>, init: T, t: T, p: nat)
    requires Sound(s, init) && Legal(s, es)
    requires Stands(s, t, p) && t !in Run(s, es).stopped && Scheds(es) > p
    ensures exists k :: ChosenAt(s, es, t, k)
  {
    var k, i := WaitShrinks(s, es, init, t, p);
    assert k > 0;
  }
}
