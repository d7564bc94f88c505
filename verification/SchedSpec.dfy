/** The scheduler as a transition system: which thread runs, and with which registers.

    A step is one interrupt: the frame of the interrupted thread is saved, the kernel does its work, and a context
    is loaded back into the frame. */
module SchedSpec {
  import opened Context

  /** `regs` holds the saved context of every thread ever made; a thread without a process is not in `proc`. */
  datatype State<T, P> = State(queue: seq<T>, stopped: set<T>, current: T, regs: map<T, Registers>, proc: map<T, P>)

  datatype Event<T, P> =
    | Tick(frame: Frame)
    | Call(frame: Frame, result: int)
    | Fork(frame: Frame, child: T, home: P, pid: int)
    | Spawn(frame: Frame, child: T, home: P, start: Registers, result: int)
    | Exit(frame: Frame, residue: int)

  /** sched_init: one kernel thread, queued and current, with a zeroed context. */
  ghost function Boot<T, P>(init: T): State<T, P> {
    State([init], {}, init, map[init := seq(REGISTERS, _ => 0)], map[])
  }

  /** The queue after the stopped threads at its head were dequeued. */
  ghost function Runnable<T>(queue: seq<T>, stopped: set<T>): (r: seq<T>)
    ensures r != [] ==> r[0] !in stopped
  {
    if queue == [] || queue[0] !in stopped then queue else Runnable(queue[1..], stopped)
  }

  /** sched: the first runnable thread becomes current and goes to the end of the queue. With none, the assertion
      in sched stops the machine. */
  ghost function Scheduled<T, P>(s: State<T, P>): State<T, P> {
    var rest := Runnable(s.queue, s.stopped);
    if rest == [] then s.(queue := []) else s.(queue := rest[1..] + [rest[0]], current := rest[0])
  }

  ghost function Loaded<T, P>(s: State<T, P>, regs: Registers): State<T, P> {
    s.(regs := s.regs[s.current := regs])
  }

  /** The context that load_context points to. */
  ghost function Loads<T, P>(s: State<T, P>): Registers {
    if s.current in s.regs then s.regs[s.current] else seq(REGISTERS, _ => 0)
  }

  /** The system call handler's last act: the result goes to the RAX of whichever context is loaded next. */
  ghost function Returned<T, P>(s: State<T, P>, result: int): State<T, P> {
    Loaded(s, Loads(s)[RAX := result])
  }

  ghost function Started<T, P>(s: State<T, P>, child: T, home: P, start: Registers): State<T, P> {
    s.(queue := s.queue + [child], regs := s.regs[child := start], proc := s.proc[child := home])
  }

  /** The threads that belong to the current process. */
  ghost function Mates<T, P>(s: State<T, P>): set<T> {
    set t | t in s.proc && s.current in s.proc && s.proc[t] == s.proc[s.current]
  }

  ghost function Left<T, P>(s: State<T, P>): State<T, P> {
    s.(stopped := s.stopped + Mates(s))
  }

  ghost function Step<T, P>(s: State<T, P>, e: Event<T, P>): State<T, P> {
    var saved := Loaded(s, Regs(e.frame));
    match e
    case Tick(_) => Scheduled(saved)
    case Call(_, result) => Returned(saved, result)
    case Fork(frame, child, home, pid) => Returned(Started(saved, child, home, Regs(frame)[RAX := pid]), 0)
    case Spawn(_, child, home, start, result) => Returned(Started(saved, child, home, start), result)
    case Exit(_, residue) => Returned(Scheduled(Left(saved)), residue)
  }

  /** The frame the interrupt returns through. */
  ghost function Delivered<T, P>(s: State<T, P>, e: Event<T, P>): Frame {
    Restored(e.frame, Loads(Step(s, e)))
  }

  /** The state after all of `es`. */
  ghost function Run<T, P>(s: State<T, P>, es: seq<Event<T, P>>): State<T, P> {
    if es == [] then s else Step(Run(s, es[..|es| - 1]), es[|es| - 1])
  }

  /** What the kernel grants: a new thread in a new process, and a process to leave or to copy (fork and exit read
      through current_proc). */
  ghost predicate Enabled<T, P>(s: State<T, P>, e: Event<T, P>) {
    && (e.Fork? || e.Exit? ==> s.current in s.proc)
    && (e.Fork? || e.Spawn? ==> e.child !in s.regs && e.home !in s.proc.Values)
  }

  ghost predicate Legal<T, P>(s: State<T, P>, es: seq<Event<T, P>>) {
    es == [] || (Legal(s, es[..|es| - 1]) && Enabled(Run(s, es[..|es| - 1]), es[|es| - 1]))
  }

  ghost predicate NoRepeats<T>(queue: seq<T>) {
    forall i, j | 0 <= i < j < |queue| :: queue[i] != queue[j]
  }

  /** What holds in every reachable state: the first thread is queued and belongs to no process, no thread is queued
      twice, the running thread is queued and not stopped, and a thread out of the queue is stopped. */
  ghost predicate Sound<T, P>(s: State<T, P>, init: T) {
    && init in s.queue && init !in s.stopped && init !in s.proc
    && NoRepeats(s.queue)
    && s.current in s.queue && s.current !in s.stopped
    && (forall t | t in s.queue :: t in s.regs)
    && s.stopped <= s.regs.Keys && s.proc.Keys <= s.regs.Keys
    && (forall t | t in s.regs :: t in s.queue || t in s.stopped)
  }

  // ----- The queue -----

  lemma {:induction false} RunnableIsSuffix<T>(queue: seq<T>, stopped: set<T>)
    ensures |Runnable(queue, stopped)| <= |queue|
    ensures queue[|queue| - |Runnable(queue, stopped)|..] == Runnable(queue, stopped)
    ensures forall i | 0 <= i < |queue| - |Runnable(queue, stopped)| :: queue[i] in stopped
  {
    if queue != [] && queue[0] in stopped {
      RunnableIsSuffix(queue[1..], stopped);
    }
  }

  /** Dequeuing stopped threads drops no other thread. */
  lemma {:induction false} RunnableKeeps<T>(queue: seq<T>, stopped: set<T>, t: T)
    requires t in queue && t !in stopped
    ensures t in Runnable(queue, stopped)
  {
    RunnableIsSuffix(queue, stopped);
  }

  /** One thread that is never stopped is enough for sched to find a thread. It keeps every runnable thread and queues
      none twice. */
  lemma SchedKeepsSound<T, P>(s: State<T, P>, init: T)
    requires Sound(s.(current := init), init)
    ensures Runnable(s.queue, s.stopped) != [] && Sound(Scheduled(s), init)
  {
    RunnableKeeps(s.queue, s.stopped, init);
    RunnableIsSuffix(s.queue, s.stopped);
    var rest := Runnable(s.queue, s.stopped);
    var after := Scheduled(s).queue;
    forall t | t in s.queue && t !in s.stopped ensures t in after {
      RunnableKeeps(s.queue, s.stopped, t);
      var i :| 0 <= i < |rest| && rest[i] == t;
      assert after[if i == 0 then |rest| - 1 else i - 1] == t;
    }
    forall t | t in after ensures t in s.queue {
      assert t in rest;
    }
  }

  lemma ScheduledIs<T, P>(s: State<T, P>, next: T, rest: seq<T>)
    requires Runnable(s.queue, s.stopped) == [next] + rest
    ensures Scheduled(s) == s.(queue := rest + [next], current := next)
  {
  }

  lemma StartKeepsSound<T, P>(s: State<T, P>, init: T, child: T, home: P, start: Registers)
    requires Sound(s, init) && child !in s.regs
    ensures Sound(Started(s, child, home, start), init)
  {
  }

  lemma StepKeepsSound<T, P>(s: State<T, P>, e: Event<T, P>, init: T)
    requires Sound(s, init) && Enabled(s, e)
    ensures Sound(Step(s, e), init)
  {
    var saved := Loaded(s, Regs(e.frame));
    match e
    case Tick(_) => SchedKeepsSound(saved, init);
    case Exit(_, _) => SchedKeepsSound(Left(saved), init);
    case _ =>
  }

  lemma BootIsSound<T, P>(init: T)
    ensures Sound(Boot<T, P>(init), init)
  {
  }

  lemma {:induction false} RunIsSound<T, P>(s: State<T, P>, es: seq<Event<T, P>>, init: T)
    requires Sound(s, init) && Legal(s, es)
    ensures Sound(Run(s, es), init)
  {
    if es != [] {
      RunIsSound(s, es[..|es| - 1], init);
      StepKeepsSound(Run(s, es[..|es| - 1]), es[|es| - 1], init);
    }
  }
}
