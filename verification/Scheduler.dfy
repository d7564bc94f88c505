/** proc/sched.c, proc/fork.c, proc/exit.c, arch/x86/context.c and the interrupt handlers.

    Threads and processes are known by the addresses of their structures; a context is known by its thread. */
module Scheduling {
  import opened Context
  import opened Queues
  import opened SchedSpec

  const NULL := 0
  const STOPPED := -1

  class Kernel {
    const queue: Queue<int>
    ghost const init: int
    // thread_t; a thread whose proc is NULL is not in `proc`
    var contexts: map<int, Registers>
    var status: map<int, int>
    var proc: map<int, int>
    // proc_t
    var threads: map<int, seq<int>>
    // the globals of sched.c and context.c
    var currentThread: int
    var currentProc: int
    var saveContext: int
    var loadContext: int

    ghost function Stopped(): set<int>
      reads this
    {
      set t | t in status && status[t] == STOPPED
    }

    ghost function Now(): State<int, int>
      reads this, queue
    {
      State(queue.nodes, Stopped(), currentThread, contexts, proc)
    }

    /** A process lists exactly the threads that point to it. */
    ghost predicate Attached()
      reads this
    {
      && (forall t | t in proc :: proc[t] != NULL && proc[t] in threads && t in threads[proc[t]])
      && (forall p, t | p in threads && t in threads[p] :: t in proc && proc[t] == p)
    }

    ghost predicate Formed()
      reads this, queue, queue.list, queue.list.ram
    {
      queue.Valid() && status.Keys == contexts.Keys && Attached()
    }

    /** The global pointers all belong to the current thread. */
    ghost predicate Pointed()
      reads this
    {
      && currentThread in contexts && saveContext == loadContext == currentThread
      && currentProc == if currentThread in proc then proc[currentThread] else NULL
    }

    ghost predicate Valid()
      reads this, queue, queue.list, queue.list.ram
    {
      Formed() && Pointed() && Sound(Now(), init)
    }

    /** sched_init; `readyQueue` is the address of the queue's list head. */
    constructor (initialKernelThread: int, readyQueue: int)
      ensures Valid() && init == initialKernelThread && Now() == Boot(init)
      ensures fresh(queue) && fresh(queue.list) && fresh(queue.list.ram)
    {
      queue := new Queue(readyQueue);
      init := initialKernelThread;
      contexts := map[initialKernelThread := seq(REGISTERS, _ => 0)];
      status := map[initialKernelThread := 0];
      proc, threads := map[], map[];
      currentThread, currentProc := initialKernelThread, NULL;
      saveContext, loadContext := initialKernelThread, initialKernelThread;
      new;
      queue.Enqueue(initialKernelThread);
      BootIsSound<int, int>(init);
      assert Now() == Boot(init);
    }

    /** sched: the search always ends at a runnable thread, so the assertion in it cannot fail. */
    method Sched()
      requires Formed() && Sound(Now().(current := init), init)
      modifies this`currentThread, this`currentProc, this`saveContext, this`loadContext
      modifies queue, queue.list, queue.list.ram
      ensures Runnable(old(Now()).queue, old(Now()).stopped) != []
      ensures Valid() && Now() == Scheduled(old(Now()))
    {
      ghost var s := Now();
      SchedKeepsSound(s, init);
      Switch();
      ScheduledIs(s, currentThread, queue.nodes[..|queue.nodes| - 1]);
      assert Now() == Scheduled(s);
    }

    /** What sched does to the queue and to the pointers. */
    method Switch()
      requires Formed() && Runnable(queue.nodes, Stopped()) != [] && forall t | t in queue.nodes :: t in status
      modifies this`currentThread, this`currentProc, this`saveContext, this`loadContext
      modifies queue, queue.list, queue.list.ram
      ensures Formed() && |queue.nodes| > 0 && queue.nodes[|queue.nodes| - 1] == currentThread
      ensures [currentThread] + queue.nodes[..|queue.nodes| - 1] == Runnable(old(queue.nodes), Stopped())
      ensures Pointed()
    {
      var loadThread := TakeRunnable();
      loadContext := loadThread;
      saveContext := loadThread;
      queue.Enqueue(loadThread);
      currentThread := loadThread;
      currentProc := if loadThread in proc then proc[loadThread] else NULL;
    }

    /** The loop in sched: threads marked stopped are dequeued and dropped. */
    method TakeRunnable() returns (loadThread: int)
      requires queue.Valid() && Runnable(queue.nodes, Stopped()) != []
      requires forall t | t in queue.nodes :: t in status
      modifies queue, queue.list, queue.list.ram
      ensures queue.Valid() && loadThread in status
      ensures [loadThread] + queue.nodes == Runnable(old(queue.nodes), Stopped())
    {
      loadThread := Take();
      while status[loadThread] == STOPPED
        invariant queue.Valid()
        invariant forall t | t in [loadThread] + queue.nodes :: t in status
        invariant Runnable([loadThread] + queue.nodes, Stopped()) == Runnable(old(queue.nodes), Stopped())
        decreases |queue.nodes|
      {
        assert ([loadThread] + queue.nodes)[1..] == queue.nodes;
        loadThread := Take();
      }
    }

    /** queue_dequeue, and the assertion in sched that it found a thread. */
    method Take() returns (loadThread: int)
      requires queue.Valid() && queue.nodes != []
      modifies queue, queue.list, queue.list.ram
      ensures queue.Valid() && [loadThread] + queue.nodes == old(queue.nodes)
    {
      var taken := queue.Dequeue();
      assert taken.Some?;
      loadThread := taken.value;
    }

    // ----- System calls -----

    /** fork: a copy of the running thread, in a process of its own, is queued. Its saved context is its parent's with
        the process id in RAX. */
    method Fork(newThread: int, newProc: int, pid: int)
      requires Valid() && newThread !in contexts && newProc !in threads && newProc != NULL && currentThread in proc
      modifies this`contexts, this`status, this`proc, this`threads, queue, queue.list, queue.list.ram
      ensures Valid() && Now() == Started(old(Now()), newThread, newProc, Loads(old(Now()))[RAX := pid])
    {
      ghost var s := Now();
      StartKeepsSound(s, init, newThread, newProc, Loads(s)[RAX := pid]);
      Copy(newThread, newProc, pid);
      assert Now() == Started(s, newThread, newProc, Loads(s)[RAX := pid]);
    }

    /** What fork does to the thread and process structures and to the queue. */
    method Copy(newThread: int, newProc: int, pid: int)
      requires Formed() && Pointed() && currentThread !in Stopped()
      requires newThread !in contexts && newThread !in proc && newProc !in threads && newProc != NULL
      modifies this`contexts, this`status, this`proc, this`threads, queue, queue.list, queue.list.ram
      ensures Formed() && Pointed() && queue.nodes == old(queue.nodes) + [newThread] && Stopped() == old(Stopped())
      ensures contexts == old(contexts)[newThread := old(contexts)[currentThread][RAX := pid]]
      ensures proc == old(proc)[newThread := newProc]
    {
      Dup(newThread);
      Attach(newThread, newProc);
      queue.Enqueue(newThread);
      contexts := contexts[newThread := contexts[newThread][RAX := pid]];
    }

    /** thread_dup */
    method Dup(newThread: int)
      requires currentThread in contexts && status.Keys == contexts.Keys && newThread !in contexts
      requires currentThread !in Stopped()
      modifies this`contexts, this`status
      ensures contexts == old(contexts)[newThread := old(contexts)[currentThread]]
      ensures status.Keys == contexts.Keys && Stopped() == old(Stopped())
    {
      contexts := contexts[newThread := contexts[currentThread]];
      status := status[newThread := status[currentThread]];
    }

    /** proc_init and thread_attach: a process and its first thread. */
    method Attach(thread: int, home: int)
      requires Attached() && thread !in proc && home !in threads && home != NULL
      modifies this`proc, this`threads
      ensures Attached() && proc == old(proc)[thread := home] && threads.Keys == old(threads).Keys + {home}
    {
      threads := threads[home := []];
      proc := proc[thread := home];
      threads := threads[home := threads[home] + [thread]];
    }

    /** exec from a thread without a process: a new thread in a new process is queued, its context that of
        thread_init. */
    method Exec(newThread: int, newProc: int)
      requires Valid() && newThread !in contexts && newProc !in threads && newProc != NULL && currentThread !in proc
      modifies this`contexts, this`status, this`proc, this`threads, queue, queue.list, queue.list.ram
      ensures Valid() && Now() == Started(old(Now()), newThread, newProc, UserStart(0, 4096))
    {
      ghost var s := Now();
      StartKeepsSound(s, init, newThread, newProc, UserStart(0, 4096));
      InitThread(newThread, newProc);
      assert Now() == Started(s, newThread, newProc, UserStart(0, 4096));
    }

    /** proc_init, thread_init and queue_enqueue. */
    method InitThread(newThread: int, newProc: int)
      requires Formed() && Pointed()
      requires newThread !in contexts && newThread !in proc && newProc !in threads && newProc != NULL
      modifies this`contexts, this`status, this`proc, this`threads, queue, queue.list, queue.list.ram
      ensures Formed() && Pointed() && queue.nodes == old(queue.nodes) + [newThread] && Stopped() == old(Stopped())
      ensures contexts == old(contexts)[newThread := UserStart(0, 4096)]
      ensures proc == old(proc)[newThread := newProc]
    {
      contexts := contexts[newThread := UserStart(0, 4096)];
      status := status[newThread := 0];
      Attach(newThread, newProc);
      queue.Enqueue(newThread);
    }

    /** exit: every thread of the running process is marked stopped, and another thread is chosen. */
    method Exit()
      requires Valid() && currentThread in proc
      modifies this`status, this`currentThread, this`currentProc, this`saveContext, this`loadContext
      modifies queue, queue.list, queue.list.ram
      ensures Valid() && Now() == Scheduled(Left(old(Now())))
    {
      ghost var s := Now();
      MatesAreListed();
      MarkStopped(threads[currentProc]);
      assert Now() == Left(s);
      Sched();
    }

    lemma MatesAreListed()
      requires Valid() && currentThread in proc
      ensures currentProc in threads && Mates(Now()) == Elements(threads[currentProc])
      ensures init !in Mates(Now()) && Mates(Now()) <= contexts.Keys
    {
      ghost var listed, mates := Elements(threads[currentProc]), Mates(Now());
      assert forall t | t in listed :: t in mates;
      assert forall t | t in mates :: t in listed;
      assert forall t | t in mates :: t in contexts;
    }

    /** The loop over the thread list in exit. */
    method MarkStopped(list: seq<int>)
      requires Elements(list) <= status.Keys
      modifies this`status
      ensures status.Keys == old(status.Keys)
      ensures Stopped() == old(Stopped()) + Elements(list)
    {
      for i := 0 to |list|
        invariant status.Keys == old(status.Keys)
        invariant Stopped() == old(Stopped()) + Elements(list[..i])
      {
        assert list[..i + 1] == list[..i] + [list[i]];
        assert list[i] in Elements(list) && Elements(list[..i + 1]) == Elements(list[..i]) + {list[i]};
        ghost var before := Stopped();
        status := status[list[i] := STOPPED];
        assert Stopped() == before + {list[i]};
      }
      assert list[..|list|] == list;
    }

    // ----- The interrupt handlers -----

    /** __context_save: the frame is copied, word by word, into the context that save_context points to. */
    method ContextSave(stackTop: array<int>)
      requires saveContext in contexts && stackTop.Length >= FRAME
      modifies this`contexts
      ensures contexts == old(contexts)[saveContext := Regs(stackTop[..])]
    {
      var from, to := 0, 0;
      for i := 0 to REGISTERS + 1
        invariant from == i && to == (if i <= RETURN_SLOT then i else i - 1)
        invariant saveContext in contexts && contexts == old(contexts)[saveContext := contexts[saveContext]]
        invariant forall k | 0 <= k < to :: contexts[saveContext][k] == Regs(stackTop[..])[k]
      {
        if i == RETURN_SLOT {
          from := from + 1;
        } else {
          contexts := contexts[saveContext := contexts[saveContext][to := stackTop[from]]];
          to, from := to + 1, from + 1;
        }
      }
      assert contexts[saveContext] == Regs(stackTop[..]);
    }

    /** __context_load: the context that load_context points to is copied into the frame, around its return address. */
    method ContextLoad(stackTop: array<int>)
      requires loadContext in contexts && stackTop.Length >= FRAME
      modifies stackTop
      ensures stackTop[..] == Restored(old(stackTop[..]), contexts[loadContext])
    {
      var from, to := 0, 0;
      for i := 0 to REGISTERS + 1
        invariant to == i && from == (if i <= RETURN_SLOT then i else i - 1)
        invariant forall k | 0 <= k < to :: stackTop[k] == Restored(old(stackTop[..]), contexts[loadContext])[k]
        invariant forall k | to <= k < stackTop.Length :: stackTop[k] == old(stackTop[k])
      {
        if i == RETURN_SLOT {
          to := to + 1;
        } else {
          stackTop[to] := contexts[loadContext][from];
          to, from := to + 1, from + 1;
        }
      }
    }

    /** context_save in a handler: the frame goes to the context of the running thread. */
    method Enter(stackTop: array<int>)
      requires Valid() && stackTop.Length >= FRAME
      modifies this`contexts
      ensures Valid() && Now() == Loaded(old(Now()), Regs(stackTop[..]))
    {
      ContextSave(stackTop);
      assert Now() == Loaded(old(Now()), Regs(stackTop[..]));
    }

    /** The end of syscall_handler: the result goes to the RAX of the context to load, which is then loaded. */
    method Leave(stackTop: array<int>, result: int)
      requires Valid() && stackTop.Length >= FRAME
      modifies this`contexts, stackTop
      ensures Valid() && Now() == Returned(old(Now()), result)
      ensures stackTop[..] == Restored(old(stackTop[..]), Loads(Now()))
    {
      contexts := contexts[loadContext := contexts[loadContext][RAX := result]];
      assert Now() == Returned(old(Now()), result);
      ContextLoad(stackTop);
    }

    /** context_load in a handler: the context of the running thread goes into the frame. */
    method Resume(stackTop: array<int>)
      requires Valid() && stackTop.Length >= FRAME
      modifies stackTop
      ensures Valid() && Now() == old(Now()) && stackTop[..] == Restored(old(stackTop[..]), Loads(Now()))
    {
      ContextLoad(stackTop);
    }

    /** systick_handler */
    method Systick(stackTop: array<int>)
      requires Valid() && stackTop.Length >= FRAME
      modifies this, queue, queue.list, queue.list.ram, stackTop
      ensures Valid() && Now() == Step(old(Now()), Tick(old(stackTop[..])))
      ensures stackTop[..] == Delivered(old(Now()), Tick(old(stackTop[..])))
      ensures old(currentThread) in contexts && Fields(contexts[old(currentThread)]) == Popped(old(stackTop[..]))
      ensures Resumed(old(stackTop[..]), stackTop[..], Fields(contexts[currentThread]))
    {
      ghost var s, frame := Now(), stackTop[..];
      Enter(stackTop);
      Sched();
      Resume(stackTop);
      assert Now() == Step(s, Tick(frame)) && stackTop[..] == Delivered(s, Tick(frame));
      TickParts(s, frame);
    }

    /** syscall_handler for a call that only computes a result. */
    method SyscallPlain(stackTop: array<int>, result: int)
      requires Valid() && stackTop.Length >= FRAME
      modifies this, queue, queue.list, queue.list.ram, stackTop
      ensures Valid() && Now() == Step(old(Now()), Call(old(stackTop[..]), result))
      ensures stackTop[..] == Delivered(old(Now()), Call(old(stackTop[..]), result))
      ensures Resumed(old(stackTop[..]), stackTop[..], Popped(old(stackTop[..])).(rax := result))
    {
      CallParts(Now(), stackTop[..], result);
      Enter(stackTop);
      Leave(stackTop, result);
    }

    /** syscall_handler for fork, which returns 0. */
    method SyscallFork(stackTop: array<int>, newThread: int, newProc: int, pid: int)
      requires Valid() && stackTop.Length >= FRAME && newThread !in contexts && newProc !in threads && newProc != NULL
      requires currentThread in proc
      modifies this, queue, queue.list, queue.list.ram, stackTop
      ensures Valid() && Now() == Step(old(Now()), SchedSpec.Fork(old(stackTop[..]), newThread, newProc, pid))
      ensures stackTop[..] == Delivered(old(Now()), SchedSpec.Fork(old(stackTop[..]), newThread, newProc, pid))
      ensures Resumed(old(stackTop[..]), stackTop[..], Popped(old(stackTop[..])).(rax := 0))
      ensures newThread in contexts && Fields(contexts[newThread]) == Popped(old(stackTop[..])).(rax := pid)
    {
      ForkParts(Now(), stackTop[..], newThread, newProc, pid);
      Enter(stackTop);
      Fork(newThread, newProc, pid);
      Leave(stackTop, 0);
    }

    /** syscall_handler for exec without a process, whose leftover RAX is returned. */
    method SyscallExec(stackTop: array<int>, newThread: int, newProc: int, residue: int)
      requires Valid() && stackTop.Length >= FRAME && newThread !in contexts && newProc !in threads && newProc != NULL
      requires currentThread !in proc
      modifies this, queue, queue.list, queue.list.ram, stackTop
      ensures Valid() && Now() == Step(old(Now()), FirstSpawn(old(stackTop[..]), newThread, newProc, residue))
      ensures stackTop[..] == Delivered(old(Now()), FirstSpawn(old(stackTop[..]), newThread, newProc, residue))
      ensures Resumed(old(stackTop[..]), stackTop[..], Popped(old(stackTop[..])).(rax := residue))
      ensures newThread in contexts && StartsAt(Fields(contexts[newThread]), 0, 4096)
    {
      ghost var s, frame := Now(), stackTop[..];
      Enter(stackTop);
      Exec(newThread, newProc);
      Leave(stackTop, residue);
      ghost var e := FirstSpawn(frame, newThread, newProc, residue);
      assert Now() == Step(s, e) && stackTop[..] == Delivered(s, e);
      ExecParts(s, frame, newThread, newProc, residue);
    }

    /** syscall_handler for exit: sched has moved load_context by the time the leftover RAX is stored through it. */
    method SyscallExit(stackTop: array<int>, residue: int)
      requires Valid() && stackTop.Length >= FRAME && currentThread in proc
      modifies this, queue, queue.list, queue.list.ram, stackTop
      ensures Valid() && Now() == Step(old(Now()), SchedSpec.Exit(old(stackTop[..]), residue))
      ensures stackTop[..] == Delivered(old(Now()), SchedSpec.Exit(old(stackTop[..]), residue))
      ensures currentThread in old(contexts) && currentThread != old(currentThread)
      ensures Resumed(old(stackTop[..]), stackTop[..], Fields(old(contexts)[currentThread]).(rax := residue))
    {
      ghost var s, frame := Now(), stackTop[..];
      Enter(stackTop);
      Exit();
      Leave(stackTop, residue);
      assert Now() == Step(s, SchedSpec.Exit(frame, residue));
      ExitParts(s, frame, residue, init);
    }
  }

  /** The stack `after` makes context_load and iretq go on with the registers `cpu`; the rest is that of `before`. */
  ghost predicate Resumed(before: Frame, after: Frame, cpu: Cpu) {
    after == Stack(cpu, before[17], before[23..])
  }

  /** A tick saves the registers of the interrupted thread, and resumes with those of the one it picks. */
  lemma TickParts(s: State<int, int>, frame: Frame)
    requires s.current in s.regs
    ensures var next := Step(s, Tick(frame));
      && Fields(next.regs[s.current]) == Popped(frame)
      && Resumed(frame, Delivered(s, Tick(frame)), Fields(Loads(next)))
  {
    SavedFields(frame);
    LoadedFields(frame, Loads(Step(s, Tick(frame))));
  }

  /** A system call returns to its caller with the result in RAX and every other register as it was. */
  lemma CallParts(s: State<int, int>, frame: Frame, result: int)
    ensures Resumed(frame, Delivered(s, Call(frame, result)), Popped(frame).(rax := result))
  {
    SavedFields(frame);
    LoadedFields(frame, Regs(frame)[RAX := result]);
  }

  lemma ForkParts(s: State<int, int>, frame: Frame, child: int, home: int, pid: int)
    requires s.current in s.regs && child !in s.regs
    ensures var e := SchedSpec.Fork(frame, child, home, pid);
      && Resumed(frame, Delivered(s, e), Popped(frame).(rax := 0))
      && child in Step(s, e).regs && Fields(Step(s, e).regs[child]) == Popped(frame).(rax := pid)
  {
    SavedFields(frame);
    LoadedFields(frame, Regs(frame)[RAX := 0]);
  }

  lemma ExecParts(s: State<int, int>, frame: Frame, child: int, home: int, residue: int)
    requires s.current in s.regs && child !in s.regs
    ensures var e := FirstSpawn(frame, child, home, residue);
      && Resumed(frame, Delivered(s, e), Popped(frame).(rax := residue))
      && child in Step(s, e).regs && StartsAt(Fields(Step(s, e).regs[child]), 0, 4096)
  {
    SavedFields(frame);
    LoadedFields(frame, Regs(frame)[RAX := residue]);
  }

  /** Exit resumes another thread, whose registers are as they were but for RAX. */
  lemma ExitParts(s: State<int, int>, frame: Frame, residue: int, init: int)
    requires Sound(s, init) && s.current in s.proc
    ensures var e := SchedSpec.Exit(frame, residue); var t := Step(s, e).current;
      && t in s.regs && t != s.current
      && Resumed(frame, Delivered(s, e), Fields(s.regs[t]).(rax := residue))
  {
    var e := SchedSpec.Exit(frame, residue);
    var t := Step(s, e).current;
    SchedKeepsSound(Left(Loaded(s, Regs(frame))), init);
    LoadedFields(frame, s.regs[t][RAX := residue]);
  }

  /** A new thread of a process: in user mode with interrupts on, at its entry point and with its stack, and with all
      general registers zero. */
  ghost predicate StartsAt(cpu: Cpu, entrypoint: int, stackTop: int) {
    cpu == Cpu(0, 0, 0, 0, 0, 0, 0, 0, 0, 0, 0, 0, 0, 0, 0, 0x8, 0x8, entrypoint, 0x43, 0x200, stackTop, 0x23)
  }

  /** The context thread_init gives to a thread of a process: everything zero but the fields it sets. */
  function UserStart(entrypoint: int, stackTop: int): Registers {
    seq(15, _ => 0) + [0x8, 0x8, entrypoint, 0x43, 0x200, stackTop, 0x23]
  }

  /** exec from a thread without a process, as an event. */
  ghost function FirstSpawn(frame: Frame, thread: int, home: int, residue: int): Event<int, int> {
    Spawn(frame, thread, home, UserStart(0, 4096), residue)
  }

  ghost function Elements(list: seq<int>): set<int> {
    set t | t in list
  }
}
