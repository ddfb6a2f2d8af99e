/** Nested blocking launches: a child runs until it exits, and only then does its parent resume. */
module Scheduler {
  import opened Bytes
  import opened Registers

  const MAX_PROCESSES: nat := 8

  datatype ProcessState = ProcessEmpty | ProcessNew | ProcessReady | ProcessRunning | ProcessExited

  datatype ThreadState = ThreadEmpty | ThreadNew | ThreadReady | ThreadRunning | ThreadBlocked | ThreadExited

  datatype Process = Process(pid: nat, state: ProcessState, thread: ThreadState, regs: Registers, space: nat)

  const NO_REGISTERS: Registers := Registers(0, 0, 0, 0, 0, 0, 0, 0, 0, 0, 0, 0, 0, 0, 0, 0, 0, 0)

  const NO_PROCESS: Process := Process(0, ProcessEmpty, ThreadEmpty, NO_REGISTERS, 0)

  /** A slot of the process table, or the null pointer. */
  datatype Ref = Null | Slot(i: nat)

  /** A suspended parent and the registers it resumes with. */
  datatype Run = Run(parent: Ref, regs: Registers)

  const NO_RUN: Run := Run(Null, NO_REGISTERS)

  /** A program image ready to run. */
  datatype Image = NotLoaded | Loaded(space: nat, entry: word, stack: word)

  /** How a call into the scheduler ends. */
  datatype Outcome = Resume(frame: TrapFrame) | EnterUser(rip: word, rsp: word) | BackToKernel | Panic

  /** The registers a suspended parent is stored with: its result is still to come. */
  function Pending(regs: Registers): Registers {
    regs.(rax := 0)
  }

  // ---------- the machine, abstractly ----------

  /** A suspended task: its slot, and the registers it trapped with. */
  datatype Suspended = Suspended(slot: nat, regs: Registers)

  datatype View = Idle | Prepared(slot: nat) | Running(slot: nat, parents: seq<Suspended>)

  /** The slots that hold a live task: the parents, oldest first, then the current one. */
  function LiveSlots(v: View): seq<nat> {
    match v
    case Idle => []
    case Prepared(slot) => [slot]
    case Running(slot, parents) => seq(|parents|, k requires 0 <= k < |parents| => parents[k].slot) + [slot]
  }

  ghost predicate Distinct(s: seq<nat>) {
    (forall i :: 0 <= i < |s| ==> s[i] < MAX_PROCESSES) && forall i, j :: 0 <= i < j < |s| ==> s[i] != s[j]
  }

  /** Different slots fit into the table only so often. */
  lemma {:induction false} Pigeonhole(s: seq<nat>, bound: nat)
    requires (forall i :: 0 <= i < |s| ==> s[i] < bound) && forall i, j :: 0 <= i < j < |s| ==> s[i] != s[j]
    ensures |s| <= bound
    decreases bound
  {
    if |s| > 0 {
      assert s[0] < bound;
      if k :| 0 <= k < |s| && s[k] == bound - 1 {
        var rest := s[..k] + s[k + 1..];
        assert forall i :: 0 <= i < |rest| ==> rest[i] == if i < k then s[i] else s[i + 1];
        Pigeonhole(rest, bound - 1);
      } else {
        Pigeonhole(s, bound - 1);
      }
    }
  }

  datatype Event = Start(child: nat, regs: Registers) | Finish(status: word)

  /** What the two system calls do to a running machine. */
  function After(v: View, e: Event): View {
    if !v.Running? then v
    else
      match e
      case Start(child, regs) => Running(child, v.parents + [Suspended(v.slot, regs)])
      case Finish(_) =>
        if v.parents == [] then Idle
        else Running(v.parents[|v.parents| - 1].slot, v.parents[..|v.parents| - 1])
  }

  function AfterAll(v: View, es: seq<Event>): View
    decreases |es|
  {
    if es == [] then v else AfterAll(After(v, es[0]), es[1..])
  }

  /** What a task and its descendants do: it starts a child, the child does what it does and exits, and so on. */
  datatype Session = Quiet | Launch(child: nat, regs: Registers, inner: Session, status: word, rest: Session)

  function Events(s: Session): seq<Event> {
    match s
    case Quiet => []
    case Launch(child, regs, inner, status, rest) => [Start(child, regs)] + Events(inner) + [Finish(status)] + Events(rest)
  }

  lemma {:induction false} AfterConcat(v: View, a: seq<Event>, b: seq<Event>)
    ensures AfterAll(v, a + b) == AfterAll(AfterAll(v, a), b)
    decreases |a|
  {
    if a == [] {
      assert a + b == b;
    } else {
      assert (a + b)[1..] == a[1..] + b;
      AfterConcat(After(v, a[0]), a[1..], b);
    }
  }

  lemma AfterOne(v: View, e: Event)
    ensures AfterAll(v, [e]) == After(v, e)
  {
    assert [e][1..] == [];
  }

  /** However deep its children nest, a task runs again in the end, above the same parents with the same registers. */
  lemma {:induction false} SessionReturns(v: View, s: Session)
    requires v.Running?
    ensures AfterAll(v, Events(s)) == v
    decreases s
  {
    match s
    case Quiet =>
    case Launch(child, regs, inner, status, rest) =>
      var v1 := After(v, Start(child, regs));
      AfterOne(v, Start(child, regs));
      SessionReturns(v1, inner);
      AfterOne(v1, Finish(status));
      AfterConcat(v, [Start(child, regs)], Events(inner));
      AfterConcat(v, [Start(child, regs)] + Events(inner), [Finish(status)]);
      AfterConcat(v, [Start(child, regs)] + Events(inner) + [Finish(status)], Events(rest));
      SessionReturns(v, rest);
  }

  // ---------- the machine ----------

  class Machine {
    const processes: array<Process>
    var nextPid: nat
    var current: Ref
    var returnContext: bool
    var initialized: bool
    var preemptive: bool
    var ticks: nat
    var preemptions: nat
    var launches: nat
    var exits: nat
    var lastStatus: word
    const runs: array<Run>
    var depth: nat
    var space: nat
    ghost var view: View

    /** Slot `i` holds a task in this condition. */
    ghost predicate InState(i: nat, s: ProcessState, t: ThreadState)
      reads processes
    {
      i < processes.Length && processes[i].state == s && processes[i].thread == t
    }

    /** The stack of blocking runs holds exactly the suspended parents. */
    ghost predicate StackMatches(parents: seq<Suspended>)
      reads this, processes, runs
    {
      && depth == |parents| <= runs.Length
      && forall k :: 0 <= k < |parents| ==>
           && runs[k] == Run(Slot(parents[k].slot), Pending(parents[k].regs))
           && InState(parents[k].slot, ProcessReady, ThreadBlocked)
    }

    /** No process id was handed out twice, and every process that was ever loaded has one. */
    ghost predicate PidsOk()
      reads `nextPid, processes
    {
      && 0 < nextPid
      && (forall i :: 0 <= i < processes.Length ==> processes[i].pid < nextPid)
      && (forall i :: 0 <= i < processes.Length && processes[i].state != ProcessEmpty ==> processes[i].pid != 0)
      && (forall i, j :: 0 <= i < j < processes.Length && processes[i].pid == processes[j].pid ==> processes[i].pid == 0)
    }

    /** What happens to a task once it is loaded changes no process id. */
    twostate lemma PidsStay()
      requires old(PidsOk()) && nextPid == old(nextPid)
      requires forall k :: 0 <= k < processes.Length ==>
                 processes[k].pid == old(processes[k].pid) && (processes[k].state == ProcessEmpty <==> old(processes[k].state) == ProcessEmpty)
      ensures PidsOk()
    {
    }

    lemma TopOfStack(parents: seq<Suspended>)
      requires StackMatches(parents)
      ensures depth == |parents| <= runs.Length
      ensures depth > 0 ==>
                var parent := parents[depth - 1];
                && runs[depth - 1] == Run(Slot(parent.slot), Pending(parent.regs))
                && InState(parent.slot, ProcessReady, ThreadBlocked)
    {
    }

    /** Without its last run the stack still matches the parents before. */
    twostate lemma StackBelow(parents: seq<Suspended>)
      requires parents != [] && old(StackMatches(parents)) && depth == |parents| - 1
      requires forall k :: 0 <= k < depth ==>
                 && runs[k] == old(runs[k]) && parents[k].slot < processes.Length
                 && processes[parents[k].slot] == old(processes[parents[k].slot])
      ensures StackMatches(parents[..depth])
    {
      forall k | 0 <= k < depth ensures InState(parents[k].slot, ProcessReady, ThreadBlocked) {
        assert old(InState(parents[k].slot, ProcessReady, ThreadBlocked));
      }
    }

    ghost predicate Valid()
      reads this, processes, runs
    {
      && processes.Length == runs.Length == MAX_PROCESSES && initialized && Distinct(LiveSlots(view)) && PidsOk()
      && match view
         case Idle => current == Null && depth == 0 && launches == exits
         case Prepared(slot) =>
           current == Slot(slot) && depth == 0 && launches == exits && returnContext && InState(slot, ProcessReady, ThreadReady)
         case Running(slot, parents) =>
           && current == Slot(slot) && InState(slot, ProcessRunning, ThreadRunning) && StackMatches(parents) && returnContext
           && launches == exits + depth + 1 && space == processes[slot].space
    }

    /** The depth panic of the scheduler is out of reach: at most seven parents wait at any time. */
    lemma DepthBound()
      requires Valid()
      ensures depth <= MAX_PROCESSES - 1
    {
      if view.Running? {
        Pigeonhole(LiveSlots(view), MAX_PROCESSES);
      }
    }

    /** Different live tasks have different process ids. */
    lemma PidsApart(i: nat, j: nat)
      requires Valid() && i in LiveSlots(view) && j in LiveSlots(view) && i != j
      ensures i < processes.Length && j < processes.Length
      ensures processes[i].pid != processes[j].pid && processes[i].pid != 0
    {
      if view.Running? {
        forall k | 0 <= k < |view.parents| ensures InState(view.parents[k].slot, ProcessReady, ThreadBlocked) {
          assert runs[k] == Run(Slot(view.parents[k].slot), Pending(view.parents[k].regs));
        }
      }
    }

    /** scheduler_init and process_table_init. */
    constructor ()
      ensures Valid() && view == Idle && fresh(processes) && fresh(runs) && launches == 0
    {
      processes := new Process[MAX_PROCESSES](_ => NO_PROCESS);
      runs := new Run[MAX_PROCESSES](_ => NO_RUN);
      nextPid, current, returnContext, initialized, preemptive := 1, Null, false, true, true;
      ticks, preemptions, launches, exits, lastStatus, depth, space := 0, 0, 0, 0, 0, 0, 0;
      view := Idle;
    }

    /** process_load_user_image_bytes and what its callers do when it fails; `image` is what loading yields. */
    method LoadProcess(i: nat, image: Image) returns (ok: bool)
      requires i < processes.Length && PidsOk()
      modifies `nextPid, processes
      ensures ok <==> image.Loaded?
      ensures PidsOk() && nextPid == old(nextPid) + 1 && (ok ==> processes[i].pid == old(nextPid))
      ensures forall k :: 0 <= k < processes.Length && k != i ==> processes[k] == old(processes[k])
      ensures ok ==>
                && InState(i, ProcessReady, ThreadReady) && processes[i].space == image.space
                && processes[i].regs.rip == image.entry && processes[i].regs.rsp == image.stack
      ensures !ok ==> processes[i].state == ProcessEmpty
    {
      var pid := nextPid;
      nextPid := nextPid + 1;
      if image.NotLoaded? {
        processes[i] := processes[i].(state := ProcessEmpty);
        return false;
      }
      var regs := NO_REGISTERS.(rip := image.entry, rsp := image.stack, rflags := 0x202);
      processes[i] := Process(pid, ProcessReady, ThreadReady, regs, image.space);
      return true;
    }

    predicate Vacant(i: nat)
      requires i < processes.Length
      reads processes
    {
      processes[i].state == ProcessEmpty || processes[i].state == ProcessExited
    }

    predicate HasVacancy()
      requires processes.Length == MAX_PROCESSES
      reads processes
    {
      exists k :: 1 <= k < MAX_PROCESSES && Vacant(k)
    }

    /** The slot search of process_create_filesystem_process: the first vacant one, but never slot 0. */
    method VacantSlot() returns (i: nat)
      requires processes.Length == MAX_PROCESSES
      ensures 1 <= i <= MAX_PROCESSES && (i < MAX_PROCESSES ==> Vacant(i)) && (i < MAX_PROCESSES <==> HasVacancy())
      ensures forall k :: 1 <= k < i ==> !Vacant(k)
    {
      i := 1;
      while i < MAX_PROCESSES && !Vacant(i)
        invariant 1 <= i <= MAX_PROCESSES && forall k :: 1 <= k < i ==> !Vacant(k)
      {
        i := i + 1;
      }
    }

    /** process_create_filesystem_process: a child never gets the slot of a live task. */
    method CreateProcess(image: Image) returns (slot: Ref)
      requires Valid() && view.Running?
      modifies `nextPid, processes
      ensures slot.Slot? <==> image.Loaded? && old(HasVacancy())
      ensures Valid()
      ensures slot.Slot? ==>
                && slot.i !in LiveSlots(view) && InState(slot.i, ProcessReady, ThreadReady)
                && processes[slot.i].space == image.space && processes[slot.i].pid == old(nextPid)
                && (forall k :: 0 <= k < processes.Length ==> old(processes[k].pid) != processes[slot.i].pid)
                && processes[slot.i].regs.rip == image.entry && processes[slot.i].regs.rsp == image.stack
    {
      var i := VacantSlot();
      if i == MAX_PROCESSES {
        return Null;
      }
      NotLive(i);
      var ok := LoadProcess(i, image);
      return if ok then Slot(i) else Null;
    }

    /** A vacant slot holds no live task. */
    lemma NotLive(i: nat)
      requires Valid() && i < processes.Length && Vacant(i)
      ensures i !in LiveSlots(view)
    {
      if view.Running? {
        assert InState(view.slot, ProcessRunning, ThreadRunning);
        forall k | 0 <= k < |view.parents| ensures view.parents[k].slot != i {
          assert InState(view.parents[k].slot, ProcessReady, ThreadBlocked);
        }
      }
    }

    method PrepareLaunch(slot: Ref, returnContext: bool) returns (ok: bool)
      requires Valid() && view.Idle? && (slot.Slot? ==> slot.i < MAX_PROCESSES)
      modifies `current, `returnContext, `view
      ensures Valid()
      ensures ok <==> slot.Slot? && returnContext && InState(slot.i, ProcessReady, ThreadReady)
      ensures view == if ok then Prepared(slot.i) else Idle
    {
      if !initialized || slot == Null || !returnContext || processes[slot.i].state != ProcessReady
         || processes[slot.i].thread != ThreadReady {
        return false;
      }
      current, this.returnContext := slot, returnContext;
      view := Prepared(slot.i);
      return true;
    }

    method EnterCurrent() returns (out: Outcome)
      requires current.Slot? ==> current.i < processes.Length
      modifies `launches, `space, processes
      ensures current == Null || !returnContext <==> out == Panic
      ensures out != Panic ==>
                && launches == old(launches) + 1 && space == processes[current.i].space
                && processes[current.i] == old(processes[current.i]).(state := ProcessRunning, thread := ThreadRunning)
                && (forall k :: 0 <= k < processes.Length && k != current.i ==> processes[k] == old(processes[k]))
                && out == EnterUser(processes[current.i].regs.rip, processes[current.i].regs.rsp)
    {
      if current == Null || !returnContext {
        return Panic;
      }
      launches := launches + 1;
      processes[current.i] := processes[current.i].(state := ProcessRunning, thread := ThreadRunning);
      space := processes[current.i].space;
      return EnterUser(processes[current.i].regs.rip, processes[current.i].regs.rsp);
    }

    /** userspace_launch_init: from the kernel, into slot 0. */
    method LaunchInit(image: Image) returns (out: Outcome)
      requires Valid() && view.Idle? && (InState(0, ProcessReady, ThreadReady) || processes[0].state == ProcessExited)
      modifies this, processes
      ensures out != Panic ==> Valid() && view == Running(0, []) && out.EnterUser?
      ensures out == Panic <==> old(processes[0].state) == ProcessExited && image.NotLoaded?
      ensures out != Panic ==>
                if old(processes[0].state) == ProcessExited
                then image.Loaded? && out == EnterUser(image.entry, image.stack) && space == image.space
                else out == EnterUser(old(processes[0]).regs.rip, old(processes[0]).regs.rsp) && space == old(processes[0]).space
    {
      if processes[0].state == ProcessExited {
        var ok := LoadProcess(0, image);
        if !ok {
          return Panic;
        }
      }
      var prepared := PrepareLaunch(Slot(0), true);
      label loaded:
      hide PidsOk;
      out := EnterCurrent();
      PidsStay@loaded();
      view := Running(0, []);
    }

    /** scheduler_run_process_blocking: never panics on a process just created. */
    method RunBlocking(slot: Ref, ghost f: TrapFrame, frame: SyscallFrame) returns (out: Outcome)
      requires Valid() && view.Running? && frame == SyscallOf(f)
      requires slot.Slot? && slot.i !in LiveSlots(view) && InState(slot.i, ProcessReady, ThreadReady)
      modifies this, processes, runs
      ensures Valid() && view == After(old(view), Start(slot.i, f.regs))
      ensures out == EnterUser(old(processes[slot.i]).regs.rip, old(processes[slot.i]).regs.rsp)
      ensures space == old(processes[slot.i]).space && exits == old(exits)
    {
      DepthBound();
      if !initialized || current == Null || slot == Null || processes[slot.i].state != ProcessReady
         || processes[slot.i].thread != ThreadReady || depth >= MAX_PROCESSES {
        assert false;
        return Panic;
      }
      var parent := current;
      ghost var v := view;
      MoreLive(v, slot.i, f.regs);
      SlotsApart(v);
      SlotsApart(After(v, Start(slot.i, f.regs)));
      hide LiveSlots, Distinct, PidsOk;
      processes[parent.i] := processes[parent.i].(state := ProcessReady, thread := ThreadBlocked);
      runs[depth] := Run(parent, RegistersOf(frame));
      depth := depth + 1;
      current := slot;
      out := EnterCurrent();
      PidsStay();
      view := After(v, Start(slot.i, f.regs));
    }

    /** scheduler_finish_blocking_exit: the parent started last resumes, with the registers it was suspended with. */
    method FinishBlockingExit(status: word, frame: SyscallFrame) returns (ok: bool, frame': SyscallFrame)
      requires Valid() && view.Running?
      modifies this, processes, runs
      ensures Valid() && (ok <==> old(view).parents != [])
      ensures !ok ==> view == old(view) && frame' == frame
      ensures ok ==>
                && view == After(old(view), Finish(status)) && lastStatus == status && exits == old(exits) + 1
                && launches == old(launches) && InState(old(view).slot, ProcessExited, ThreadExited)
                && frame' == WithRegisters(frame, Pending(old(view).parents[|old(view).parents| - 1].regs))
    {
      hide LiveSlots, Distinct, PidsOk, StackMatches, Pending, WithRegisters;
      ghost var v := view;
      TopOfStack(v.parents);
      if depth == 0 {
        return false, frame;
      }
      LessLive(v);
      SlotsApart(v);
      depth := depth - 1;
      var run := runs[depth];
      runs[depth] := NO_RUN;
      if run.parent == Null {
        assert false;
        return false, frame;
      }
      if current != Null {
        processes[current.i] := processes[current.i].(state := ProcessExited, thread := ThreadExited);
      }
      exits, lastStatus, current := exits + 1, status, run.parent;
      processes[current.i] := processes[current.i].(state := ProcessRunning, thread := ThreadRunning);
      PidsStay();
      space := processes[current.i].space;
      view := After(v, Finish(status));
      StackBelow(v.parents);
      return true, WithRegisters(frame, run.regs);
    }

    /** scheduler_exit_current: back to whoever launched the first task. */
    method ExitCurrent(status: word) returns (out: Outcome)
      requires Valid() && view.Running? && view.parents == []
      modifies this, processes
      ensures Valid() && view == Idle && out == BackToKernel && lastStatus == status && launches == old(launches)
      ensures InState(old(view).slot, ProcessExited, ThreadExited)
    {
      hide PidsOk;
      if current != Null {
        processes[current.i] := processes[current.i].(state := ProcessExited, thread := ThreadExited);
      }
      PidsStay();
      exits, lastStatus, current, space := exits + 1, status, Null, 0;
      view := Idle;
      return if returnContext then BackToKernel else Panic;
    }

    /** A timer tick saves the registers of the task it interrupts, and does nothing else. */
    method Tick(f: TrapFrame)
      requires Valid()
      modifies `ticks, `preemptions, processes
      ensures Valid() && ticks == old(ticks) + 1
      ensures forall k :: 0 <= k < processes.Length ==>
                processes[k] == if current == Slot(k) && preemptive && f.cs % 4 == 3
                                then old(processes[k]).(regs := f.regs) else old(processes[k])
    {
      ticks := ticks + 1;
      if !preemptive || current == Null || f.cs % 4 != 3 {
        return;
      }
      hide PidsOk;
      processes[current.i] := processes[current.i].(regs := f.regs);
      PidsStay();
      preemptions := preemptions + 1;
    }

    /** exception_dispatch for a system call. `pathOk` and `image` are what the file system yields for a path to run,
        `other` what any other call returns. */
    method Dispatch(f: TrapFrame, pathOk: bool, image: Image, other: word) returns (out: Outcome)
      requires Valid() && view.Running?
      modifies this, processes, runs
      ensures Valid() && out != Panic
      ensures f.regs.rax == SYSCALL_EXIT ==>
                && view == After(old(view), Finish(f.regs.rdi)) && lastStatus == f.regs.rdi
                && out == (if old(view).parents == [] then BackToKernel
                           else Resume(f.(regs := old(view).parents[|old(view).parents| - 1].regs.(rax := f.regs.rdi))))
      ensures f.regs.rax == SYSCALL_APP_RUN ==>
                if pathOk && image.Loaded? && old(HasVacancy()) then
                  && out == EnterUser(image.entry, image.stack) && space == image.space
                  && view.Running? && view.slot !in LiveSlots(old(view)) && view == After(old(view), Start(view.slot, f.regs))
                else view == old(view) && out == Resume(f.(regs := f.regs.(rax := if pathOk then ERR_INVAL else ERR_FAULT)))
      ensures f.regs.rax != SYSCALL_EXIT && f.regs.rax != SYSCALL_APP_RUN ==>
                view == old(view) && out == Resume(f.(regs := f.regs.(rax := other)))
    {
      var s := SyscallOf(f);
      if s.number == SYSCALL_EXIT {
        var ok;
        ok, s := FinishBlockingExit(s.arg0, s);
        if ok {
          out := Resume(BackToTrap(f, s, f.regs.rdi));
        } else {
          out := ExitCurrent(s.arg0);
        }
      } else if s.number == SYSCALL_APP_RUN {
        if !pathOk {
          return Resume(BackToTrap(f, s, ERR_FAULT));
        }
        var slot := CreateProcess(image);
        if slot == Null {
          return Resume(BackToTrap(f, s, ERR_INVAL));
        }
        out := RunBlocking(slot, f, s);
      } else {
        out := Resume(BackToTrap(f, s, other));
      }
    }
  }

  const SYSCALL_EXIT: word := 2
  const SYSCALL_APP_RUN: word := 27
  const ERR_FAULT: word := TWO_64 - 2
  const ERR_INVAL: word := TWO_64 - 3

  /** A new slot joins the live ones. */
  lemma MoreLive(v: View, child: nat, regs: Registers)
    requires v.Running? && Distinct(LiveSlots(v)) && child !in LiveSlots(v) && child < MAX_PROCESSES
    ensures Distinct(LiveSlots(After(v, Start(child, regs))))
    ensures v.slot in LiveSlots(v)
  {
    assert LiveSlots(After(v, Start(child, regs))) == LiveSlots(v) + [child];
    assert LiveSlots(v)[|v.parents|] == v.slot;
  }

  /** The last one leaves. */
  lemma LessLive(v: View)
    requires v.Running? && Distinct(LiveSlots(v)) && v.parents != []
    ensures Distinct(LiveSlots(After(v, Finish(0))))
    ensures LiveSlots(v) == LiveSlots(After(v, Finish(0))) + [v.slot]
  {
    assert LiveSlots(v) == LiveSlots(After(v, Finish(0))) + [v.slot];
    assert LiveSlots(After(v, Finish(0))) == LiveSlots(v)[..|v.parents|];
  }

  /** The current task and its parents sit in different slots. */
  lemma SlotsApart(v: View)
    requires v.Running? && Distinct(LiveSlots(v))
    ensures v.slot < MAX_PROCESSES && forall k :: 0 <= k < |v.parents| ==> v.parents[k].slot != v.slot
    ensures forall k :: 0 <= k < |v.parents| ==> v.parents[k].slot < MAX_PROCESSES
    ensures forall j, k :: 0 <= j < k < |v.parents| ==> v.parents[j].slot != v.parents[k].slot
  {
    var s := LiveSlots(v);
    assert s[|v.parents|] == v.slot;
    assert forall k :: 0 <= k < |v.parents| ==> s[k] == v.parents[k].slot;
  }
}
