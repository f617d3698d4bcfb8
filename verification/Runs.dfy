/** Whole runs of the scheduler: from the first task on, over any sequence of timer ticks,
    system calls and lines typed, the invariant holds, and a task that waits for another
    is woken by the exit of its child alone. */
module Runs {

  import opened Lists
  import opened Tasks
  import opened Scheduling

  /** What can happen: the timer, a call of the actual task, or a line typed. */
  datatype Event = Tick | Exits(status: int) | WaitsFor(pid: nat) | Reads | Enter | Forks

  /** An event goes its way, is none that the actual task can cause now, or halts the kernel. */
  datatype Verdict = Went | Impossible | Halted

  /** The actual task can cause the event: it runs, and has no children when it exits. */
  ghost predicate Possible(s: Scheduler, e: Event)
    reads s`actual, s.actual`state, s.actual`kids
  {
    e.Tick? || e.Enter? || (s.actual.state == Running && (e.Exits? ==> s.actual.kids == []))
  }

  /** The kernel halts: the last task that could run has ended and nobody waits for it, a line
      is typed while nobody reads, or the task numbers are used up. */
  ghost predicate Halts(s: Scheduler, e: Event)
    reads s, s.osQ`tasks, s.userQ`tasks, s.actual`state, s.actual`kids, s.actual.parent
  {
    match e
    case Exits(_) => Possible(s, e) && !s.Awaited(s.actual) && |s.osQ.tasks| + |s.userQ.tasks| == 1
    case Enter => s.reader == null
    case Forks => Possible(s, e) && s.oldTid == s.MAX_TID
    case _ => false
  }

  /** u sleeps in waitpid. */
  ghost predicate Awaits(s: Scheduler, u: Task)
    reads s`reader, s.sleepQ`tasks, u`wait4
  {
    u in s.sleepQ.tasks && u.wait4 != null && u != s.reader
  }

  /** The task that exits is the child u waits for. */
  ghost predicate EndsWait(s: Scheduler, e: Event, u: Task)
    reads s`actual, s.actual`state, s.actual`kids, u`wait4
  {
    e.Exits? && Possible(s, e) && u.wait4 == s.actual && s.actual.parent == u
  }

  /** Of the tasks that slept in waitpid, the event has woken exactly those whose child, t,
      ended; they have heard of it. */
  twostate predicate WokenRight(s: Scheduler, e: Event, t: Task, asleep: seq<Task>)
    reads s, s.osQ, s.userQ, s.sleepQ, asleep, t
  {
    forall u {:trigger u in s.sleepQ.tasks} {:trigger u in asleep} :: u in asleep && old(Awaits(s, u)) ==>
      && (u !in s.sleepQ.tasks <==> old(EndsWait(s, e, u)))
      && (u !in s.sleepQ.tasks ==> s.Heard(u, t))
  }

  /** While a task of the high priority is the actual one, the low-priority queue loses nobody
      and keeps its turn; when it gets the processor back, that turn is taken. */
  twostate predicate TurnKept(s: Scheduler)
    reads s`actual, s`nextToRun, s.userQ`tasks
  {
    old(s.actual).priority == Os ==>
      && old(s.userQ.tasks) <= s.userQ.tasks
      && if s.actual.priority == Os then s.nextToRun == old(s.nextToRun)
         else s.userQ.tasks != [] && s.actual == if old(s.nextToRun) != null then old(s.nextToRun) else s.userQ.tasks[0]
  }

  /** What the dispatcher says of queues and turn is that. */
  lemma HeadKeepsTurn(s: Scheduler, kept: Task?)
    requires s.Valid() && s.HeadRuns(kept) && (kept != null ==> kept in s.userQ.tasks)
    ensures if s.actual.priority == Os then s.nextToRun == kept
            else s.userQ.tasks != [] && s.actual == if kept != null then kept else s.userQ.tasks[0]
  {
    HeadIn(s.osQ.tasks);
    HeadIn(s.userQ.tasks);
  }

  lemma KeptIsQueued(s: Scheduler)
    requires s.Valid()
    ensures s.nextToRun != null ==> s.nextToRun in s.userQ.tasks
    ensures s.Runnable(s.actual) && s.actual.priority == Os ==> s.actual in s.osQ.tasks
  {
  }

  lemma RunningIsQueued(s: Scheduler)
    requires s.Valid() && s.actual in s.alive && s.actual.state == Running
    ensures s.Runnable(s.actual) && (s.actual.kids == [] <==> s.actual.firstChild == null)
  {
    assert s.Family(s.actual);
  }

  /** Exactly the parent of an awaited task waits for it. */
  lemma AwaitedBy(s: Scheduler, t: Task)
    requires s.Valid() && t in s.alive && t == s.actual && s.Runnable(t)
    ensures s.Awaited(t) ==> t.parent in s.alive && t.parent.wait4 == t && t.parent in s.sleepQ.tasks
    ensures t.parent != null && t.parent.wait4 == t ==> s.Awaited(t)
    ensures Distinct(s.sleepQ.tasks)
  {
    assert s.ParentOk(t);
    if t.parent != null && t.parent in s.alive { assert s.WaitOk(t.parent); }
  }

  method Exit(s: Scheduler, status: int) returns (r: Verdict)
    requires s.Valid() && s.actual in s.alive && s.actual.state == Running && s.actual.kids == []
    modifies s, s.osQ, s.userQ, s.sleepQ, s.osQ.tasks, s.userQ.tasks, s.sleepQ.tasks, s.alive, s.kernelTask
    ensures r == if old(Halts(s, Exits(status))) then Halted else Went
    ensures r == Went ==> s.Valid() && s.Up() && s.alive <= old(s.alive) && WokenRight(s, Exits(status), old(s.actual), old(s.sleepQ.tasks))
    ensures r == Went ==> TurnKept(s)
  {
    hide s.Valid, s.Heard, Minus, s.HeadRuns;
    KeptIsQueued(s);
    ghost var t, parent, asleep := s.actual, s.actual.parent, s.sleepQ.tasks;
    RunningIsQueued(s);
    AwaitedBy(s, t);
    if parent != null && parent in asleep { MinusOf(asleep, parent); }
    var o := s.DoExit(s.actual, status);
    r := if o == EndOfTasks then Halted else Went;
    if r == Went && t.priority == Os { HeadKeepsTurn(s, old(s.nextToRun)); }
  }

  method Wait(s: Scheduler, pid: nat)
    requires s.Valid() && s.actual in s.alive && s.actual.state == Running
    modifies s, s.osQ, s.userQ, s.sleepQ, s.osQ.tasks, s.userQ.tasks, s.sleepQ.tasks, s.alive
    ensures s.Valid() && s.actual in s.alive && s.alive <= old(s.alive)
    ensures WokenRight(s, WaitsFor(pid), old(s.actual), old(s.sleepQ.tasks)) && TurnKept(s)
  {
    hide s.Valid, s.Heard, s.HeadRuns;
    RunningIsQueued(s);
    KeptIsQueued(s);
    ghost var t := s.actual;
    var r := s.DoWaitpid(s.actual, pid);
    if s.actual != t && t.priority == Os { HeadKeepsTurn(s, old(s.nextToRun)); }
  }

  method Read(s: Scheduler)
    requires s.Valid() && s.actual in s.alive && s.actual.state == Running
    modifies s, s.osQ, s.userQ, s.sleepQ, s.osQ.tasks, s.userQ.tasks, s.sleepQ.tasks, s.alive
    ensures s.Valid() && s.actual in s.alive && s.alive <= old(s.alive)
    ensures WokenRight(s, Reads, old(s.actual), old(s.sleepQ.tasks)) && TurnKept(s)
  {
    hide s.Valid, s.Heard, s.HeadRuns;
    RunningIsQueued(s);
    KeptIsQueued(s);
    ghost var t := s.actual;
    var r := s.StdinRead();
    if r == Switched && t.priority == Os { HeadKeepsTurn(s, old(s.nextToRun)); }
  }

  method Line(s: Scheduler) returns (r: Verdict)
    requires s.Valid() && s.actual in s.alive
    modifies s, s.osQ, s.userQ, s.sleepQ, s.osQ.tasks, s.userQ.tasks, s.sleepQ.tasks, s.alive
    ensures r == if old(Halts(s, Enter)) then Halted else Went
    ensures r == Went ==> s.Valid() && s.actual in s.alive && s.alive <= old(s.alive)
    ensures r == Went ==> WokenRight(s, Enter, old(s.actual), old(s.sleepQ.tasks)) && TurnKept(s)
    ensures r == Went && old(s.actual.priority == User && s.reader.priority == Os) ==>
      s.actual.priority == Os && s.userQ.tasks == old(s.userQ.tasks) && Behind(s.userQ.tasks, old(s.actual), s.nextToRun)
  {
    hide s.Valid, s.Heard, Minus;
    ghost var reader, asleep := s.reader, s.sleepQ.tasks;
    ReaderSleeps(s);
    if reader != null { MinusOf(asleep, reader); }
    var o := s.StdinRecall();
    r := if o == NullReader then Halted else Went;
  }

  lemma ReaderSleeps(s: Scheduler)
    requires s.Valid()
    ensures Distinct(s.sleepQ.tasks) && (s.reader != null ==> s.reader in s.sleepQ.tasks)
  {
  }

  method Fork(s: Scheduler) returns (r: Verdict)
    requires s.Valid() && s.actual in s.alive && s.actual.state == Running
    modifies s, s.osQ, s.userQ, s.sleepQ, s.osQ.tasks, s.userQ.tasks, s.sleepQ.tasks, s.alive
    ensures r == if old(Halts(s, Forks)) then Halted else Went
    ensures r == Went ==> s.Valid() && s.actual in s.alive && forall t {:trigger t in s.alive} :: t in s.alive ==> t in old(s.alive) || fresh(t)
    ensures r == Went ==> WokenRight(s, Forks, old(s.actual), old(s.sleepQ.tasks)) && TurnKept(s)
  {
    hide s.Valid, s.Heard;
    RunningIsQueued(s);
    KidsLive(s);
    var child := s.DoFork();
    r := if child == null then Halted else Went;
  }

  lemma KidsLive(s: Scheduler)
    requires s.Valid() && s.actual in s.alive
    ensures forall i {:trigger s.actual.kids[i]} :: 0 <= i < |s.actual.kids| ==> s.actual.kids[i] in s.alive
    ensures forall t {:trigger s.Queued(t)} :: s.Queued(t) ==> t in s.alive
  {
  }

  method Timer(s: Scheduler)
    requires s.Valid() && s.actual in s.alive
    modifies s, s.osQ, s.userQ, s.sleepQ, s.osQ.tasks, s.userQ.tasks, s.sleepQ.tasks, s.alive
    ensures s.Valid() && s.actual in s.alive && s.alive <= old(s.alive)
    ensures WokenRight(s, Tick, old(s.actual), old(s.sleepQ.tasks)) && TurnKept(s)
  {
    hide s.Valid, s.Heard, s.HeadRuns;
    KeptIsQueued(s);
    ghost var t, queued := s.actual, s.Runnable(s.actual);
    TickKeepsRound(s);
    var r := s.TaskSwitch();
    if r == Switched && t.priority == Os && !queued { HeadKeepsTurn(s, old(s.nextToRun)); }
  }

  /** A queued task of the high priority is followed by another one. */
  lemma TickKeepsRound(s: Scheduler)
    requires s.Valid()
    ensures s.Runnable(s.actual) && s.actual.priority == Os ==> s.osQ.tasks != [] && s.Successor().priority == Os
  {
  }

  /** One event. */
  method Step(s: Scheduler, e: Event) returns (r: Verdict)
    requires s.Valid() && s.actual in s.alive
    modifies s, s.osQ, s.userQ, s.sleepQ, s.osQ.tasks, s.userQ.tasks, s.sleepQ.tasks, s.alive, s.kernelTask
    ensures r == Halted <==> old(Halts(s, e))
    ensures r == Impossible <==> !old(Possible(s, e))
    ensures r != Halted ==> s.Valid() && s.actual in s.alive
    ensures forall t {:trigger t in s.alive} :: r != Halted && t in s.alive ==> t in old(s.alive) || fresh(t)
    ensures r != Halted ==> WokenRight(s, e, old(s.actual), old(s.sleepQ.tasks)) && TurnKept(s)
  {
    hide s.Valid, s.Heard;
    if !e.Tick? && !e.Enter? && s.actual.state != Running {
      return Impossible;
    }
    r := Went;
    match e
    case Tick => Timer(s);
    case Enter => r := Line(s);
    case Reads => Read(s);
    case WaitsFor(pid) => Wait(s, pid);
    case Forks => r := Fork(s);
    case Exits(status) =>
      RunningIsQueued(s);
      if s.actual.firstChild == null {
        r := Exit(s, status);
      } else {
        r := Impossible;
      }
  }

  lemma QueuedLive(s: Scheduler)
    requires s.Valid()
    ensures forall i {:trigger s.osQ.tasks[i]} :: 0 <= i < |s.osQ.tasks| ==> s.osQ.tasks[i] in s.alive
    ensures forall i {:trigger s.userQ.tasks[i]} :: 0 <= i < |s.userQ.tasks| ==> s.userQ.tasks[i] in s.alive
    ensures forall i {:trigger s.sleepQ.tasks[i]} :: 0 <= i < |s.sleepQ.tasks| ==> s.sleepQ.tasks[i] in s.alive
  {
    assert forall i {:trigger s.osQ.tasks[i]} :: 0 <= i < |s.osQ.tasks| ==> s.osQ.tasks[i] in s.osQ.tasks;
    assert forall i {:trigger s.userQ.tasks[i]} :: 0 <= i < |s.userQ.tasks| ==> s.userQ.tasks[i] in s.userQ.tasks;
    assert forall i {:trigger s.sleepQ.tasks[i]} :: 0 <= i < |s.sleepQ.tasks| ==> s.sleepQ.tasks[i] in s.sleepQ.tasks;
  }

  lemma RunnableCounted(s: Scheduler)
    requires s.Valid()
    ensures s.osQ.counter + s.userQ.counter == |s.osQ.tasks| + |s.userQ.tasks|
  {
  }

  /** Whether the event is the last one. */
  method WouldHalt(s: Scheduler, e: Event) returns (halts: bool)
    requires s.Valid() && s.actual in s.alive
    ensures halts == Halts(s, e)
  {
    hide s.Valid;
    RunnableCounted(s);
    var t := s.actual;
    match e
    case Exits(_) =>
      if t.state == Running {
        RunningIsQueued(s);
        AwaitedBy(s, t);
      }
      var awaited := t.parent != null && t.parent.wait4 == t;
      halts := t.state == Running && t.firstChild == null && !awaited && s.osQ.counter + s.userQ.counter == 1;
    case Enter => halts := s.reader == null;
    case Forks => halts := t.state == Running && s.oldTid == s.MAX_TID;
    case _ => halts := false;
  }

  /** From `sched_init` and the first task on, whatever happens, all is well with the kernel's
      tasks; only an event that halts it in the state reached ends the run. */
  method Run(events: seq<Event>) returns (s: Scheduler, done: nat)
    ensures fresh(s) && s.Valid() && s.actual in s.alive
    ensures done <= |events| && (done < |events| ==> Halts(s, events[done]))
  {
    hide s.Valid, WokenRight, Possible, Halts;
    s := new Scheduler();
    var init := s.Boot();
    done := 0;
    while done < |events|
      invariant done <= |events| && fresh(s) && fresh(s.osQ) && fresh(s.userQ) && fresh(s.sleepQ) && fresh(s.kernelTask)
      invariant s.Valid() && s.actual in s.alive
      invariant forall t {:trigger t in s.alive} :: t in s.alive ==> fresh(t)
    {
      var last := WouldHalt(s, events[done]);
      if last {
        return;
      }
      QueuedLive(s);
      var r := Step(s, events[done]);
      done := done + 1;
    }
  }

  /** A reader of the high priority takes the processor from a task of the low one when a line
      is typed.  Whatever happens then, for as long as tasks of the high priority run: the next
      task of the low priority to run is the one whose turn it was in the round, the follower
      of the one displaced. */
  method TurnComesBack(s: Scheduler, events: seq<Event>) returns (r: Verdict, done: nat)
    requires s.Valid() && s.actual in s.alive && s.actual in s.userQ.tasks
    requires s.reader != null && s.reader.priority == Os
    modifies s, s.osQ, s.userQ, s.sleepQ, s.osQ.tasks, s.userQ.tasks, s.sleepQ.tasks, s.alive, s.kernelTask
    ensures done <= |events| && (r != Halted ==> s.Valid() && s.actual in s.alive)
    ensures r != Halted && done < |events| ==> s.actual.priority == User
    ensures r != Halted && s.actual.priority == User ==> s.actual == Following(old(s.userQ.tasks), old(s.actual))
  {
    hide s.Valid, WokenRight, Possible, Halts, Behind;
    LowIsActual(s);
    ghost var round, displaced := s.userQ.tasks, s.actual;
    r := Line(s);
    ghost var kept := s.nextToRun;
    BehindFollows(round, displaced, kept);
    done := 0;
    while done < |events| && s.actual.priority == Os
      invariant done <= |events| && r != Halted && s.Valid() && s.actual in s.alive
      invariant forall t {:trigger t in s.alive} :: t in s.alive ==> t in old(s.alive) || fresh(t)
      invariant if s.actual.priority == Os then s.nextToRun == kept && round <= s.userQ.tasks
                else s.actual == Following(round, displaced)
    {
      QueuedLive(s);
      r := Step(s, events[done]);
      if r == Halted {
        return;
      }
      done := done + 1;
    }
  }

  lemma LowIsActual(s: Scheduler)
    requires s.Valid() && s.actual in s.userQ.tasks
    ensures s.actual.priority == User && Distinct(s.userQ.tasks)
    ensures Halts(s, Enter) <==> s.reader == null
  {
  }
}
