/** Dispatching, waiting and exiting: three queues, pre-emption by the higher priority,
    round robin within a queue, and the hand-over of exit codes to waiting parents. */
module Scheduling {

  import opened Lists
  import opened Tasks

  /** How a kernel path ends: a context switch never returns, an idle processor keeps
      looking for work, and without any task the kernel panics. */
  datatype Outcome = Switched | Idle | EndOfTasks

  /** What the terminal's line does to the task that reads it. */
  datatype Recall = Woken | Preempts | NullReader

  class Scheduler {
    const osQ: Queue
    const userQ: Queue
    const sleepQ: Queue
    const kernelTask: Task
    var total: nat
    var running: nat
    var sleeping: nat
    var actual: Task
    var nextToRun: Task?
    var oldTid: nat
    /** The task whose read of the terminal is to be answered. */
    var reader: Task?
    /** The tasks that were created and have not ended. */
    ghost var alive: set<Task>
    /** All tasks that were ever created. */
    ghost var ever: set<Task>

    ghost predicate Queues()
      reads osQ, osQ.tasks`next, osQ.tasks`prev
      reads userQ, userQ.tasks`next, userQ.tasks`prev
      reads sleepQ, sleepQ.tasks`next, sleepQ.tasks`prev
    {
      && osQ != userQ && osQ != sleepQ && userQ != sleepQ
      && osQ.Valid() && userQ.Valid() && sleepQ.Valid()
    }

    ghost predicate Runnable(t: Task)
      reads osQ`tasks, userQ`tasks
    {
      t in osQ.tasks || t in userQ.tasks
    }

    ghost predicate Queued(t: Task)
      reads osQ`tasks, userQ`tasks, sleepQ`tasks
    {
      Runnable(t) || t in sleepQ.tasks
    }

    /** `_set_queue`: the queue a task belongs to. */
    function Home(t: Task): Queue
      reads t`state
    {
      if t.state == Waiting then sleepQ else if t.priority == Os then osQ else userQ
    }

    /** Every task sits in the queue its state and priority determine. */
    ghost predicate Placed()
      reads osQ`tasks, userQ`tasks, sleepQ`tasks
      reads osQ.tasks`state, userQ.tasks`state, sleepQ.tasks`state
    {
      && (forall t {:trigger t in osQ.tasks} :: t in osQ.tasks ==> t.priority == Os && (t.state == Ready || t.state == Running))
      && (forall t {:trigger t in userQ.tasks} :: t in userQ.tasks ==> t.priority == User && (t.state == Ready || t.state == Running))
      && (forall t {:trigger t in sleepQ.tasks} :: t in sleepQ.tasks ==> t.state == Waiting)
    }

    ghost predicate Counted()
      reads this`total, this`running, this`sleeping, osQ`tasks, userQ`tasks, sleepQ`tasks
    {
      && running == |osQ.tasks| + |userQ.tasks| && sleeping == |sleepQ.tasks|
      && total == running + sleeping
    }

    /** No two tasks ever share a number, and none has one that is still to be given out. */
    ghost predicate Numbered()
      reads this`alive, this`ever, this`oldTid, alive`wait4, osQ`tasks, userQ`tasks, sleepQ`tasks
    {
      && (forall t {:trigger t in ever} :: t in ever ==> 0 < t.id <= oldTid)
      && (forall t, u {:trigger t in ever, u in ever} :: t in ever && u in ever && t.id == u.id ==> t == u)
      && (forall t {:trigger t in alive} :: t in alive ==> t in ever && (t.wait4 != null ==> t.wait4 in ever))
      && (forall t {:trigger t in osQ.tasks} :: t in osQ.tasks ==> t in alive)
      && (forall t {:trigger t in userQ.tasks} :: t in userQ.tasks ==> t in alive)
      && (forall t {:trigger t in sleepQ.tasks} :: t in sleepQ.tasks ==> t in alive)
      && kernelTask !in ever && kernelTask.id == 0
    }

    /** Only the actual task runs; a task of the lower priority is the actual one only while
        none of the higher is ready; `nextToRun` keeps the turn of the low-priority queue. */
    ghost predicate Turn()
      reads this`actual, this`nextToRun, osQ`tasks, userQ`tasks, sleepQ`tasks
      reads osQ.tasks`state, userQ.tasks`state, actual`next
    {
      && OnlyActualRuns() && TurnFor(actual)
      && (actual in sleepQ.tasks ==> actual == sleepQ.tasks[|sleepQ.tasks| - 1])
      && (!Queued(actual) ==> actual.next == null)
    }

    ghost predicate OnlyActualRuns()
      reads this`actual, osQ`tasks, userQ`tasks, osQ.tasks`state, userQ.tasks`state
    {
      && (forall t {:trigger t in osQ.tasks} :: t in osQ.tasks && t.state == Running ==> t == actual)
      && (forall t {:trigger t in userQ.tasks} :: t in userQ.tasks && t.state == Running ==> t == actual)
    }

    ghost predicate TurnFor(t: Task)
      reads this`nextToRun, osQ`tasks, userQ`tasks
    {
      && (nextToRun != null ==> nextToRun in userQ.tasks && t.priority == Os)
      && (t.priority == User ==> osQ.tasks == [])
    }

    /** The parent of a zombie has been told, and has not run since. */
    ghost predicate Told(t: Task)
      reads this`alive, t`mask, t`wait4, alive`state, alive`kids
    {
      && Has(t.mask, SIGCHLD)
      && t.wait4 != null && t.wait4 in alive && t.wait4.state == Zombie && t.wait4.parent == t && t.wait4.kids == []
    }

    /** The signal bits and the awaited child of t are those of a task in state s. */
    ghost predicate WaitOkIn(t: Task, s: State)
      reads this`alive, t`mask, t`current, t`wait4, alive`state, alive`kids, alive`wait4, alive`current
    {
      && (Has(t.current, SIGCHLD) ==> s == Ready && Told(t))
      && ((s == Ready || s == Running) && !Has(t.current, SIGCHLD) ==> !Has(t.mask, SIGCHLD))
      && (t.wait4 != null && t.wait4 in alive && t.wait4.state != Zombie ==> s == Waiting && Has(t.mask, SIGCHLD))
      && (s == Zombie ==> t.parent != null && t.parent in alive && t.parent.wait4 == t && Has(t.parent.current, SIGCHLD))
    }

    ghost predicate WaitOk(t: Task)
      reads this`alive, t`state, t`mask, t`current, t`wait4, alive`state, alive`kids, alive`wait4, alive`current
    {
      WaitOkIn(t, t.state)
    }

    /** All is well with the waiting tasks, once x is in state s. */
    ghost predicate WaitsIf(x: Task?, s: State)
      reads this`alive, this`reader, sleepQ`tasks
      reads alive`state, alive`mask, alive`current, alive`wait4, alive`kids
    {
      && (forall t {:trigger t in alive} :: t in alive ==> if t == x then WaitOkIn(t, s) else WaitOk(t))
      && (reader != null ==> reader in alive && !Has(reader.mask, SIGCHLD) && if reader == x then s == Waiting else reader in sleepQ.tasks)
    }

    ghost predicate Waits()
      reads this`alive, this`reader, sleepQ`tasks
      reads alive`state, alive`mask, alive`current, alive`wait4, alive`kids
    {
      WaitsIf(null, Ready)
    }

    /** The children of p are well linked, alive, and know their parent. */
    ghost predicate Family(p: Task)
      reads this`alive, p`kids, p`firstChild, p`lastChild, p.kids`prevSibling, p.kids`nextSibling
    {
      && p.KidsLinked()
      && (forall i {:trigger p.kids[i]} :: 0 <= i < |p.kids| ==> p.kids[i] in alive && p.kids[i].parent == p)
    }

    ghost predicate ParentOk(c: Task)
      reads this`alive, alive`kids
    {
      if c.id == 1 then c.parent == null else c.parent != null && c.parent in alive && c in c.parent.kids
    }

    ghost predicate KidsAlive()
      reads this`alive, alive`kids
    {
      forall p, i {:trigger p.kids[i], p in alive} :: p in alive && 0 <= i < |p.kids| ==> p.kids[i] in alive
    }

    ghost predicate Tree()
      reads this`alive, alive`kids, alive`firstChild, alive`lastChild, alive`prevSibling, alive`nextSibling
    {
      && KidsAlive()
      && (forall p {:trigger Family(p)} :: p in alive ==> Family(p))
      && (forall c {:trigger ParentOk(c)} :: c in alive ==> ParentOk(c))
    }

    /** Every living task is queued or a zombie. */
    ghost predicate AllQueued()
      reads this`alive, alive`state, osQ`tasks, userQ`tasks, sleepQ`tasks
    {
      forall t {:trigger t in alive} :: t in alive && t.state != Zombie ==> Queued(t)
    }

    ghost predicate NobodyRuns()
      reads osQ`tasks, userQ`tasks, osQ.tasks`state, userQ.tasks`state
    {
      && (forall t {:trigger t in osQ.tasks} :: t in osQ.tasks ==> t.state != Running)
      && (forall t {:trigger t in userQ.tasks} :: t in userQ.tasks ==> t.state != Running)
    }

    /** Everything but whose turn it is, once x is in state s. */
    ghost predicate CoreIf(x: Task?, s: State)
      reads this`alive, this`ever, this`oldTid, this`reader, this`total, this`running, this`sleeping
      reads osQ, userQ, sleepQ
      reads osQ.tasks`next, osQ.tasks`prev, osQ.tasks`state, userQ.tasks`next, userQ.tasks`prev, userQ.tasks`state
      reads sleepQ.tasks`next, sleepQ.tasks`prev, sleepQ.tasks`state
      reads alive`state, alive`mask, alive`current, alive`wait4
      reads alive`kids, alive`firstChild, alive`lastChild, alive`prevSibling, alive`nextSibling
    {
      Queues() && Placed() && Counted() && Numbered() && WaitsIf(x, s) && Tree() && AllQueued()
    }

    ghost predicate Core()
      reads this`alive, this`ever, this`oldTid, this`reader, this`total, this`running, this`sleeping
      reads osQ, userQ, sleepQ
      reads osQ.tasks`next, osQ.tasks`prev, osQ.tasks`state, userQ.tasks`next, userQ.tasks`prev, userQ.tasks`state
      reads sleepQ.tasks`next, sleepQ.tasks`prev, sleepQ.tasks`state
      reads alive`state, alive`mask, alive`current, alive`wait4
      reads alive`kids, alive`firstChild, alive`lastChild, alive`prevSibling, alive`nextSibling
    {
      CoreIf(null, Ready)
    }

    ghost predicate Valid()
      reads this, osQ, userQ, sleepQ, osQ.tasks, userQ.tasks, sleepQ.tasks, alive, actual
    {
      Core() && Turn()
    }

    /** No task was made yet. */
    ghost predicate Unbooted()
      reads this`actual, this`ever, this`oldTid, this`nextToRun, this`reader
    {
      actual == kernelTask && kernelTask.priority == Os && ever == {} && oldTid == 0 && nextToRun == null && reader == null
    }

    /** `sched_init` */
    constructor ()
      ensures Valid() && Unbooted() && fresh(osQ) && fresh(userQ) && fresh(sleepQ) && fresh(kernelTask)
    {
      osQ := new Queue();
      userQ := new Queue();
      sleepQ := new Queue();
      var k := new Task(0, Os, null);
      kernelTask, actual := k, k;
      total, running, sleeping, oldTid := 0, 0, 0, 0;
      nextToRun, reader, alive, ever := null, null, {}, {};
      new;
      hide Queues, Placed, Counted, Turn, CoreIf, Queue.Valid, Task.KidsLinked;
      AllEmpty();
    }

    /** A scheduler without tasks is in order. */
    lemma AllEmpty()
      requires osQ != userQ && osQ != sleepQ && userQ != sleepQ && osQ.Valid() && userQ.Valid() && sleepQ.Valid()
      requires osQ.tasks == [] && userQ.tasks == [] && sleepQ.tasks == [] && total == running == sleeping == 0
      requires actual == kernelTask && kernelTask.id == 0 && kernelTask.next == null && kernelTask.priority == Os
      requires nextToRun == null && reader == null && alive == {} && ever == {}
      ensures Valid()
    {
      hide Queue.Valid, Task.KidsLinked;
    }

    // ------------------------------------------------------------------ the queues

    /** Some task in a queue has this number. */
    ghost predicate Known(id: nat)
      reads osQ`tasks, userQ`tasks, sleepQ`tasks
    {
      || (exists t {:trigger t in osQ.tasks} :: t in osQ.tasks && t.id == id)
      || (exists t {:trigger t in userQ.tasks} :: t in userQ.tasks && t.id == id)
      || (exists t {:trigger t in sleepQ.tasks} :: t in sleepQ.tasks && t.id == id)
    }

    /** `sched_get_tcb` */
    method GetTcb(id: nat) returns (t: Task?)
      requires Queues()
      ensures t != null ==> Queued(t) && t.id == id
      ensures t == null <==> !Known(id)
    {
      t := sleepQ.Find(id);
      if t == null {
        t := osQ.Find(id);
        if t == null {
          t := userQ.Find(id);
        }
      }
    }

    /** No task is in two queues. */
    lemma Separate()
      requires Placed()
      ensures forall i {:trigger osQ.tasks[i]} :: 0 <= i < |osQ.tasks| ==> osQ.tasks[i].priority == Os && osQ.tasks[i].state != Waiting
      ensures forall i {:trigger userQ.tasks[i]} :: 0 <= i < |userQ.tasks| ==> userQ.tasks[i].priority == User && userQ.tasks[i].state != Waiting
      ensures forall i {:trigger sleepQ.tasks[i]} :: 0 <= i < |sleepQ.tasks| ==> sleepQ.tasks[i].state == Waiting
    {
      assert forall i {:trigger osQ.tasks[i]} :: 0 <= i < |osQ.tasks| ==> osQ.tasks[i] in osQ.tasks;
      assert forall i {:trigger userQ.tasks[i]} :: 0 <= i < |userQ.tasks| ==> userQ.tasks[i] in userQ.tasks;
      assert forall i {:trigger sleepQ.tasks[i]} :: 0 <= i < |sleepQ.tasks| ==> sleepQ.tasks[i] in sleepQ.tasks;
    }

    ghost function Extended(q: Queue, t: Task): seq<Task>
      reads q`tasks, t`state
    {
      if q == Home(t) then q.tasks + [t] else q.tasks
    }

    /** `_add_to_queue` */
    method AddToQueue(t: Task)
      requires Queues() && Placed() && !Queued(t) && t.state != Zombie
      modifies osQ, userQ, sleepQ, osQ.tasks`next, userQ.tasks`next, sleepQ.tasks`next, t`next, t`prev
      ensures Queues() && Placed() && t.next == null
      ensures |osQ.tasks| + |userQ.tasks| == old(|osQ.tasks| + |userQ.tasks|) + if t.state == Waiting then 0 else 1
      ensures |sleepQ.tasks| == old(|sleepQ.tasks|) + if t.state == Waiting then 1 else 0
      ensures osQ.tasks == old(Extended(osQ, t)) && userQ.tasks == old(Extended(userQ, t)) && sleepQ.tasks == old(Extended(sleepQ, t))
    {
      hide Queue.Valid, Distinct;
      Separate();
      var q := Home(t);
      q.Add(t);
    }

    ghost function Reduced(q: Queue, t: Task): seq<Task>
      reads q`tasks, t`state
    {
      if q == Home(t) then Minus(q.tasks, t) else q.tasks
    }

    /** `_remove_from_queue` */
    method RemoveFromQueue(t: Task)
      requires Queues() && Placed() && Queued(t)
      modifies osQ, userQ, sleepQ, osQ.tasks`next, userQ.tasks`next, sleepQ.tasks`next
      modifies osQ.tasks`prev, userQ.tasks`prev, sleepQ.tasks`prev
      ensures Queues() && Placed() && !Queued(t) && t.next == null
      ensures Less(old(osQ.tasks), osQ.tasks, t, Home(t) == osQ)
      ensures Less(old(userQ.tasks), userQ.tasks, t, Home(t) == userQ)
      ensures Less(old(sleepQ.tasks), sleepQ.tasks, t, Home(t) == sleepQ)
      ensures |osQ.tasks| + |userQ.tasks| == old(|osQ.tasks| + |userQ.tasks|) - if Home(t) == sleepQ then 0 else 1
      ensures |sleepQ.tasks| == old(|sleepQ.tasks|) - if Home(t) == sleepQ then 1 else 0
    {
      hide Minus, Distinct, Reduced, Queues, Less;
      ReducedIsLess(t);
      Unqueue(t);
      AllReduced(t);
    }

    /** Every task of a reduced queue was in the whole one, so it is still placed right. */
    twostate lemma AllReduced(t: Task)
      requires old(Placed()) && old(Queued(t)) && t.state == old(t.state)
      requires Less(old(osQ.tasks), osQ.tasks, t, Home(t) == osQ) && Less(old(userQ.tasks), userQ.tasks, t, Home(t) == userQ)
      requires Less(old(sleepQ.tasks), sleepQ.tasks, t, Home(t) == sleepQ)
      requires osQ != userQ && osQ != sleepQ && userQ != sleepQ
      requires forall u {:trigger u in old(osQ.tasks)} :: u in old(osQ.tasks) ==> u.state == old(u.state)
      requires forall u {:trigger u in old(userQ.tasks)} :: u in old(userQ.tasks) ==> u.state == old(u.state)
      requires forall u {:trigger u in old(sleepQ.tasks)} :: u in old(sleepQ.tasks) ==> u.state == old(u.state)
      ensures Placed() && !Queued(t)
      ensures |osQ.tasks| + |userQ.tasks| == old(|osQ.tasks| + |userQ.tasks|) - if Home(t) == sleepQ then 0 else 1
      ensures |sleepQ.tasks| == old(|sleepQ.tasks|) - if Home(t) == sleepQ then 1 else 0
    {
    }

    lemma ReducedIsLess(t: Task)
      requires Queues() && Placed() && Queued(t)
      ensures Less(osQ.tasks, Reduced(osQ, t), t, Home(t) == osQ)
      ensures Less(userQ.tasks, Reduced(userQ, t), t, Home(t) == userQ)
      ensures Less(sleepQ.tasks, Reduced(sleepQ, t), t, Home(t) == sleepQ)
      ensures osQ != userQ && osQ != sleepQ && userQ != sleepQ
    {
      hide Minus, Distinct, Less;
      LessIfMinus(osQ.tasks, Reduced(osQ, t), t, Home(t) == osQ);
      LessIfMinus(userQ.tasks, Reduced(userQ, t), t, Home(t) == userQ);
      LessIfMinus(sleepQ.tasks, Reduced(sleepQ, t), t, Home(t) == sleepQ);
    }

    method Unqueue(t: Task)
      requires Queues() && Placed() && Queued(t)
      modifies osQ, userQ, sleepQ, osQ.tasks`next, userQ.tasks`next, sleepQ.tasks`next
      modifies osQ.tasks`prev, userQ.tasks`prev, sleepQ.tasks`prev
      ensures Queues() && t.next == null
      ensures osQ.tasks == old(Reduced(osQ, t)) && userQ.tasks == old(Reduced(userQ, t)) && sleepQ.tasks == old(Reduced(sleepQ, t))
    {
      hide Queue.Valid, Distinct, Minus;
      Separate();
      var q := Home(t);
      assert t in q.tasks;
      q.Remove(t);
    }

    /** A queue that lost t, or never held it. */
    ghost predicate Less(q: seq<Task>, q': seq<Task>, t: Task, home: bool) {
      && q' == (if home then Minus(q, t) else q)
      && |q'| == |q| - (if home then 1 else 0)
      && (forall i {:trigger q'[i]} :: 0 <= i < |q'| ==> q'[i] in q)
      && (forall u {:trigger u in q'} :: u in q' ==> u in q && (home ==> u != t))
      && (forall u {:trigger u in q} :: u in q && (home ==> u != t) ==> u in q')
    }

    lemma {:induction false} LessIfMinus(q: seq<Task>, q': seq<Task>, t: Task, home: bool)
      requires Distinct(q) && (home ==> t in q) && q' == if home then Minus(q, t) else q
      ensures Less(q, q', t, home)
    {
      if home { MinusOf(q, t); }
    }

    // --------------------------------------------------------------- the dispatcher

    /** `sched_get_next_task` */
    method GetNextTask() returns (next: Task)
      requires Queues()
      modifies this`nextToRun
      ensures osQ.tasks == [] && userQ.tasks == [] ==> next == kernelTask && nextToRun == old(nextToRun)
      ensures osQ.tasks != [] ==> if old(nextToRun) != null && old(nextToRun).priority == Os
                                  then next == old(nextToRun) && nextToRun == null
                                  else next == osQ.tasks[0] && nextToRun == old(nextToRun)
      ensures osQ.tasks == [] && userQ.tasks != [] ==>
                next == (if old(nextToRun) != null then old(nextToRun) else userQ.tasks[0]) && nextToRun == null
    {
      if osQ.counter > 0 {
        if nextToRun != null && nextToRun.priority == Os {
          next := nextToRun;
          nextToRun := null;
        } else {
          next := osQ.first;
        }
      } else if userQ.counter > 0 {
        if nextToRun != null {
          next := nextToRun;
          nextToRun := null;
        } else {
          next := userQ.first;
        }
      } else {
        next := kernelTask;
      }
    }

    /** `task_destroy` of a task without children: it leaves the tree for good. */
    method TaskDestroy(tcb: Task, ghost parent: Task)
      requires Tree() && tcb in alive && tcb.parent == parent && tcb.id != 1 && tcb.kids == []
      modifies this`alive, parent`firstChild, parent`lastChild, parent`kids
      modifies parent.kids`prevSibling, parent.kids`nextSibling
      ensures Tree() && alive == old(alive) - {tcb}
      ensures parent.kids == old(Minus(parent.kids, tcb))
    {
      hide Task.KidsLinked, Minus;
      assert ParentOk(tcb) && Family(parent);
      Unlink(tcb, parent);
      alive := alive - {tcb};
      forall p | p in alive ensures Family(p) {
        assert old(Family(p));
        assert forall i {:trigger p.kids[i]} :: 0 <= i < |p.kids| ==> p.kids[i] in p.kids;
      }
      forall c | c in alive ensures ParentOk(c) {
        assert old(ParentOk(c));
      }
    }

    method Unlink(tcb: Task, ghost parent: Task)
      requires Tree() && tcb in alive && parent in alive && tcb.parent == parent && tcb in parent.kids
      modifies parent`firstChild, parent`lastChild, parent`kids
      modifies parent.kids`prevSibling, parent.kids`nextSibling
      ensures parent.kids == old(Minus(parent.kids, tcb))
      ensures forall c {:trigger c in parent.kids} {:trigger c in old(parent.kids)} :: c in parent.kids <==> c in old(parent.kids) && c != tcb
      ensures forall p {:trigger p in alive} :: p in alive ==> p.KidsLinked()
    {
      assert Family(parent);
      OtherFamilies(parent);
      RemoveKid(tcb.parent, tcb);
      forall p | p in alive ensures p.KidsLinked() {
        assert old(Family(p));
      }
    }

    /** The sibling links of one family are not those of another. */
    lemma OtherFamilies(parent: Task)
      requires Tree() && parent in alive
      ensures forall p, i, j {:trigger p.kids[i], parent.kids[j]} :: p in alive && p != parent && 0 <= i < |p.kids| && 0 <= j < |parent.kids| ==>
        p.kids[i] != parent.kids[j]
    {
      forall p, i, j | p in alive && p != parent && 0 <= i < |p.kids| && 0 <= j < |parent.kids|
        ensures p.kids[i] != parent.kids[j]
      {
        assert Family(p) && Family(parent);
      }
    }

    method RemoveKid(parent: Task, tcb: Task)
      requires Family(parent) && tcb in parent.kids
      modifies parent`firstChild, parent`lastChild, parent`kids, parent.kids`prevSibling, parent.kids`nextSibling
      ensures Family(parent) && parent.kids == old(Minus(parent.kids, tcb))
      ensures forall c {:trigger c in parent.kids} {:trigger c in old(parent.kids)} :: c in parent.kids <==> c in old(parent.kids) && c != tcb
    {
      hide Minus, RemovedAt, Distinct;
      ghost var i := IndexOf(parent.kids, tcb);
      MinusIsRemovedAt(parent.kids, i);
      MinusOf(parent.kids, tcb);
      parent.RemoveChild(tcb, i);
    }

    /** What a task finds when it is dispatched: a parent that was told has the exit code of
        the child it waited for, the child is gone and both signal bits are clear. */
    twostate predicate Resumed(next: Task)
      reads this`alive, next`retval, next`mask, next`current, next`kids
    {
      if Has(old(next.current), SIGCHLD) && old(next.wait4) != null
      then && next.retval == old(next.wait4.exitCode)
           && alive == old(alive) - {old(next.wait4)}
           && !Has(next.mask, SIGCHLD) && !Has(next.current, SIGCHLD)
           && next.kids == old(Minus(next.kids, next.wait4))
      else && next.retval == old(next.retval) && alive == old(alive) && next.kids == old(next.kids)
           && next.mask == old(next.mask) && next.current == old(next.current)
    }

    /** `sig_handler` */
    method SigHandler(t: Task)
      requires Tree() && t in alive && (Has(t.current, SIGCHLD) ==> Told(t))
      modifies this`alive, t`retval, t`mask, t`current, t`firstChild, t`lastChild, t`kids
      modifies t.kids`prevSibling, t.kids`nextSibling
      ensures Tree() && Resumed(t)
    {
      if Has(t.current, SIGCHLD) {
        t.retval := t.wait4.exitCode;
        assert ParentOk(t.wait4);
        TaskDestroy(t.wait4, t);
        UnmarkClearsIffSet(t.mask);
        UnmarkClearsIffSet(t.current);
        t.mask := Unmarked(t.mask, SIGCHLD);
        t.current := Unmarked(t.current, SIGCHLD);
      }
    }

    /** The tail of both switch functions, up to the context switch. */
    method Dispatch(next: Task)
      requires Core() && NobodyRuns() && Runnable(next) && TurnFor(next)
      modifies this`actual, this`alive, next`state, next`retval, next`mask, next`current
      modifies next`firstChild, next`lastChild, next`kids, next.kids`prevSibling, next.kids`nextSibling
      ensures Valid() && actual == next && Up() && Resumed(next)
    {
      hide Waits, Tree, Queues, Placed, Counted, Numbered, AllQueued, Turn, NobodyRuns, TurnFor, WaitsIf, Resumed;
      NextIsKnown(next);
      Resume(next);
      CoreResumed(next);
    }

    method Resume(next: Task)
      requires Tree() && next in alive && next.state != Zombie && (Has(next.current, SIGCHLD) ==> Told(next))
      modifies this`actual, this`alive, next`state, next`retval, next`mask, next`current
      modifies next`firstChild, next`lastChild, next`kids, next.kids`prevSibling, next.kids`nextSibling
      ensures Tree() && actual == next && next.state == Running && Resumed(next)
    {
      next.state := Running;
      SigHandler(next);
      actual := next;
    }

    lemma NextIsKnown(next: Task)
      requires Core() && Runnable(next)
      ensures next in alive && next.state != Zombie && (Has(next.current, SIGCHLD) ==> Told(next))
      ensures forall i {:trigger next.kids[i]} :: 0 <= i < |next.kids| ==> next.kids[i] in alive
    {
      assert WaitOk(next);
    }

    twostate lemma CoreResumed(next: Task)
      requires old(Core()) && old(NobodyRuns()) && old(Runnable(next)) && old(TurnFor(next)) && Queues() && Counted() && Tree()
      requires Resumed(next) && next.state == Running && actual == next && nextToRun == old(nextToRun) && oldTid == old(oldTid) && ever == old(ever)
      requires reader == old(reader) && sleepQ.tasks == old(sleepQ.tasks) && osQ.tasks == old(osQ.tasks) && userQ.tasks == old(userQ.tasks)
      requires forall t {:trigger t in old(alive)} :: t in old(alive) ==> t.wait4 == old(t.wait4)
      requires forall t {:trigger t in old(alive)} :: t in old(alive) && t != next ==>
        t.state == old(t.state) && t.mask == old(t.mask) && t.current == old(t.current) && t.kids == old(t.kids)
      ensures Valid()
    {
      hide Queues, Tree, Counted, Queue.Valid, Task.KidsLinked;
      WaitsResumed(next);
      assert old(WaitOk(next));
    }

    twostate lemma WaitsResumed(next: Task)
      requires old(Waits()) && old(Placed()) && old(Numbered()) && old(Runnable(next)) && Resumed(next) && next.state == Running
      requires reader == old(reader) && sleepQ.tasks == old(sleepQ.tasks) && osQ.tasks == old(osQ.tasks) && userQ.tasks == old(userQ.tasks)
      requires forall t {:trigger t in old(alive)} :: t in old(alive) ==> t.wait4 == old(t.wait4)
      requires forall t {:trigger t in old(alive)} :: t in old(alive) && t != next ==>
        t.state == old(t.state) && t.mask == old(t.mask) && t.current == old(t.current) && t.kids == old(t.kids)
      ensures Waits()
    {
      forall t | t in alive ensures WaitOk(t) {
        assert old(WaitOk(t)) && old(WaitOk(next));
        if t.wait4 != null && t.wait4 in old(alive) { assert old(WaitOk(t.wait4)); }
      }
    }

    /** The task that is switched away from is ready, not running. */
    method MakeReady()
      requires Core() && OnlyActualRuns()
      modifies actual`state
      ensures Core() && NobodyRuns() && (old(Turn()) ==> Turn())
      ensures actual.state == if old(actual.state) == Running then Ready else old(actual.state)
    {
      if actual.state == Running {
        actual.state := Ready;
      }
      WaitsReady();
    }

    twostate lemma WaitsReady()
      requires old(Waits()) && alive == old(alive) && reader == old(reader) && sleepQ.tasks == old(sleepQ.tasks)
      requires forall t {:trigger t in alive} :: t in alive ==>
        && t.mask == old(t.mask) && t.current == old(t.current) && t.wait4 == old(t.wait4) && t.kids == old(t.kids)
        && (t.state == old(t.state) || (old(t.state) == Running && t.state == Ready))
      ensures Waits()
    {
      forall t | t in alive ensures WaitOk(t) {
        assert old(WaitOk(t));
        if t.wait4 != null && t.wait4 in alive { assert old(WaitOk(t.wait4)); }
      }
    }

    /** The task, unless it is the kernel's own. */
    ghost function Real(t: Task): set<Task> {
      if t == kernelTask then {} else {t}
    }

    ghost function KidsOf(t: Task): seq<Task>
      reads t`kids
    {
      if t == kernelTask then [] else t.kids
    }

    /** `task_switch_to` */
    method TaskSwitchTo(task: Task) returns (r: Outcome)
      requires Core() && OnlyActualRuns()
      requires task != kernelTask ==> Runnable(task) && TurnFor(task)
      modifies this`actual, this`alive, actual`state, task`state, Real(task)`retval, Real(task)`mask, Real(task)`current
      modifies Real(task)`firstChild, Real(task)`lastChild, Real(task)`kids, KidsOf(task)`prevSibling, KidsOf(task)`nextSibling
      ensures task == kernelTask <==> r == EndOfTasks
      ensures r == EndOfTasks || r == Switched
      ensures r == Switched ==> Valid() && actual == task && Up() && Resumed(task)
      ensures r == Switched && old(actual) != task ==> old(actual).state == if old(actual.state) == Running then Ready else old(actual.state)
    {
      hide Queues, Placed, Counted, Numbered, WaitsIf, Tree, AllQueued, Turn;
      if task == kernelTask {
        task.state := Running;
        actual := task;
        return EndOfTasks;
      }
      MakeReady();
      Dispatch(task);
      return Switched;
    }

    /** Whose turn it is: the follower of the actual task in its queue; after a task that
        sleeps or ended, the head of the high-priority queue, else the kept turn, else the
        head of the low-priority queue. */
    ghost function Successor(): Task
      requires osQ.tasks != [] || userQ.tasks != []
      reads this`actual, this`nextToRun, osQ`tasks, userQ`tasks
    {
      if actual in osQ.tasks then Following(osQ.tasks, actual)
      else if actual in userQ.tasks then Following(userQ.tasks, actual)
      else if osQ.tasks != [] then osQ.tasks[0]
      else if nextToRun != null then nextToRun
      else userQ.tasks[0]
    }

    /** Only the tasks switched from and to have changed. */
    twostate predicate OthersKept(tasks: set<Task>, from: Task, to: Task)
      reads tasks`state, tasks`retval, tasks`mask, tasks`current, tasks`kids
    {
      forall t {:trigger t in tasks} :: t in tasks && t != to ==>
        && t.state == (if t == from && old(t.state) == Running then Ready else old(t.state))
        && t.retval == old(t.retval) && t.mask == old(t.mask) && t.current == old(t.current) && t.kids == old(t.kids)
    }

    /** The actual task is a living one, has a place in a run queue and runs. */
    ghost predicate Up()
      reads this`actual, this`alive, osQ`tasks, userQ`tasks, actual`state
    {
      actual in alive && Runnable(actual) && actual.state == Running
    }

    /** The turn that is kept is used up when the low-priority queue gets the processor. */
    twostate predicate TurnUsed()
      reads this`nextToRun, osQ`tasks, userQ`tasks
    {
      nextToRun == if osQ.tasks == [] && userQ.tasks != [] then null else old(nextToRun)
    }

    /** The processor goes to the task that waits longest in the high-priority queue; if there
        is none, to the one whose turn is kept, and without such to the one that waits
        longest in the low-priority queue. */
    ghost predicate HeadRuns(kept: Task?)
      reads this`actual, this`nextToRun, osQ`tasks, userQ`tasks
    {
      if osQ.tasks != [] then actual == osQ.tasks[0] && nextToRun == kept
      else userQ.tasks != [] && actual == (if kept != null then kept else userQ.tasks[0]) && nextToRun == null
    }

    twostate lemma SuccessorIsHead()
      requires old(!Runnable(actual)) && (old(osQ.tasks) != [] || old(userQ.tasks) != [])
      requires osQ.tasks == old(osQ.tasks) && userQ.tasks == old(userQ.tasks) && actual == old(Successor()) && TurnUsed()
      ensures HeadRuns(old(nextToRun))
    {
    }

    /** `task_switch`: what it finds next, before it switches. */
    method ChooseNext() returns (next: Task)
      requires Core() && NobodyRuns() && Turn()
      modifies this`nextToRun
      ensures osQ.tasks == [] && userQ.tasks == [] ==> next == kernelTask && Turn()
      ensures osQ.tasks != [] || userQ.tasks != [] ==> next == old(Successor()) && Runnable(next) && TurnFor(next)
      ensures TurnUsed()
    {
      FollowersLinked();
      var after := actual.next;
      if after == null {
        next := GetNextTask();
      } else {
        next := after;
      }
    }

    /** The `next` pointer of the actual task is its follower, or null at the end of a queue. */
    lemma FollowersLinked()
      requires Core() && Turn()
      ensures nextToRun != null ==> nextToRun.priority == User && nextToRun in userQ.tasks
      ensures osQ.tasks != [] ==> osQ.tasks[0] in osQ.tasks
      ensures userQ.tasks != [] ==> userQ.tasks[0] in userQ.tasks
      ensures forall t {:trigger t in osQ.tasks} :: t in osQ.tasks ==> t.priority == Os
      ensures forall t {:trigger t in userQ.tasks} :: t in userQ.tasks ==> t.priority == User
      ensures actual in osQ.tasks ==> actual !in userQ.tasks && Following(osQ.tasks, actual) == if actual.next != null then actual.next else osQ.tasks[0]
      ensures actual in userQ.tasks ==> Following(userQ.tasks, actual) == if actual.next != null then actual.next else userQ.tasks[0]
      ensures !Runnable(actual) ==> actual.next == null
      ensures actual in osQ.tasks || actual in userQ.tasks ==> (osQ.tasks != [] <==> actual in osQ.tasks)
      ensures actual in userQ.tasks ==> nextToRun == null
    {
      if actual in osQ.tasks { assert osQ.tasks[IndexOf(osQ.tasks, actual)].next == actual.next; }
      if actual in userQ.tasks { assert userQ.tasks[IndexOf(userQ.tasks, actual)].next == actual.next; }
      if actual in sleepQ.tasks { assert sleepQ.tasks[|sleepQ.tasks| - 1].next == actual.next; }
    }

    lemma TurnMeansOne()
      requires Turn()
      ensures OnlyActualRuns()
    {
    }

    /** The first half of `task_switch`: whom to switch to. */
    method FindNext() returns (next: Task)
      requires Valid()
      modifies this`nextToRun, actual`state
      ensures Core() && NobodyRuns()
      ensures actual.state == if old(actual.state) == Running then Ready else old(actual.state)
      ensures next == kernelTask <==> osQ.tasks == [] && userQ.tasks == []
      ensures next == kernelTask ==> Turn()
      ensures next != kernelTask ==> next == old(Successor()) && Runnable(next) && TurnFor(next)
      ensures TurnUsed()
      ensures next != kernelTask ==> next in alive && forall i {:trigger next.kids[i]} :: 0 <= i < |next.kids| ==> next.kids[i] in alive
    {
      hide Waits, WaitsIf, Tree, Queues, Counted, AllQueued, Placed, Successor, Turn, TurnFor, NobodyRuns;
      TurnMeansOne();
      MakeReady();
      next := ChooseNext();
      if next != kernelTask {
        NextIsKnown(next);
      }
    }

    /** `task_switch` */
    method TaskSwitch() returns (r: Outcome)
      requires Valid()
      modifies this`actual, this`nextToRun, this`alive, actual`state
      modifies alive`state, alive`retval, alive`mask, alive`current
      modifies alive`firstChild, alive`lastChild, alive`kids, alive`prevSibling, alive`nextSibling
      ensures Valid() && (r == Switched || r == Idle)
      ensures r == Idle <==> osQ.tasks == [] && userQ.tasks == []
      ensures r == Idle ==> actual == old(actual) && alive == old(alive) && nextToRun == old(nextToRun)
      ensures r == Switched ==> actual == old(Successor()) && Up() && Resumed(actual)
      ensures r == Switched && !old(Runnable(actual)) ==> HeadRuns(old(nextToRun))
      ensures TurnUsed() && alive <= old(alive)
      ensures OthersKept(old(alive), old(actual), if r == Idle then kernelTask else actual)
    {
      hide Core, NobodyRuns, Turn, TurnFor, Successor;
      var next := FindNext();
      if next == kernelTask {
        return Idle;
      }
      Dispatch(next);
      if old(!Runnable(actual)) { SuccessorIsHead(); }
      return Switched;
    }

    // ------------------------------------------------------- changing a task's state

    /** A task that is in no queue can change its state freely. */
    method SetUnqueued(tcb: Task, to: State)
      requires Placed() && !Queued(tcb)
      modifies tcb`state
      ensures Placed() && tcb.state == to
      ensures old(Turn()) ==> Turn()
    {
      tcb.state := to;
    }

    method TakeOut(tcb: Task, to: State)
      requires Queues() && Placed() && Queued(tcb)
      modifies osQ, userQ, sleepQ, osQ.tasks`next, userQ.tasks`next, sleepQ.tasks`next
      modifies osQ.tasks`prev, userQ.tasks`prev, sleepQ.tasks`prev, tcb`state
      ensures Queues() && Placed() && !Queued(tcb) && tcb.next == null && tcb.state == to
      ensures Less(old(osQ.tasks), osQ.tasks, tcb, old(Home(tcb)) == osQ)
      ensures Less(old(userQ.tasks), userQ.tasks, tcb, old(Home(tcb)) == userQ)
      ensures Less(old(sleepQ.tasks), sleepQ.tasks, tcb, old(Home(tcb)) == sleepQ)
    {
      hide Minus, Less, Home;
      RemoveFromQueue(tcb);
      SetUnqueued(tcb, to);
    }

    lemma HomeAsleep(t: Task)
      requires Queues() && Placed() && t in sleepQ.tasks
      ensures Home(t) == sleepQ && osQ != sleepQ && userQ != sleepQ && t.state == Waiting
    {
    }

    lemma HomeRunnable(t: Task)
      requires Queues() && t.state == Ready
      ensures Extended(osQ, t) == osQ.tasks + (if t.priority == Os then [t] else [])
      ensures Extended(userQ, t) == userQ.tasks + (if t.priority == User then [t] else [])
      ensures Extended(sleepQ, t) == sleepQ.tasks
    {
    }

    /** A sleeping task goes to the end of its run queue. */
    method MoveToRun(tcb: Task)
      requires Queues() && Placed() && Counted() && tcb in sleepQ.tasks
      modifies osQ, userQ, sleepQ, osQ.tasks`next, userQ.tasks`next, sleepQ.tasks`next
      modifies osQ.tasks`prev, userQ.tasks`prev, sleepQ.tasks`prev, tcb`state, this`running, this`sleeping
      ensures Queues() && Placed() && Counted() && tcb.state == Ready && tcb.next == null
      ensures Less(old(sleepQ.tasks), sleepQ.tasks, tcb, true)
      ensures osQ.tasks == old(osQ.tasks) + (if tcb.priority == Os then [tcb] else [])
      ensures userQ.tasks == old(userQ.tasks) + (if tcb.priority == User then [tcb] else [])
    {
      hide Queues, Minus, Home, Extended;
      HomeAsleep(tcb);
      TakeOut(tcb, Ready);
      HomeRunnable(tcb);
      running := running + 1;
      sleeping := sleeping - 1;
      AddToQueue(tcb);
    }

    /** A task that could run goes to the end of the sleep queue. */
    method MoveToSleep(tcb: Task)
      requires Queues() && Placed() && Counted() && Runnable(tcb)
      modifies osQ, userQ, sleepQ, osQ.tasks`next, userQ.tasks`next, sleepQ.tasks`next
      modifies osQ.tasks`prev, userQ.tasks`prev, sleepQ.tasks`prev, tcb`state, this`running, this`sleeping
      ensures Queues() && Placed() && Counted() && tcb.state == Waiting && tcb.next == null
      ensures sleepQ.tasks == old(sleepQ.tasks) + [tcb]
      ensures Less(old(osQ.tasks), osQ.tasks, tcb, tcb.priority == Os) && Less(old(userQ.tasks), userQ.tasks, tcb, tcb.priority == User)
    {
      hide Queues, Minus, Home;
      TakeOut(tcb, Waiting);
      running := running - 1;
      sleeping := sleeping + 1;
      AddToQueue(tcb);
    }

    twostate lemma WaitsMoved(x: Task)
      requires var to := x.state; old(WaitsIf(x, to))
      requires x.state != Zombie && old(x.state) != Zombie
      requires alive == old(alive) && reader == old(reader)
      requires forall t {:trigger t in old(sleepQ.tasks)} :: t in old(sleepQ.tasks) && t != x ==> t in sleepQ.tasks
      requires x.state == Waiting ==> x in sleepQ.tasks
      requires forall t {:trigger t in alive} :: t in alive ==>
        && t.mask == old(t.mask) && t.current == old(t.current) && t.wait4 == old(t.wait4) && t.kids == old(t.kids)
        && (t != x ==> t.state == old(t.state))
      ensures Waits()
    {
      forall t | t in alive ensures WaitOk(t) {
        var to := x.state;
        assert if t == x then old(WaitOkIn(t, to)) else old(WaitOk(t));
      }
    }

    /** The half of `sched_set_state` that puts the actual task to sleep. */
    method SleepActual(tcb: Task)
      requires CoreIf(tcb, Waiting) && Turn() && tcb == actual && Runnable(tcb)
      modifies osQ, userQ, sleepQ, osQ.tasks`next, userQ.tasks`next, sleepQ.tasks`next
      modifies osQ.tasks`prev, userQ.tasks`prev, sleepQ.tasks`prev, tcb`state, this`running, this`sleeping
      ensures Valid() && tcb.state == Waiting && sleepQ.tasks == old(sleepQ.tasks) + [tcb]
      ensures Less(old(osQ.tasks), osQ.tasks, tcb, tcb.priority == Os) && Less(old(userQ.tasks), userQ.tasks, tcb, tcb.priority == User)
    {
      hide Queues, Counted, Tree, Placed, Numbered, WaitsIf, Turn, Less, AllQueued;
      ActualIsKnown();
      MoveToSleep(tcb);
      Asleep(tcb);
    }

    lemma ActualIsKnown()
      requires CoreIf(actual, Waiting) && Runnable(actual)
      ensures actual in alive
    {
    }

    twostate lemma Asleep(tcb: Task)
      requires old(CoreIf(tcb, Waiting)) && old(Turn()) && old(Runnable(tcb)) && Queues() && Placed() && Counted() && Tree()
      requires tcb == actual && actual == old(actual) && nextToRun == old(nextToRun) && alive == old(alive) && reader == old(reader) && oldTid == old(oldTid) && ever == old(ever)
      requires sleepQ.tasks == old(sleepQ.tasks) + [tcb] && tcb.state == Waiting
      requires Less(old(osQ.tasks), osQ.tasks, tcb, tcb.priority == Os) && Less(old(userQ.tasks), userQ.tasks, tcb, tcb.priority == User)
      requires forall t {:trigger t in alive} :: t in alive ==>
        && t.mask == old(t.mask) && t.current == old(t.current) && t.wait4 == old(t.wait4) && t.kids == old(t.kids)
        && (t != tcb ==> t.state == old(t.state))
      ensures Valid()
    {
      hide Queues, Tree, Counted, WaitsIf;
      WaitsMoved(tcb);
      TurnAsleep(tcb);
    }

    /** The actual task went to sleep, out of its turn. */
    twostate lemma TurnAsleep(tcb: Task)
      requires old(Turn()) && old(Placed()) && tcb == actual && actual == old(actual) && nextToRun == old(nextToRun)
      requires sleepQ.tasks == old(sleepQ.tasks) + [tcb] && tcb.state == Waiting
      requires Less(old(osQ.tasks), osQ.tasks, tcb, tcb.priority == Os) && Less(old(userQ.tasks), userQ.tasks, tcb, tcb.priority == User)
      requires forall t {:trigger t in old(osQ.tasks)} :: t in old(osQ.tasks) && t != tcb ==> t.state == old(t.state)
      requires forall t {:trigger t in old(userQ.tasks)} :: t in old(userQ.tasks) && t != tcb ==> t.state == old(t.state)
      ensures Turn()
    {
    }

    /** A task woke up; whose turn it is stays well-defined, but it may have to run at once. */
    twostate lemma Awake(tcb: Task)
      requires old(CoreIf(tcb, Ready)) && old(Turn()) && old(tcb in sleepQ.tasks) && Queues() && Placed() && Counted() && Tree()
      requires actual == old(actual) && nextToRun == old(nextToRun) && alive == old(alive) && reader == old(reader) && oldTid == old(oldTid) && ever == old(ever)
      requires Less(old(sleepQ.tasks), sleepQ.tasks, tcb, true) && tcb.state == Ready && tcb.next == null
      requires osQ.tasks == old(osQ.tasks) + (if tcb.priority == Os then [tcb] else [])
      requires userQ.tasks == old(userQ.tasks) + (if tcb.priority == User then [tcb] else [])
      requires old(!Queued(actual)) ==> actual.next == old(actual.next)
      requires forall t {:trigger t in alive} :: t in alive ==>
        && t.mask == old(t.mask) && t.current == old(t.current) && t.wait4 == old(t.wait4) && t.kids == old(t.kids)
        && (t != tcb ==> t.state == old(t.state))
      ensures Core() && OnlyActualRuns() && Runnable(tcb) && tcb != kernelTask
      ensures tcb.priority == User || actual.priority == Os ==> Turn()
      ensures tcb.priority == Os && actual.priority == User ==> actual != tcb && Behind(old(userQ.tasks), actual, actual.next)
      ensures tcb.priority == Os && actual.priority == User && actual.next != null ==> actual.next in userQ.tasks
    {
      hide Queues;
      WaitsMoved(tcb);
      AwakeTurn(tcb);
    }

    twostate lemma AwakeTurn(tcb: Task)
      requires old(Placed()) && old(Queues()) && old(Turn()) && old(tcb in sleepQ.tasks) && Queues() && Placed()
      requires actual == old(actual) && nextToRun == old(nextToRun)
      requires Less(old(sleepQ.tasks), sleepQ.tasks, tcb, true) && tcb.state == Ready && tcb.next == null
      requires osQ.tasks == old(osQ.tasks) + (if tcb.priority == Os then [tcb] else [])
      requires userQ.tasks == old(userQ.tasks) + (if tcb.priority == User then [tcb] else [])
      requires old(!Queued(actual)) ==> actual.next == old(actual.next)
      requires forall t {:trigger t in old(osQ.tasks)} :: t in old(osQ.tasks) ==> t.state == old(t.state)
      requires forall t {:trigger t in old(userQ.tasks)} :: t in old(userQ.tasks) ==> t.state == old(t.state)
      ensures OnlyActualRuns()
      ensures tcb.priority == User || actual.priority == Os ==> Turn()
      ensures tcb.priority == Os && actual.priority == User ==> actual != tcb && Behind(old(userQ.tasks), actual, actual.next)
      ensures tcb.priority == Os && actual.priority == User && actual.next != null ==> actual.next in userQ.tasks
    {
      LastStaysLast(tcb);
      if actual in userQ.tasks {
        assert userQ.tasks[IndexOf(userQ.tasks, actual)].next == actual.next;
      } else if actual in sleepQ.tasks {
        assert sleepQ.tasks[|sleepQ.tasks| - 1].next == actual.next;
      }
    }

    twostate lemma LastStaysLast(tcb: Task)
      requires old(Queues()) && old(tcb in sleepQ.tasks) && Less(old(sleepQ.tasks), sleepQ.tasks, tcb, true)
      requires old(actual in sleepQ.tasks ==> actual == sleepQ.tasks[|sleepQ.tasks| - 1]) && actual == old(actual)
      ensures actual in sleepQ.tasks ==> actual == sleepQ.tasks[|sleepQ.tasks| - 1]
    {
      MinusOf(old(sleepQ.tasks), tcb);
    }

    /** A task of the higher priority takes the processor and leaves the turn to the follower
        of the one it displaces. */
    method Preempt(tcb: Task)
      requires Core() && OnlyActualRuns() && tcb in osQ.tasks && tcb != kernelTask && tcb != actual && tcb.priority == Os
      requires actual.next != null ==> actual.next in userQ.tasks
      modifies this`actual, this`nextToRun, this`alive, actual`state, tcb`state, tcb`retval, tcb`mask, tcb`current
      modifies tcb`firstChild, tcb`lastChild, tcb`kids, tcb.kids`prevSibling, tcb.kids`nextSibling
      ensures Valid() && actual == tcb && Up() && Resumed(tcb) && nextToRun == old(actual.next)
    {
      hide Core, OnlyActualRuns, Turn;
      nextToRun := actual.next;
      var r := TaskSwitchTo(tcb);
    }

    /** The half of `sched_set_state` that wakes a task; one of the higher priority takes the
        processor at once and leaves the turn to the follower of the one it displaced. */
    method WakeUp(tcb: Task) returns (switched: bool)
      requires CoreIf(tcb, Ready) && Turn() && tcb in sleepQ.tasks
      modifies osQ, userQ, sleepQ, osQ.tasks`next, userQ.tasks`next, sleepQ.tasks`next
      modifies osQ.tasks`prev, userQ.tasks`prev, sleepQ.tasks`prev, tcb`state, this`running, this`sleeping
      modifies this`actual, this`nextToRun, this`alive, actual`state, tcb`retval, tcb`mask, tcb`current
      modifies tcb`firstChild, tcb`lastChild, tcb`kids, tcb.kids`prevSibling, tcb.kids`nextSibling
      ensures Valid() && Less(old(sleepQ.tasks), sleepQ.tasks, tcb, true)
      ensures osQ.tasks == old(osQ.tasks) + (if tcb.priority == Os then [tcb] else [])
      ensures userQ.tasks == old(userQ.tasks) + (if tcb.priority == User then [tcb] else [])
      ensures switched <==> tcb.priority == Os && old(actual).priority == User
      ensures !switched && actual != tcb ==> actual.state == old(actual.state)
      ensures !switched ==> tcb.state == Ready && actual == old(actual) && alive == old(alive)
      ensures !switched ==> tcb.current == old(tcb.current) && tcb.mask == old(tcb.mask)
      ensures switched ==> Up() && actual == tcb && Resumed(tcb) && Behind(old(userQ.tasks), old(actual), nextToRun)
      ensures !switched ==> nextToRun == old(nextToRun)
    {
      hide Queues, Placed, Counted, Numbered, WaitsIf, Tree, AllQueued, Less, Turn, OnlyActualRuns;
      MoveToRun(tcb);
      Awake(tcb);
      switched := tcb.priority == Os && actual.priority == User;
      if switched {
        Preempt(tcb);
      }
    }

    /** `sched_set_state` as it is called: anybody may be woken, only the actual task sleeps. */
    method SetState(id: nat, mode: bool, ghost tcb: Task) returns (switched: bool)
      requires Queued(tcb) && tcb.id == id && Turn()
      requires mode ==> if tcb.state == Waiting then CoreIf(tcb, Ready) else Core()
      requires !mode ==> tcb == actual && if tcb.state != Waiting then CoreIf(tcb, Waiting) else Core()
      modifies osQ, userQ, sleepQ, osQ.tasks`next, userQ.tasks`next, sleepQ.tasks`next
      modifies osQ.tasks`prev, userQ.tasks`prev, sleepQ.tasks`prev, tcb`state, this`running, this`sleeping
      modifies this`actual, this`nextToRun, this`alive, actual`state, tcb`retval, tcb`mask, tcb`current
      modifies tcb`firstChild, tcb`lastChild, tcb`kids, tcb.kids`prevSibling, tcb.kids`nextSibling
      ensures Valid()
      ensures old(tcb.state) == (if mode then Waiting else Running) ==>
        && sleepQ.tasks == (if mode then old(Minus(sleepQ.tasks, tcb)) else old(sleepQ.tasks) + [tcb])
        && osQ.tasks == old(if tcb.priority != Os then osQ.tasks else if mode then osQ.tasks + [tcb] else Minus(osQ.tasks, tcb))
        && userQ.tasks == old(if tcb.priority != User then userQ.tasks else if mode then userQ.tasks + [tcb] else Minus(userQ.tasks, tcb))
      ensures old(tcb.state) == (if mode then Waiting else Running) && !switched ==> tcb.state == if mode then Ready else Waiting
      ensures switched <==> mode && old(tcb.state) == Waiting && tcb.priority == Os && old(actual).priority == User
      ensures !switched ==> actual == old(actual) && alive == old(alive) && tcb.current == old(tcb.current) && tcb.mask == old(tcb.mask)
      ensures !switched && actual != tcb ==> actual.state == old(actual.state)
      ensures switched ==> Up() && actual == tcb && Resumed(tcb) && Behind(old(userQ.tasks), old(actual), nextToRun)
      ensures !switched ==> nextToRun == old(nextToRun)
    {
      hide Queues, Placed, Counted, Numbered, WaitsIf, Tree, AllQueued, Turn;
      var t := GetTcb(id);
      OneNumber(t, tcb);
      if (t.state == Ready || t.state == Running) && mode {
        return false;
      }
      if t.state == Waiting && !mode {
        return false;
      }
      if mode {
        switched := WakeUp(t);
      } else {
        SleepActual(t);
        switched := false;
      }
    }

    lemma OneNumber(t: Task?, u: Task)
      requires Queues() && Placed() && Numbered() && Queued(u)
      requires t == null ==> !Known(u.id)
      requires t != null ==> Queued(t) && t.id == u.id
      ensures t == u && u.state != Zombie && (u.state == Waiting <==> u in sleepQ.tasks)
    {
    }

    // ------------------------------------------------------------- exit and waitpid

    /** `sched_remove` of a task that is in a queue. */
    method SchedRemove(tcb: Task)
      requires Queues() && Placed() && Counted() && Queued(tcb)
      modifies osQ, userQ, sleepQ, osQ.tasks`next, userQ.tasks`next, sleepQ.tasks`next
      modifies osQ.tasks`prev, userQ.tasks`prev, sleepQ.tasks`prev, this`total, this`running, this`sleeping
      ensures Queues() && Placed() && Counted() && !Queued(tcb) && tcb.next == null
      ensures Less(old(osQ.tasks), osQ.tasks, tcb, Home(tcb) == osQ)
      ensures Less(old(userQ.tasks), userQ.tasks, tcb, Home(tcb) == userQ)
      ensures Less(old(sleepQ.tasks), sleepQ.tasks, tcb, Home(tcb) == sleepQ)
    {
      hide Queues, Placed, Less, Home;
      QueuedState(tcb);
      total := total - 1;
      if tcb.state != Zombie {
        if tcb.state == Running || tcb.state == Ready {
          running := running - 1;
        } else {
          sleeping := sleeping - 1;
        }
        RemoveFromQueue(tcb);
      }
    }

    lemma QueuedState(t: Task)
      requires Queues() && Placed() && Queued(t)
      ensures t.state != Zombie && (t.state == Waiting <==> Home(t) == sleepQ)
      ensures if Home(t) == sleepQ then |sleepQ.tasks| > 0 else |osQ.tasks| + |userQ.tasks| > 0
    {
    }

    /** `sig_send` of SIGCHLD. */
    method SendChildSignal(dst: Task)
      modifies dst`current
      ensures Has(dst.mask, SIGCHLD) ==> Has(dst.current, SIGCHLD)
      ensures !Has(dst.mask, SIGCHLD) ==> dst.current == old(dst.current)
    {
      if Has(dst.mask, SIGCHLD) {
        MarkSets(dst.current);
        dst.current := Marked(dst.current, SIGCHLD);
      }
    }

    /** The exiting task has left its queue; it still runs on the processor. */
    ghost predicate Leaving(t: Task)
      reads this, osQ, userQ, sleepQ, osQ.tasks, userQ.tasks, sleepQ.tasks, alive, actual
    {
      && t == actual && t in alive && t.state == Running && t.kids == [] && !Queued(t) && t.next == null
      && Queues() && Placed() && Counted() && Numbered() && Tree() && Turn() && Waits()
      && (forall u {:trigger u in alive} :: u in alive && u.state != Zombie && u != t ==> Queued(u))
    }

    /** The first lines of `do_exit`. */
    method Leave(t: Task, status: int)
      requires Valid() && t == actual && t.state == Running && Runnable(t) && t.kids == []
      modifies osQ, userQ, sleepQ, osQ.tasks`next, userQ.tasks`next, sleepQ.tasks`next
      modifies osQ.tasks`prev, userQ.tasks`prev, sleepQ.tasks`prev, this`total, this`running, this`sleeping, t`exitCode
      ensures Leaving(t) && t.exitCode == status && sleepQ.tasks == old(sleepQ.tasks)
      ensures Less(old(osQ.tasks), osQ.tasks, t, Home(t) == osQ) && Less(old(userQ.tasks), userQ.tasks, t, Home(t) == userQ)
    {
      hide Queues, Placed, Counted, Valid, Tree, Leaving, Less, Home;
      ActualLives();
      SchedRemove(t);
      t.exitCode := status;
      Left(t);
    }

    lemma ActualLives()
      requires Valid() && Runnable(actual)
      ensures actual in alive && Queues() && Placed() && Counted() && Tree()
    {
    }

    twostate lemma Left(t: Task)
      requires old(Valid()) && t == actual && old(Runnable(t)) && t.state == Running && t.kids == [] && t.next == null
      requires Queues() && Placed() && Counted() && Tree() && !Queued(t)
      requires actual == old(actual) && nextToRun == old(nextToRun) && alive == old(alive) && reader == old(reader) && oldTid == old(oldTid) && ever == old(ever)
      requires Less(old(osQ.tasks), osQ.tasks, t, Home(t) == osQ) && Less(old(userQ.tasks), userQ.tasks, t, Home(t) == userQ)
      requires Less(old(sleepQ.tasks), sleepQ.tasks, t, Home(t) == sleepQ)
      requires forall u {:trigger u in alive} :: u in alive ==>
        && u.mask == old(u.mask) && u.current == old(u.current) && u.wait4 == old(u.wait4) && u.kids == old(u.kids) && u.state == old(u.state)
      ensures Leaving(t) && sleepQ.tasks == old(sleepQ.tasks)
    {
      hide WaitsIf, Queues, Counted, Tree, Turn, Placed, AllQueued, Less;
      LeftTurn(t);
      LeftQueued(t);
      WaitsReady();
    }

    twostate lemma LeftQueued(t: Task)
      requires old(Numbered()) && old(AllQueued()) && t in alive && old(Runnable(t))
      requires alive == old(alive) && oldTid == old(oldTid) && ever == old(ever)
      requires Less(old(osQ.tasks), osQ.tasks, t, Home(t) == osQ) && Less(old(userQ.tasks), userQ.tasks, t, Home(t) == userQ)
      requires Less(old(sleepQ.tasks), sleepQ.tasks, t, Home(t) == sleepQ)
      requires forall u {:trigger u in alive} :: u in alive ==> u.wait4 == old(u.wait4) && u.state == old(u.state)
      ensures Numbered()
      ensures forall u {:trigger u in alive} :: u in alive && u.state != Zombie && u != t ==> Queued(u)
    {
    }

    twostate lemma LeftTurn(t: Task)
      requires old(Placed()) && old(Turn()) && t == actual && old(Runnable(t)) && t.state == Running && t.next == null && old(t.state) == Running
      requires !Queued(t) && actual == old(actual) && nextToRun == old(nextToRun)
      requires Less(old(osQ.tasks), osQ.tasks, t, Home(t) == osQ) && Less(old(userQ.tasks), userQ.tasks, t, Home(t) == userQ)
      requires Less(old(sleepQ.tasks), sleepQ.tasks, t, Home(t) == sleepQ)
      requires forall u {:trigger u in old(osQ.tasks)} :: u in old(osQ.tasks) ==> u.state == old(u.state)
      requires forall u {:trigger u in old(userQ.tasks)} :: u in old(userQ.tasks) ==> u.state == old(u.state)
      ensures Turn() && sleepQ.tasks == old(sleepQ.tasks)
    {
    }

    /** `task_switch_to(sched_get_next_task())`, from a task that has left its queue. */
    method SwitchAway() returns (r: Outcome)
      requires Core() && Turn() && !Queued(actual)
      modifies this`actual, this`nextToRun, this`alive, actual`state, kernelTask`state
      modifies alive`state, alive`retval, alive`mask, alive`current
      modifies alive`firstChild, alive`lastChild, alive`kids, alive`prevSibling, alive`nextSibling
      ensures r == EndOfTasks || r == Switched
      ensures r == EndOfTasks <==> osQ.tasks == [] && userQ.tasks == []
      ensures r == Switched ==> Valid() && HeadRuns(old(nextToRun)) && Up() && Resumed(actual)
      ensures r == Switched ==> OthersKept(old(alive), old(actual), actual)
    {
      hide Core, Turn, TurnFor, OnlyActualRuns, Successor;
      var next := PickNext();
      r := TaskSwitchTo(next);
      if r == Switched { SuccessorIsHead(); }
    }

    method PickNext() returns (next: Task)
      requires Core() && Turn() && !Queued(actual)
      modifies this`nextToRun
      ensures Core() && OnlyActualRuns()
      ensures next == kernelTask <==> osQ.tasks == [] && userQ.tasks == []
      ensures next != kernelTask ==> next == old(Successor()) && Runnable(next) && TurnFor(next)
      ensures TurnUsed()
      ensures next != kernelTask ==> next in alive && forall i {:trigger next.kids[i]} :: 0 <= i < |next.kids| ==> next.kids[i] in alive
    {
      hide Queues, Counted, WaitsIf, Tree, AllQueued;
      FollowersLinked();
      next := GetNextTask();
      if next != kernelTask {
        NextIsKnown(next);
      }
    }

    /** A task has gone for good that nobody's bookkeeping still needs. */
    twostate lemma Gone(t: Task)
      requires old(Leaving(t)) && Tree() && alive == old(alive) - {t}
      requires actual == old(actual) && nextToRun == old(nextToRun) && reader == old(reader) && oldTid == old(oldTid) && ever == old(ever)
      requires osQ.tasks == old(osQ.tasks) && userQ.tasks == old(userQ.tasks) && sleepQ.tasks == old(sleepQ.tasks)
      requires Queues() && Counted() && Placed() && Turn()
      requires forall u {:trigger u in alive} :: u in alive ==>
        && u.mask == old(u.mask) && u.current == old(u.current) && u.wait4 == old(u.wait4) && u.state == old(u.state)
        && (u != t.parent ==> u.kids == old(u.kids))
      requires old(t.parent != null ==> t in t.parent.kids)
      ensures Core()
    {
      forall u | u in alive ensures WaitOk(u) {
        assert old(WaitOk(u));
      }
    }

    /** The end of an exit that nobody waits for: the task is destroyed. */
    method ExitGone(t: Task) returns (r: Outcome)
      requires Leaving(t) && t.id != 1
      modifies this`actual, this`nextToRun, this`alive, kernelTask`state, alive`state, alive`retval, alive`mask, alive`current
      modifies alive`firstChild, alive`lastChild, alive`kids, alive`prevSibling, alive`nextSibling
      ensures r == EndOfTasks || r == Switched
      ensures r == EndOfTasks <==> osQ.tasks == [] && userQ.tasks == []
      ensures r == Switched ==> Valid() && t !in alive && HeadRuns(old(nextToRun)) && Up() && alive <= old(alive)
    {
      hide Leaving, Core, Turn, Successor, OthersKept, Tree, Queues, Placed, Counted;
      ParentLives(t);
      TaskDestroy(t, t.parent);
      Gone(t);
      r := SwitchAway();
    }

    lemma ParentLives(t: Task)
      requires Leaving(t) && t.id != 1
      ensures Queues() && Counted() && Placed() && Turn()
      ensures Tree() && t in alive && t.kids == [] && t == actual && !Queued(t)
      ensures t.parent != null && t.parent in alive && t in t.parent.kids
      ensures t.parent.wait4 != null && t.parent.wait4.id == t.id ==> t.parent.wait4 == t
      ensures forall i {:trigger t.parent.kids[i]} :: 0 <= i < |t.parent.kids| ==> t.parent.kids[i] in alive
    {
      assert ParentOk(t);
    }

    /** The exiting task becomes a zombie and its parent is sent the signal. */
    method Announce(t: Task, parent: Task)
      requires Leaving(t) && t.id != 1 && t.parent == parent && parent.wait4 == t
      modifies t`state, parent`current
      ensures CoreIf(parent, Ready) && Turn() && parent in alive && parent != t && parent in sleepQ.tasks
      ensures parent.state == Waiting && Has(parent.current, SIGCHLD) && t.state == Zombie && t in alive
    {
      hide Leaving, CoreIf, Turn, Queues, Placed, Counted, Tree, Numbered;
      WaitingParent(t);
      SetUnqueued(t, Zombie);
      SendChildSignal(parent);
      Announced(t);
    }

    /** A parent whose awaited child is alive sleeps, and wants to hear of it. */
    lemma WaitingParent(t: Task)
      requires Leaving(t) && t.id != 1 && t.parent != null && t.parent.wait4 == t
      ensures t.parent in alive && t.parent != t && t in alive && t == actual && !Queued(t)
      ensures t.parent.state == Waiting && t.parent in sleepQ.tasks && Has(t.parent.mask, SIGCHLD)
      ensures Queues() && Placed() && Counted() && Numbered() && Tree() && Turn()
    {
      assert ParentOk(t) && WaitOk(t.parent);
    }

    twostate lemma Announced(t: Task)
      requires old(Leaving(t)) && t.id != 1 && t.parent != null && old(t.parent.wait4) == t && t.parent.wait4 == t
      requires t.parent in alive && t.parent != t && t.parent in sleepQ.tasks && t.parent.state == Waiting && Has(t.parent.mask, SIGCHLD)
      requires t.state == Zombie && Has(t.parent.current, SIGCHLD)
      requires Queues() && Placed() && Counted() && Numbered() && Tree() && alive == old(alive) && reader == old(reader)
      requires osQ.tasks == old(osQ.tasks) && userQ.tasks == old(userQ.tasks) && sleepQ.tasks == old(sleepQ.tasks)
      requires forall u {:trigger u in alive} :: u in alive ==>
        && u.mask == old(u.mask) && u.wait4 == old(u.wait4) && u.kids == old(u.kids)
        && (u != t ==> u.state == old(u.state)) && (u != t.parent ==> u.current == old(u.current))
      ensures CoreIf(t.parent, Ready)
    {
      forall u | u in alive ensures if u == t.parent then WaitOkIn(u, Ready) else WaitOk(u) {
        assert old(WaitOk(u));
      }
    }

    /** The parent p has been told that t ended: either it runs already, with t's exit code,
        and t is gone, or it is ready to run and will find t, a zombie, when it does. */
    ghost predicate Heard(p: Task, t: Task)
      reads this`actual, this`alive, osQ`tasks, userQ`tasks, p`state, p`retval, p`mask, p`current, p`wait4, t`state, t`exitCode
    {
      if actual == p
      then p.retval == t.exitCode && t !in alive && !Has(p.mask, SIGCHLD) && !Has(p.current, SIGCHLD)
      else p.state == Ready && Runnable(p) && Has(p.current, SIGCHLD) && p.wait4 == t && t in alive && t.state == Zombie
    }

    /** The end of an exit that the parent waits for. */
    method ExitTold(t: Task, parent: Task)
      requires Leaving(t) && t.id != 1 && t.parent == parent && parent.wait4 == t
      modifies this`actual, this`nextToRun, this`alive, kernelTask`state, alive`state, alive`retval, alive`mask, alive`current
      modifies alive`firstChild, alive`lastChild, alive`kids, alive`prevSibling, alive`nextSibling
      modifies osQ, userQ, sleepQ, osQ.tasks`next, userQ.tasks`next, sleepQ.tasks`next
      modifies osQ.tasks`prev, userQ.tasks`prev, sleepQ.tasks`prev, this`running, this`sleeping
      ensures Valid() && Up() && alive <= old(alive) && Heard(parent, t) && sleepQ.tasks == old(Minus(sleepQ.tasks, parent))
      ensures HeadRuns(old(nextToRun)) && old(userQ.tasks) <= userQ.tasks
    {
      hide Leaving, CoreIf, Turn, Heard, Minus;
      WaitingParent(t);
      Announce(t, parent);
      var switched := Notify(t, parent);
      if !switched {
        LetRun(t, parent);
      }
    }

    lemma KidsKnown(p: Task, x: Task?, s: State)
      requires CoreIf(x, s) && p in alive
      ensures forall i {:trigger p.kids[i]} :: 0 <= i < |p.kids| ==> p.kids[i] in alive
    {
    }

    lemma NotQueued(t: Task)
      requires Placed() && t.state == Zombie
      ensures !Queued(t)
    {
    }

    method Notify(t: Task, parent: Task) returns (switched: bool)
      requires CoreIf(parent, Ready) && Turn() && parent in alive && parent != t && parent in sleepQ.tasks
      requires parent.state == Waiting && Has(parent.current, SIGCHLD) && parent.wait4 == t && t in alive && t.state == Zombie && t == actual
      modifies this`actual, this`nextToRun, this`alive, alive`state, alive`retval, alive`mask, alive`current
      modifies alive`firstChild, alive`lastChild, alive`kids, alive`prevSibling, alive`nextSibling
      modifies osQ, userQ, sleepQ, osQ.tasks`next, userQ.tasks`next, sleepQ.tasks`next
      modifies osQ.tasks`prev, userQ.tasks`prev, sleepQ.tasks`prev, this`running, this`sleeping
      ensures Valid() && sleepQ.tasks == old(Minus(sleepQ.tasks, parent)) && old(userQ.tasks) <= userQ.tasks
      ensures if switched then HeadRuns(old(nextToRun)) else nextToRun == old(nextToRun)
      ensures switched ==> Up() && alive <= old(alive) && Heard(parent, t)
      ensures !switched ==> alive == old(alive) && actual == t && !Queued(t) && Runnable(parent) && parent.state == Ready && Has(parent.current, SIGCHLD) && t in alive && t.state == Zombie
    {
      hide Queues, Counted, Numbered, WaitsIf, Tree, AllQueued, Turn, Placed, Minus;
      KidsKnown(parent, parent, Ready);
      NotQueued(t);
      LowTurn();
      switched := SetState(parent.id, true, parent);
      if !switched { NotQueued(t); }
    }

    /** While a task of the low priority is the actual one, none of the high priority is ready
        and no turn is kept. */
    lemma LowTurn()
      requires Turn()
      ensures actual.priority == User ==> osQ.tasks == [] && nextToRun == null
    {
    }

    /** The processor goes to the next task, which may be the parent. */
    method LetRun(t: Task, parent: Task)
      requires Valid() && t == actual && t.state == Zombie && t in alive && !Queued(t)
      requires parent in alive && parent != t && Runnable(parent) && parent.state == Ready && Has(parent.current, SIGCHLD) && parent.wait4 == t
      modifies this`actual, this`nextToRun, this`alive, kernelTask`state, alive`state, alive`retval, alive`mask, alive`current
      modifies alive`firstChild, alive`lastChild, alive`kids, alive`prevSibling, alive`nextSibling
      ensures Valid() && Up() && alive <= old(alive) && Heard(parent, t) && HeadRuns(old(nextToRun))
    {
      hide Queues, Counted, Numbered, Tree, AllQueued, Turn, Placed;
      var r := SwitchAway();
      StillTold(parent);
    }

    lemma StillTold(p: Task)
      requires Core() && p in alive
      ensures Has(p.current, SIGCHLD) ==> Told(p)
    {
      assert WaitOk(p);
    }

    /** The first task of all is not destroyed, it only never runs again. */
    method ExitRoot(t: Task) returns (r: Outcome)
      requires Leaving(t) && t.id == 1
      modifies this`actual, this`nextToRun, this`alive, kernelTask`state, alive`state, alive`retval, alive`mask, alive`current
      modifies alive`firstChild, alive`lastChild, alive`kids, alive`prevSibling, alive`nextSibling
      ensures r == EndOfTasks || r == Switched
      ensures r == EndOfTasks <==> osQ.tasks == [] && userQ.tasks == []
      ensures r == Switched ==> Valid() && t !in alive && HeadRuns(old(nextToRun)) && Up() && alive <= old(alive)
    {
      hide Leaving, Core, Turn, Successor, OthersKept, Tree;
      RootLeaves(t);
      alive := alive - {t};
      RootGone(t);
      r := SwitchAway();
    }

    lemma RootLeaves(t: Task)
      requires Leaving(t) && t.id == 1
      ensures Queues() && Counted() && Placed() && Turn() && t == actual && t in alive && !Queued(t) && t.parent == null
    {
      assert ParentOk(t);
    }

    twostate lemma RootGone(t: Task)
      requires old(Leaving(t)) && t.id == 1 && t.parent == null && alive == old(alive) - {t}
      requires actual == old(actual) && nextToRun == old(nextToRun) && reader == old(reader) && oldTid == old(oldTid) && ever == old(ever)
      requires osQ.tasks == old(osQ.tasks) && userQ.tasks == old(userQ.tasks) && sleepQ.tasks == old(sleepQ.tasks)
      requires Queues() && Counted() && Placed() && Turn()
      requires forall u {:trigger u in alive} :: u in alive ==>
        && u.mask == old(u.mask) && u.current == old(u.current) && u.wait4 == old(u.wait4) && u.state == old(u.state) && u.kids == old(u.kids)
      requires forall p {:trigger p.KidsLinked()} :: p in alive && old(p.KidsLinked()) ==> p.KidsLinked()
      ensures Core()
    {
      forall p | p in alive ensures Family(p) {
        assert old(Family(p));
      }
      forall c | c in alive ensures ParentOk(c) {
        assert old(ParentOk(c));
      }
      Gone(t);
    }

    /** `do_exit` of the actual task, which has no children left.  A parent that waits for it
        hears of it; otherwise it is destroyed at once.  The kernel panics exactly if nobody
        is left to run. */
    method DoExit(t: Task, status: int) returns (r: Outcome)
      requires Valid() && t == actual && t.state == Running && Runnable(t) && t.kids == []
      modifies osQ, userQ, sleepQ, osQ.tasks`next, userQ.tasks`next, sleepQ.tasks`next
      modifies osQ.tasks`prev, userQ.tasks`prev, sleepQ.tasks`prev, this`total, this`running, this`sleeping, t`exitCode
      modifies this`actual, this`nextToRun, this`alive, kernelTask`state, alive`state, alive`retval, alive`mask, alive`current
      modifies alive`firstChild, alive`lastChild, alive`kids, alive`prevSibling, alive`nextSibling
      ensures r == EndOfTasks || r == Switched
      ensures t.exitCode == status
      ensures r == EndOfTasks <==> !old(Awaited(t)) && old(|osQ.tasks| + |userQ.tasks|) == 1
      ensures r == Switched ==> Valid() && Up() && alive <= old(alive)
      ensures r == Switched && old(Awaited(t)) ==> Heard(t.parent, t) && sleepQ.tasks == old(Minus(sleepQ.tasks, t.parent))
      ensures r == Switched && !old(Awaited(t)) ==> t !in alive && sleepQ.tasks == old(sleepQ.tasks)
      ensures r == Switched ==> HeadRuns(old(nextToRun)) && (t.priority == Os ==> old(userQ.tasks) <= userQ.tasks)
    {
      hide Leaving, Valid, Less, Heard, Minus, Successor, Queues, Placed, Counted, Tree, Home, Up;
      var parent := t.parent;
      Leave(t, status);
      QueuesShrank(t, old(osQ.tasks), old(userQ.tasks));
      if t.id == 1 {
        r := ExitRoot(t);
        return;
      }
      ParentLives(t);
      if parent.wait4 != null {
        if parent.wait4.id == t.id {
          ExitTold(t, parent);
          return Switched;
        }
      }
      r := ExitGone(t);
    }

    /** The parent of t waits for t. */
    ghost predicate Awaited(t: Task)
      reads t.parent
    {
      t.parent != null && t.id != 1 && t.parent.wait4 != null && t.parent.wait4.id == t.id
    }

    lemma QueuesShrank(t: Task, os: seq<Task>, user: seq<Task>)
      requires Less(os, osQ.tasks, t, Home(t) == osQ) && Less(user, userQ.tasks, t, Home(t) == userQ)
      requires Leaving(t)
      ensures osQ.tasks == [] && userQ.tasks == [] <==> |os| + |user| == 1
      ensures forall i {:trigger osQ.tasks[i]} :: 0 <= i < |osQ.tasks| ==> osQ.tasks[i] in os
      ensures forall i {:trigger userQ.tasks[i]} :: 0 <= i < |userQ.tasks| ==> userQ.tasks[i] in user
      ensures t.priority == Os ==> userQ.tasks == user
    {
    }

    /** Puts the actual task to sleep and lets the next one run. */
    method SleepAndSwitch(t: Task) returns (r: Outcome)
      requires CoreIf(t, Waiting) && Turn() && t == actual && t.state == Running && Runnable(t)
      modifies osQ, userQ, sleepQ, osQ.tasks`next, userQ.tasks`next, sleepQ.tasks`next
      modifies osQ.tasks`prev, userQ.tasks`prev, sleepQ.tasks`prev, this`running, this`sleeping
      modifies this`actual, this`nextToRun, this`alive, alive`state, alive`retval, alive`mask, alive`current
      modifies alive`firstChild, alive`lastChild, alive`kids, alive`prevSibling, alive`nextSibling
      ensures Valid() && (r == Switched || r == Idle) && sleepQ.tasks == old(sleepQ.tasks) + [t]
      ensures actual in alive && alive <= old(alive)
      ensures r == Idle <==> old(|osQ.tasks| + |userQ.tasks|) == 1
      ensures t in alive && t.state == Waiting && t.mask == old(t.mask) && (r == Switched ==> actual != t)
      ensures if r == Switched then HeadRuns(old(nextToRun)) else actual == t && nextToRun == old(nextToRun)
      ensures t.priority == Os ==> userQ.tasks == old(userQ.tasks)
    {
      hide CoreIf, Turn, Minus, TurnUsed, HeadRuns, Successor;
      KnownAsleep(t);
      var switched := SetState(t.id, false, t);
      OneFewer(old(osQ.tasks), old(userQ.tasks), t);
      r := TaskSwitch();
      StillAsleep(t);
    }

    lemma KnownAsleep(t: Task)
      requires CoreIf(t, Waiting) && Turn() && t == actual && t.state == Running && Runnable(t)
      ensures t != kernelTask && t in alive && forall i {:trigger t.kids[i]} :: 0 <= i < |t.kids| ==> t.kids[i] in alive
      ensures Distinct(osQ.tasks) && Distinct(userQ.tasks)
      ensures t.priority == Os ==> t in osQ.tasks && t !in userQ.tasks
      ensures t.priority == User ==> t in userQ.tasks && t !in osQ.tasks
    {
    }

    lemma {:induction false} OneFewer(os: seq<Task>, user: seq<Task>, t: Task)
      requires Distinct(os) && Distinct(user) && if t.priority == Os then t in os else t in user
      ensures |(if t.priority == Os then Minus(os, t) else os)| + |(if t.priority == User then Minus(user, t) else user)| == |os| + |user| - 1
      ensures forall i {:trigger Minus(os, t)[i]} :: t.priority == Os && 0 <= i < |Minus(os, t)| ==> Minus(os, t)[i] in os
      ensures forall i {:trigger Minus(user, t)[i]} :: t.priority == User && 0 <= i < |Minus(user, t)| ==> Minus(user, t)[i] in user
      ensures t !in if t.priority == Os then Minus(os, t) else Minus(user, t)
    {
      if t.priority == Os { MinusOf(os, t); } else { MinusOf(user, t); }
    }

    lemma StillAsleep(t: Task)
      requires Core() && t in sleepQ.tasks
      ensures t in alive && t.state == Waiting
    {
    }

    /** `do_waitpid`: it fails, without effect, exactly if no task in a queue has this number;
        otherwise the caller sleeps. */
    method DoWaitpid(t: Task, pid: nat) returns (r: int)
      requires Valid() && t == actual && t.state == Running && Runnable(t)
      modifies osQ, userQ, sleepQ, osQ.tasks`next, userQ.tasks`next, sleepQ.tasks`next
      modifies osQ.tasks`prev, userQ.tasks`prev, sleepQ.tasks`prev, this`running, this`sleeping, t`wait4
      modifies this`actual, this`nextToRun, this`alive, alive`state, alive`retval, alive`mask, alive`current
      modifies alive`firstChild, alive`lastChild, alive`kids, alive`prevSibling, alive`nextSibling
      ensures Valid() && actual in alive && alive <= old(alive)
      ensures r == if old(Known(pid)) then 0 else -1
      ensures r == -1 ==> sleepQ.tasks == old(sleepQ.tasks) && actual == t && t.state == Running && t.wait4 == old(t.wait4)
      ensures r == 0 ==> sleepQ.tasks == old(sleepQ.tasks) + [t] && t in alive && t.state == Waiting && Has(t.mask, SIGCHLD)
      ensures r == 0 ==> t.wait4 != null && t.wait4.id == pid && (t.wait4.parent == t ==> Awaited(t.wait4))
      ensures if r == 0 && actual != t then HeadRuns(old(nextToRun)) else actual == t && nextToRun == old(nextToRun)
      ensures t.priority == Os ==> userQ.tasks == old(userQ.tasks)
    {
      hide CoreIf, Turn;
      AllKnown(t);
      var tcb := GetTcb(pid);
      if tcb == null {
        return -1;
      }
      Expect(t, tcb);
      var next := SleepAndSwitch(t);
      r := 0;
    }

    lemma AllKnown(t: Task)
      requires Valid() && t == actual && Runnable(t)
      ensures Queues() && t in alive
      ensures forall u {:trigger u in alive} :: u in alive && u.id == 1 ==> u.parent == null
      ensures forall u {:trigger Queued(u)} :: Queued(u) ==> u in alive
    {
      forall u | u in alive && u.id == 1 ensures u.parent == null {
        assert ParentOk(u);
      }
    }

    /** The caller notes whom it waits for. */
    method Expect(t: Task, tcb: Task)
      requires Valid() && t == actual && t.state == Running && Runnable(t) && Queued(tcb)
      modifies t`wait4, t`mask
      ensures CoreIf(t, Waiting) && Turn() && t.wait4 == tcb && Has(t.mask, SIGCHLD)
    {
      hide WaitsIf, Numbered, Queues, Tree, Counted, AllQueued, Turn, Placed;
      t.wait4 := tcb;
      MarkSets(t.mask);
      t.mask := Marked(t.mask, SIGCHLD);
      Expecting(t);
    }

    twostate lemma Expecting(t: Task)
      requires old(Valid()) && t == actual && t.state == Running && old(Runnable(t)) && actual == old(actual)
      requires t.wait4 != null && Queued(t.wait4) && Has(t.mask, SIGCHLD) && t.current == old(t.current)
      requires alive == old(alive) && reader == old(reader) && sleepQ.tasks == old(sleepQ.tasks) && osQ.tasks == old(osQ.tasks)
      requires userQ.tasks == old(userQ.tasks) && ever == old(ever) && oldTid == old(oldTid)
      requires forall u {:trigger u in alive} :: u in alive ==>
        && u.state == old(u.state) && u.current == old(u.current) && u.kids == old(u.kids)
        && (u != t ==> u.mask == old(u.mask) && u.wait4 == old(u.wait4))
      ensures WaitsIf(t, Waiting) && Numbered()
    {
      forall u | u in alive ensures if u == t then WaitOkIn(u, Waiting) else WaitOk(u) {
        assert old(WaitOk(u));
      }
    }

    // ------------------------------------------------------------- reading the terminal

    /** `_stdin_read`: the caller sleeps until a line is entered. */
    method StdinRead() returns (r: Outcome)
      requires Valid() && actual.state == Running && Runnable(actual)
      modifies osQ, userQ, sleepQ, osQ.tasks`next, userQ.tasks`next, sleepQ.tasks`next
      modifies osQ.tasks`prev, userQ.tasks`prev, sleepQ.tasks`prev, this`running, this`sleeping, this`reader
      modifies this`actual, this`nextToRun, this`alive, alive`state, alive`retval, alive`mask, alive`current
      modifies alive`firstChild, alive`lastChild, alive`kids, alive`prevSibling, alive`nextSibling
      ensures Valid() && reader == old(actual) && sleepQ.tasks == old(sleepQ.tasks) + [old(actual)]
      ensures actual in alive && alive <= old(alive)
      ensures if r == Switched then HeadRuns(old(nextToRun)) else actual == old(actual) && nextToRun == old(nextToRun)
      ensures old(actual).priority == Os ==> userQ.tasks == old(userQ.tasks)
    {
      hide Core, Turn, HeadRuns, WaitsIf, Tree, Queues, Placed, Counted, Numbered, AllQueued;
      ReaderMaySleep();
      reader := actual;
      ReaderWaits();
      r := SleepAndSwitch(actual);
    }

    lemma ReaderMaySleep()
      requires Valid() && actual.state == Running && Runnable(actual)
      ensures actual in alive && WaitOkIn(actual, Waiting) && !Has(actual.mask, SIGCHLD) && Core() && Turn()
      ensures Queues() && Placed() && Counted() && Numbered() && Tree() && AllQueued()
    {
      assert WaitOk(actual);
    }

    twostate lemma ReaderWaits()
      requires old(Core()) && actual in alive && WaitOkIn(actual, Waiting) && !Has(actual.mask, SIGCHLD) && reader == actual
      requires Queues() && Placed() && Counted() && Numbered() && Tree() && AllQueued()
      requires sleepQ.tasks == old(sleepQ.tasks) && alive == old(alive)
      requires forall t {:trigger t in alive} :: t in alive ==>
        t.mask == old(t.mask) && t.current == old(t.current) && t.wait4 == old(t.wait4) && t.kids == old(t.kids) && t.state == old(t.state)
      ensures CoreIf(actual, Waiting)
    {
      forall t | t in alive && t != actual ensures WaitOk(t) {
        assert old(WaitOk(t));
      }
    }

    /** `dev_stdin_recall`: the reader is woken when a line was entered.  While nobody reads,
        the code goes through a null pointer, and the model ends. */
    method StdinRecall() returns (r: Recall)
      requires Valid()
      modifies osQ, userQ, sleepQ, osQ.tasks`next, userQ.tasks`next, sleepQ.tasks`next
      modifies osQ.tasks`prev, userQ.tasks`prev, sleepQ.tasks`prev, this`running, this`sleeping, this`reader
      modifies this`actual, this`nextToRun, this`alive, actual`state, alive`state, alive`retval, alive`mask, alive`current
      modifies alive`firstChild, alive`lastChild, alive`kids, alive`prevSibling, alive`nextSibling
      ensures r == NullReader <==> old(reader) == null
      ensures r != NullReader ==> Valid() && reader == null && sleepQ.tasks == old(Minus(sleepQ.tasks, reader)) && alive <= old(alive)
      ensures r == Woken ==> actual == old(actual) && alive == old(alive) && old(reader).state == Ready && Runnable(old(reader))
      ensures r == Preempts ==> actual == old(reader) && Up()
      ensures r == Preempts <==> old(reader != null && reader.priority == Os && actual.priority == User)
      ensures r == Preempts ==> Behind(old(userQ.tasks), old(actual), nextToRun)
      ensures r == Woken ==> nextToRun == old(nextToRun)
      ensures r != NullReader ==> userQ.tasks == old(userQ.tasks) + (if old(reader).priority == User then [old(reader)] else [])
    {
      hide Turn, Core, CoreIf, Minus, Queues, Placed, Counted, Tree, Numbered, AllQueued;
      var t := reader;
      if t == null {
        return NullReader;
      }
      ReaderAsleep();
      reader := null;
      ReaderWoken(t);
      var switched := SetState(t.id, true, t);
      r := if switched then Preempts else Woken;
    }

    lemma ReaderAsleep()
      requires Valid() && reader != null
      ensures reader in alive && reader in sleepQ.tasks && reader.state == Waiting && WaitOkIn(reader, Ready) && Core() && Turn()
      ensures Queues() && Placed() && Counted() && Numbered() && Tree() && AllQueued()
      ensures forall i {:trigger reader.kids[i]} :: 0 <= i < |reader.kids| ==> reader.kids[i] in alive
    {
      assert WaitOk(reader);
    }

    twostate lemma ReaderWoken(x: Task)
      requires old(Core()) && x in alive && WaitOkIn(x, Ready) && reader == null
      requires Queues() && Placed() && Counted() && Numbered() && Tree() && AllQueued()
      requires sleepQ.tasks == old(sleepQ.tasks) && alive == old(alive)
      requires forall t {:trigger t in alive} :: t in alive ==>
        t.mask == old(t.mask) && t.current == old(t.current) && t.wait4 == old(t.wait4) && t.kids == old(t.kids) && t.state == old(t.state)
      ensures CoreIf(x, Ready)
    {
      forall t | t in alive && t != x ensures WaitOk(t) {
        assert old(WaitOk(t));
      }
    }

    // ------------------------------------------------------------------- new tasks

    /** A task that was just created: it has a parent but no place in a queue yet. */
    ghost predicate Newborn(tcb: Task)
      reads this, osQ, userQ, sleepQ, osQ.tasks, userQ.tasks, sleepQ.tasks, alive, actual
    {
      && tcb in alive && !Queued(tcb) && tcb.state == Ready && tcb != actual
      && Queues() && Placed() && Counted() && Numbered() && Tree() && Turn() && Waits()
      && (forall u {:trigger u in alive} :: u in alive && u.state != Zombie && u != tcb ==> Queued(u))
    }

    /** `sched_add_task`: a new task of a higher priority runs at once. */
    method AddTask(tcb: Task) returns (switched: bool)
      requires Newborn(tcb) && tcb.kids == []
      modifies osQ, userQ, sleepQ, osQ.tasks`next, userQ.tasks`next, sleepQ.tasks`next, tcb`next, tcb`prev
      modifies this`total, this`running, this`nextToRun, this`actual, this`alive, actual`state, tcb`state
      modifies tcb`retval, tcb`mask, tcb`current, tcb`firstChild, tcb`lastChild, tcb`kids
      ensures Valid() && sleepQ.tasks == old(sleepQ.tasks)
      ensures osQ.tasks == old(osQ.tasks) + (if tcb.priority == Os then [tcb] else [])
      ensures userQ.tasks == old(userQ.tasks) + (if tcb.priority == User then [tcb] else [])
      ensures switched <==> tcb.priority == Os && old(actual).priority == User
      ensures if switched then actual == tcb && tcb.state == Running
              else actual == old(actual) && alive == old(alive) && tcb.state == Ready && tcb.mask == old(tcb.mask) && tcb.current == old(tcb.current)
      ensures if switched then Behind(old(userQ.tasks), old(actual), nextToRun) else nextToRun == old(nextToRun)
    {
      hide Newborn, Queues, Placed, Counted, Core, Turn;
      NewbornFacts(tcb);
      tcb.state := Ready;
      Enlist(tcb);
      Enlisted(tcb);
      switched := tcb.priority == Os && actual.priority == User;
      if switched {
        Preempt(tcb);
      }
    }

    method Enlist(tcb: Task)
      requires Queues() && Placed() && Counted() && !Queued(tcb) && tcb.state == Ready
      modifies osQ, userQ, sleepQ, osQ.tasks`next, userQ.tasks`next, sleepQ.tasks`next, tcb`next, tcb`prev, this`total, this`running
      ensures Queues() && Placed() && Counted() && tcb.next == null && sleepQ.tasks == old(sleepQ.tasks)
      ensures osQ.tasks == old(osQ.tasks) + (if tcb.priority == Os then [tcb] else [])
      ensures userQ.tasks == old(userQ.tasks) + (if tcb.priority == User then [tcb] else [])
    {
      hide Queues, Home, Extended;
      HomeRunnable(tcb);
      total := total + 1;
      running := running + 1;
      AddToQueue(tcb);
    }

    lemma NewbornFacts(tcb: Task)
      requires Newborn(tcb)
      ensures Queues() && Placed() && Counted() && !Queued(tcb) && Tree() && tcb.state == Ready && tcb != actual
    {
    }

    twostate lemma Enlisted(tcb: Task)
      requires old(Newborn(tcb)) && Queues() && Placed() && Counted() && Tree() && tcb.state == Ready
      requires actual == old(actual) && nextToRun == old(nextToRun) && alive == old(alive) && reader == old(reader) && oldTid == old(oldTid) && ever == old(ever)
      requires sleepQ.tasks == old(sleepQ.tasks)
      requires osQ.tasks == old(osQ.tasks) + (if tcb.priority == Os then [tcb] else [])
      requires userQ.tasks == old(userQ.tasks) + (if tcb.priority == User then [tcb] else [])
      requires old(!Queued(actual)) ==> actual.next == old(actual.next)
      requires forall t {:trigger t in alive} :: t in alive ==>
        t.mask == old(t.mask) && t.current == old(t.current) && t.wait4 == old(t.wait4) && t.kids == old(t.kids) && t.state == old(t.state)
      ensures Core() && OnlyActualRuns() && Runnable(tcb) && tcb != kernelTask
      ensures tcb.priority == User || actual.priority == Os ==> Turn()
      ensures tcb.priority == Os && actual.priority == User ==> Behind(old(userQ.tasks), actual, actual.next)
      ensures tcb.priority == Os && actual.priority == User && actual.next != null ==> actual.next in userQ.tasks
    {
      hide WaitsIf, Counted, Tree, Queues, Turn, OnlyActualRuns;
      WaitsReady();
      EnlistedTurn(tcb);
    }

    twostate lemma EnlistedTurn(tcb: Task)
      requires old(Turn()) && Queues() && Placed() && tcb.state == Ready && old(!Queued(tcb)) && tcb != actual
      requires actual == old(actual) && nextToRun == old(nextToRun) && sleepQ.tasks == old(sleepQ.tasks)
      requires osQ.tasks == old(osQ.tasks) + (if tcb.priority == Os then [tcb] else [])
      requires userQ.tasks == old(userQ.tasks) + (if tcb.priority == User then [tcb] else [])
      requires old(!Queued(actual)) ==> actual.next == old(actual.next)
      requires forall t {:trigger t in old(osQ.tasks)} :: t in old(osQ.tasks) ==> t.state == old(t.state)
      requires forall t {:trigger t in old(userQ.tasks)} :: t in old(userQ.tasks) ==> t.state == old(t.state)
      ensures OnlyActualRuns()
      ensures tcb.priority == User || actual.priority == Os ==> Turn()
      ensures tcb.priority == Os && actual.priority == User ==> Behind(old(userQ.tasks), actual, actual.next)
      ensures tcb.priority == Os && actual.priority == User && actual.next != null ==> actual.next in userQ.tasks
    {
      if actual in userQ.tasks {
        assert userQ.tasks[IndexOf(userQ.tasks, actual)].next == actual.next;
        assert tcb.priority == Os ==> userQ.tasks == old(userQ.tasks) && Behind(userQ.tasks, actual, actual.next);
      } else if actual in sleepQ.tasks {
        assert sleepQ.tasks[|sleepQ.tasks| - 1].next == actual.next;
      }
    }

    const MAX_TID: nat := 0xffff_ffff

    /** `task_new` for a task that is running: a child of it, or null at the end of the numbers,
        where the kernel panics. */
    method TaskNew(priority: Priority) returns (tcb: Task?)
      requires Valid() && Runnable(actual) && actual.state == Running
      modifies this`oldTid, this`alive, this`ever, actual`firstChild, actual`lastChild, actual`kids, actual.kids`nextSibling
      ensures tcb == null <==> old(oldTid) == MAX_TID
      ensures tcb == null ==> Valid() && alive == old(alive)
      ensures tcb != null ==> Newborn(tcb) && fresh(tcb) && tcb.id == oldTid == old(oldTid) + 1 && tcb.priority == priority && tcb.parent == actual
      ensures tcb != null ==> actual.kids == old(actual.kids) + [tcb] && tcb.kids == [] && tcb.mask == 0 && tcb.current == 0
      ensures tcb != null ==> alive == old(alive) + {tcb}
    {
      hide Valid, Core, CoreIf, Numbered, Queues, Placed, Counted, Turn, WaitsIf, Tree, AllQueued, Newborn, Task.KidsLinked;
      var tid := GetTid();
      if tid == 0 {
        return null;
      }
      tcb := new Task(tid, priority, actual);
      ActualsFamily();
      Adopt(tcb);
    }

    /** `_get_tid`; 0 stands for the panic at the end of the numbers. */
    method GetTid() returns (tid: nat)
      requires Valid()
      modifies this`oldTid
      ensures Valid() && (tid == 0 <==> old(oldTid) == MAX_TID)
      ensures tid != 0 ==> tid == oldTid == old(oldTid) + 1 && forall t {:trigger t in ever} :: t in ever ==> t.id < tid
    {
      hide Queues, Placed, Counted, Turn, WaitsIf, Tree, AllQueued;
      if oldTid == MAX_TID {
        return 0;
      }
      oldTid := oldTid + 1;
      tid := oldTid;
    }

    /** The actual task gets a new child. */
    method Adopt(tcb: Task)
      requires Valid() && Runnable(actual) && actual.state == Running
      requires tcb !in ever && 0 < tcb.id == oldTid && tcb.parent == actual && tcb != kernelTask && forall t {:trigger t in ever} :: t in ever ==> t.id < oldTid
      requires tcb.mask == 0 && tcb.current == 0 && tcb.wait4 == null && tcb.state == Ready && tcb.kids == [] && tcb.KidsLinked()
      modifies this`alive, this`ever, actual`firstChild, actual`lastChild, actual`kids, actual.kids`nextSibling, tcb`prevSibling, tcb`nextSibling
      ensures Newborn(tcb) && actual.kids == old(actual.kids) + [tcb] && alive == old(alive) + {tcb}
    {
      hide Valid, Core, CoreIf, Queues, Placed, Counted, Turn, Newborn, Task.KidsLinked, Tree;
      ActualsFamily();
      NotAmong(tcb);
      LinkChild(tcb);
      alive, ever := alive + {tcb}, ever + {tcb};
      Born(tcb);
    }

    /** The new task is linked behind the other children of its parent. */
    method LinkChild(tcb: Task)
      requires Tree() && actual in alive && tcb !in alive && tcb.KidsLinked() && tcb.kids == []
      requires forall p, i {:trigger p.kids[i]} :: p in alive && 0 <= i < |p.kids| ==> p.kids[i] != tcb
      modifies actual`firstChild, actual`lastChild, actual`kids, actual.kids`nextSibling, tcb`prevSibling, tcb`nextSibling
      ensures actual.kids == old(actual.kids) + [tcb] && tcb.KidsLinked()
      ensures forall p {:trigger p in alive} :: p in alive ==> p.KidsLinked()
    {
      hide Task.KidsLinked;
      OtherFamilies(actual);
      assert Family(actual);
      actual.AddChild(tcb);
      forall p | p in alive ensures p.KidsLinked() {
        assert old(Family(p));
      }
    }

    lemma NotAmong(tcb: Task)
      requires Valid() && Runnable(actual) && tcb !in ever && tcb.kids == []
      ensures tcb !in alive && !Queued(tcb) && tcb != actual
      ensures forall p, i {:trigger p.kids[i]} :: p in alive && 0 <= i < |p.kids| ==> p.kids[i] != tcb
      ensures forall t {:trigger t in alive} :: t in alive ==> t.wait4 != tcb
    {
      forall p, i | p in alive && 0 <= i < |p.kids| ensures p.kids[i] != tcb {
        assert Family(p);
      }
    }

    lemma ActualsFamily()
      requires Valid() && Runnable(actual)
      ensures Tree() && actual in alive && Family(actual) && Queues() && Placed() && Counted() && Turn()
      ensures forall t {:trigger Queued(t)} :: Queued(t) ==> t in alive
      ensures forall p {:trigger p in alive} :: p in alive ==> p.KidsLinked()
    {
      forall p | p in alive ensures p.KidsLinked() {
        assert Family(p);
      }
    }

    twostate lemma BornTree(new tcb: Task)
      requires old(Tree()) && actual == old(actual) && alive == old(alive) + {tcb} && tcb !in old(alive) && actual in old(alive)
      requires tcb.id != 1 && tcb.parent == actual && tcb.kids == [] && tcb.KidsLinked()
      requires actual.kids == old(actual.kids) + [tcb] && actual.KidsLinked()
      requires forall t {:trigger t in old(alive)} :: t in old(alive) && t != actual ==> t.kids == old(t.kids) && t.KidsLinked()
      ensures Tree()
    {
      forall t | t in old(alive) ensures Family(t) && ParentOk(t) {
        assert old(Family(t)) && old(ParentOk(t));
      }
    }

    twostate lemma BornWaits(new tcb: Task)
      requires old(Waits()) && alive == old(alive) + {tcb} && tcb !in old(alive) && reader == old(reader) && actual.state != Zombie
      requires forall t {:trigger t in old(alive)} :: t in old(alive) ==> t.wait4 != tcb
      requires sleepQ.tasks == old(sleepQ.tasks) && tcb.mask == 0 && tcb.current == 0 && tcb.wait4 == null && tcb.state == Ready
      requires forall t {:trigger t in old(alive)} :: t in old(alive) ==>
        && t.mask == old(t.mask) && t.current == old(t.current) && t.wait4 == old(t.wait4) && t.state == old(t.state)
        && (t != actual ==> t.kids == old(t.kids))
      ensures Waits()
    {
      forall t | t in old(alive) ensures WaitOk(t) {
        assert old(WaitOk(t));
      }
    }

    twostate lemma Born(new tcb: Task)
      requires old(Valid()) && tcb !in old(ever) && !Queued(tcb) && Queues() && Placed() && Counted() && Turn()
      requires actual == old(actual) && actual in old(alive) && reader == old(reader) && tcb != actual && actual.state != Zombie
      requires osQ.tasks == old(osQ.tasks) && userQ.tasks == old(userQ.tasks) && sleepQ.tasks == old(sleepQ.tasks)
      requires oldTid == old(oldTid) && old(forall t {:trigger t in ever} :: t in ever ==> t.id < oldTid) && alive == old(alive) + {tcb} && ever == old(ever) + {tcb}
      requires tcb.id == oldTid && tcb.parent == actual && tcb.kids == [] && tcb.KidsLinked()
      requires tcb.mask == 0 && tcb.current == 0 && tcb.wait4 == null && tcb.state == Ready && tcb != kernelTask
      requires actual.kids == old(actual.kids) + [tcb] && actual.KidsLinked()
      requires forall t {:trigger t in old(alive)} :: t in old(alive) ==>
        && t.mask == old(t.mask) && t.current == old(t.current) && t.wait4 == old(t.wait4) && t.state == old(t.state)
        && (t != actual ==> t.kids == old(t.kids) && t.KidsLinked())
      ensures Newborn(tcb)
    {
      hide Queues, Placed, Counted, Turn, WaitsIf, Tree;
      BornTree(tcb);
      BornWaits(tcb);
    }

    /** What `do_fork` does with tasks: the child inherits the mask and waits for its turn;
        the parent goes on. */
    method DoFork() returns (child: Task?)
      requires Valid() && Runnable(actual) && actual.state == Running
      modifies osQ, userQ, sleepQ, osQ.tasks`next, userQ.tasks`next, sleepQ.tasks`next
      modifies this`oldTid, this`alive, this`ever, this`total, this`running, this`nextToRun, this`actual
      modifies actual`state, actual`firstChild, actual`lastChild, actual`kids, actual.kids`nextSibling
      ensures Valid() && actual == old(actual)
      ensures child == null <==> old(oldTid) == MAX_TID
      ensures child == null ==> alive == old(alive)
      ensures child != null ==> fresh(child) && child.parent == actual && child.state == Ready && child.mask == actual.mask
      ensures child != null ==> actual.kids == old(actual.kids) + [child] && alive == old(alive) + {child} && sleepQ.tasks == old(sleepQ.tasks)
      ensures child != null ==> Queued(child) && child.id == oldTid == old(oldTid) + 1 && child.priority == actual.priority
      ensures nextToRun == old(nextToRun)
      ensures child == null ==> userQ.tasks == old(userQ.tasks)
      ensures child != null ==> userQ.tasks == old(userQ.tasks) + (if child.priority == User then [child] else [])
    {
      hide Queues, Placed, Counted, Turn, WaitsIf, Tree, AllQueued, Newborn, Core, Valid, TurnFor;
      child := TaskNew(actual.priority);
      if child == null {
        return;
      }
      InheritMask(child);
      var switched := AddTask(child);
    }

    method InheritMask(tcb: Task)
      requires Newborn(tcb) && tcb.current == 0 && Runnable(actual) && actual.state == Running
      modifies tcb`mask
      ensures Newborn(tcb) && tcb.mask == actual.mask
    {
      hide Queues, Placed, Counted, Turn, Tree, AllQueued;
      assert actual in alive && WaitOk(actual);
      tcb.mask := actual.mask;
      MaskInherited(tcb);
    }

    twostate lemma MaskInherited(tcb: Task)
      requires old(Waits()) && tcb in alive && alive == old(alive) && reader == old(reader) && sleepQ.tasks == old(sleepQ.tasks)
      requires tcb !in sleepQ.tasks && tcb.current == 0 && !Has(tcb.mask, SIGCHLD) && tcb.state == Ready
      requires forall t {:trigger t in alive} :: t in alive ==>
        && t.current == old(t.current) && t.wait4 == old(t.wait4) && t.state == old(t.state) && t.kids == old(t.kids)
        && (t != tcb ==> t.mask == old(t.mask))
      ensures Waits()
    {
      forall t | t in alive ensures WaitOk(t) {
        assert old(WaitOk(t));
      }
    }

    // ------------------------------------------------------------------ whole runs

    /** The first task: `task_new` makes it the root of the tree, and `kmain` lets it run. */
    method Boot() returns (init: Task)
      requires Valid() && Unbooted()
      modifies osQ, userQ, sleepQ, this`oldTid, this`alive, this`ever, this`total, this`running, this`nextToRun, this`actual
      modifies kernelTask`state
      ensures Valid() && actual == init && Up() && fresh(init) && init.id == 1 && init.parent == null && init.priority == Os
      ensures alive == {init} && osQ.tasks == [init] && userQ.tasks == [] && sleepQ.tasks == []
      ensures init.mask == SIG_DEFAULT_MASK && !Has(init.mask, SIGCHLD)
    {
      hide Newborn, Queues, Placed, Counted, Turn, Core, CoreIf;
      NothingYet();
      init := NewRoot();
      var switched := AddTask(init);
      var r := TaskSwitch();
    }

    lemma NothingYet()
      requires Valid() && ever == {}
      ensures alive == {} && osQ.tasks == [] && userQ.tasks == [] && sleepQ.tasks == []
    {
      HeadIn(osQ.tasks);
      HeadIn(userQ.tasks);
      HeadIn(sleepQ.tasks);
    }

    /** `task_new` while the tree has no root. */
    method NewRoot() returns (init: Task)
      requires Valid() && Unbooted()
      modifies this`oldTid, this`alive, this`ever
      ensures Newborn(init) && fresh(init) && init.id == 1 && init.parent == null && init.priority == Os && init.kids == []
      ensures alive == {init} && init.mask == SIG_DEFAULT_MASK && init.current == 0 && !Has(init.mask, SIGCHLD)
    {
      hide Newborn, Queues, Placed, Turn, CoreIf, Task.KidsLinked;
      NothingYet();
      EmptyQueues();
      oldTid := oldTid + 1;
      init := new Task(oldTid, Os, null);
      init.mask := SIG_DEFAULT_MASK;
      alive, ever := {init}, {init};
      RootBorn(init);
    }

    lemma EmptyQueues()
      requires Valid()
      ensures Queues() && Placed() && Turn() && Counted() && kernelTask.id == 0
    {
    }

    lemma RootBorn(init: Task)
      requires Queues() && Placed() && Counted() && Turn() && osQ.tasks == [] && userQ.tasks == [] && sleepQ.tasks == []
      requires alive == ever == {init} && oldTid == 1 && init.id == 1 && init.parent == null && init != kernelTask && kernelTask.id == 0
      requires init != actual && reader == null && init.state == Ready && init.mask == SIG_DEFAULT_MASK && init.current == 0 && init.wait4 == null
      requires init.kids == [] && init.KidsLinked()
      ensures Newborn(init) && !Has(init.mask, SIGCHLD)
    {
      hide Queues, Placed, Turn, Task.KidsLinked;
      assert Family(init) && ParentOk(init) && WaitOk(init);
    }

    /** Round robin: with nobody of a higher priority and no change of members, as many
        switches as the queue has tasks give each of them the processor, in the order of the
        queue, and come back to the first. */
    method TakeTurns(q: Queue) returns (ghost order: seq<Task>)
      requires Valid() && actual in q.tasks && (q == osQ || (q == userQ && osQ.tasks == []))
      modifies this`actual, this`nextToRun, this`alive
      modifies alive`state, alive`retval, alive`mask, alive`current
      modifies alive`firstChild, alive`lastChild, alive`kids, alive`prevSibling, alive`nextSibling
      ensures Valid() && actual == old(actual) && Up() && q.tasks == old(q.tasks)
      ensures |order| == |q.tasks| && Distinct(order)
      ensures forall i {:trigger order[i]} :: 0 <= i < |order| ==> order[i] == AfterSwitches(q.tasks, old(actual), i + 1)
      ensures forall t {:trigger t in q.tasks} :: t in q.tasks ==> t in order
    {
      hide Core, Turn, AfterSwitches, Resumed, OthersKept;
      ghost var first, alive0 := actual, alive;
      QueueFacts(q);
      order := [];
      AfterNone(q.tasks, first);
      var n := q.counter;
      for i := 0 to n
        invariant Valid() && alive <= alive0 && q.tasks == old(q.tasks) && |order| == i && actual in q.tasks && (q == osQ || osQ.tasks == [])
        invariant actual == AfterSwitches(q.tasks, first, i) && actual in alive && (i > 0 ==> Up())
        invariant forall j {:trigger order[j]} :: 0 <= j < |order| ==> order[j] == AfterSwitches(q.tasks, first, j + 1)
      {
        SuccessorInQueue(q);
        var r := TaskSwitch();
        AfterOneMore(q.tasks, first, i);
        order := order + [actual];
      }
      EveryTurn(q.tasks, first, order);
    }

    lemma QueueFacts(q: Queue)
      requires Valid() && actual in q.tasks && (q == osQ || q == userQ)
      ensures q.counter == |q.tasks| > 0 && Distinct(q.tasks) && actual in alive
    {
    }

    lemma SuccessorInQueue(q: Queue)
      requires Valid() && actual in q.tasks && (q == osQ || (q == userQ && osQ.tasks == []))
      ensures (osQ.tasks != [] || userQ.tasks != []) && Successor() == Following(q.tasks, actual) && actual in alive
    {
    }
  }
}
