/** Task control blocks, the scheduler's queues and the tree of tasks. */
module Tasks {

  import opened Lists

  datatype State = Ready | Running | Waiting | Zombie

  datatype Priority = User | Os

  /** A set of signals, one bit each. */
  type Signals = bv32

  const SIGCHLD: Signals := 4
  const SIG_DEFAULT_MASK: Signals := 3

  /** `SIG_CHECK_MASK` */
  predicate Has(m: Signals, sig: Signals) { (m & sig) != 0 }

  /** `SIG_MARK` */
  function Marked(m: Signals, sig: Signals): Signals { m | sig }

  /** `SIG_UNMARK`, an exclusive or. */
  function Unmarked(m: Signals, sig: Signals): Signals { m ^ sig }

  lemma MarkSets(m: Signals)
    ensures Has(Marked(m, SIGCHLD), SIGCHLD)
  {
  }

  /** The exclusive or clears the bit exactly if it was set. */
  lemma UnmarkClearsIffSet(m: Signals)
    ensures !Has(Unmarked(m, SIGCHLD), SIGCHLD) <==> Has(m, SIGCHLD)
  {
  }

  /** A mark and an unmark together leave no trace exactly if the bit was clear. */
  lemma UnmarkUndoesMarkIff(m: Signals)
    ensures Unmarked(Marked(m, SIGCHLD), SIGCHLD) == m <==> !Has(m, SIGCHLD)
  {
  }

  class Task {
    const id: nat
    const priority: Priority
    const parent: Task?
    var state: State
    var exitCode: int
    /** The value waitpid returns to this task. */
    var retval: int
    var mask: Signals
    var current: Signals
    var wait4: Task?
    var prev: Task?
    var next: Task?
    var firstChild: Task?
    var lastChild: Task?
    var prevSibling: Task?
    var nextSibling: Task?
    ghost var kids: seq<Task>

    constructor (id: nat, priority: Priority, parent: Task?)
      ensures this.id == id && this.priority == priority && this.parent == parent
      ensures state == Ready && exitCode == 0 && retval == 0 && mask == 0 && current == 0 && wait4 == null
      ensures prev == null && next == null && kids == [] && KidsLinked()
    {
      this.id, this.priority, this.parent := id, priority, parent;
      state, exitCode, retval, mask, current, wait4 := Ready, 0, 0, 0, 0, null;
      prev, next, firstChild, lastChild, prevSibling, nextSibling := null, null, null, null, null, null;
      kids := [];
    }

    /** The sibling pointers spell `kids`, in both directions. */
    ghost predicate SiblingsLinked()
      reads this`kids, kids`prevSibling, kids`nextSibling
    {
      && (forall i {:trigger kids[i].nextSibling} :: 0 <= i < |kids| ==> kids[i].nextSibling == if i + 1 < |kids| then kids[i + 1] else null)
      && (forall i {:trigger kids[i].prevSibling} :: 0 <= i < |kids| ==> kids[i].prevSibling == if i > 0 then kids[i - 1] else null)
      && Distinct(kids)
    }

    ghost predicate KidsLinked()
      reads this`kids, this`firstChild, this`lastChild, kids`prevSibling, kids`nextSibling
    {
      && firstChild == (if kids == [] then null else kids[0])
      && lastChild == (if kids == [] then null else kids[|kids| - 1])
      && SiblingsLinked()
    }

    /** `_add_child` */
    method AddChild(child: Task)
      requires KidsLinked() && child !in kids
      modifies this`firstChild, this`lastChild, this`kids, child`prevSibling, child`nextSibling, kids`nextSibling
      ensures KidsLinked() && kids == old(kids) + [child]
    {
      if firstChild == null {
        child.prevSibling, child.nextSibling := null, null;
        firstChild, lastChild := child, child;
      } else {
        lastChild.nextSibling := child;
        child.prevSibling := lastChild;
        child.nextSibling := null;
        lastChild := child;
      }
      kids := kids + [child];
    }

    /** `_remove_child`, for a child of this task. */
    method RemoveChild(child: Task, ghost i: nat)
      requires KidsLinked() && i < |kids| && child == kids[i]
      modifies this`firstChild, this`lastChild, this`kids, kids`prevSibling, kids`nextSibling
      ensures KidsLinked() && kids == RemovedAt(old(kids), i)
    {
      assert child.prevSibling == if i > 0 then kids[i - 1] else null;
      assert child.nextSibling == if i + 1 < |kids| then kids[i + 1] else null;
      if child.prevSibling == null {
        var done := RemoveFirst(child);
        if done {
          return;
        }
      }
      RemoveFromEnd(child, i);
    }

    /** A first child; one without siblings is left to the code for the last one. */
    method RemoveFirst(child: Task) returns (done: bool)
      requires KidsLinked() && kids != [] && child == kids[0]
      modifies this`firstChild, this`kids, kids`prevSibling
      ensures done <==> |old(kids)| > 1
      ensures done ==> KidsLinked() && kids == RemovedAt(old(kids), 0)
      ensures !done ==> firstChild == null && kids == old(kids) && child.prevSibling == old(child.prevSibling)
    {
      assert child.nextSibling == if 1 < |kids| then kids[1] else null;
      firstChild := child.nextSibling;
      done := firstChild != null;
      if done {
        kids := RemovedAt(kids, 0);
        firstChild.prevSibling := null;
      }
    }

    /** A child that is the last one, or has siblings on both sides. */
    method RemoveFromEnd(child: Task, ghost i: nat)
      requires i < |kids| && child == kids[i] && (i == 0 ==> |kids| == 1) && SiblingsLinked()
      requires firstChild == (if i == 0 then null else kids[0]) && lastChild == kids[|kids| - 1]
      modifies this`lastChild, this`kids, kids`prevSibling, kids`nextSibling
      ensures KidsLinked() && kids == RemovedAt(old(kids), i)
    {
      assert child.nextSibling == if i + 1 < |kids| then kids[i + 1] else null;
      assert child.prevSibling == if i > 0 then kids[i - 1] else null;
      if child.nextSibling == null {
        lastChild := child.prevSibling;
        if lastChild != null {
          lastChild.nextSibling := null;
        }
        kids := RemovedAt(kids, i);
      } else {
        RemoveInner(child, i);
      }
    }

    method RemoveInner(child: Task, ghost i: nat)
      requires 0 < i < |kids| - 1 && child == kids[i] && SiblingsLinked()
      modifies this`kids, kids`prevSibling, kids`nextSibling
      ensures SiblingsLinked() && kids == RemovedAt(old(kids), i)
    {
      assert child.nextSibling == kids[i + 1] && child.prevSibling == kids[i - 1];
      DistinctRemovedAt(kids, i);
      child.prevSibling.nextSibling := child.nextSibling;
      child.nextSibling.prevSibling := child.prevSibling;
      kids := RemovedAt(kids, i);
    }
  }

  ghost function IndexOf(s: seq<Task>, t: Task): (i: nat)
    requires t in s
    ensures i < |s| && s[i] == t
  {
    var i: nat :| i < |s| && s[i] == t;
    i
  }

  /** The sequence without its first t. */
  ghost function Minus(s: seq<Task>, t: Task): seq<Task> {
    if s == [] then [] else if s[0] == t then s[1..] else [s[0]] + Minus(s[1..], t)
  }

  lemma RemovedFromTail(s: seq<Task>, i: nat)
    requires 0 < i < |s|
    ensures RemovedAt(s, i) == [s[0]] + RemovedAt(s[1..], i - 1)
  {
  }

  lemma {:induction false} MinusIsRemovedAt(s: seq<Task>, i: nat)
    requires Distinct(s) && i < |s|
    ensures Minus(s, s[i]) == RemovedAt(s, i)
  {
    if i > 0 {
      assert s[0] != s[i] && s[1..][i - 1] == s[i];
      MinusIsRemovedAt(s[1..], i - 1);
      RemovedFromTail(s, i);
    }
  }

  lemma {:induction false} MinusOf(s: seq<Task>, t: Task)
    requires Distinct(s) && t in s
    ensures |Minus(s, t)| == |s| - 1 && Distinct(Minus(s, t))
    ensures forall u {:trigger u in Minus(s, t)} {:trigger u in s} :: u in Minus(s, t) <==> u in s && u != t
    ensures forall i {:trigger Minus(s, t)[i]} :: 0 <= i < |Minus(s, t)| ==> Minus(s, t)[i] in s && Minus(s, t)[i] != t
    ensures t != s[|s| - 1] ==> Minus(s, t) != [] && Minus(s, t)[|s| - 2] == s[|s| - 1]
  {
    var i := IndexOf(s, t);
    MinusIsRemovedAt(s, i);
    DistinctRemovedAt(s, i);
  }

  /** Round robin: whose turn it is after t's. */
  ghost function Following(s: seq<Task>, t: Task): (u: Task)
    requires t in s
    ensures u in s
  {
    if IndexOf(s, t) + 1 < |s| then s[IndexOf(s, t) + 1] else s[0]
  }

  /** u is the task right behind t, or null if t is the last one or in another list. */
  ghost predicate Behind(s: seq<Task>, t: Task, u: Task?) {
    && (t !in s ==> u == null)
    && (forall i {:trigger s[i]} :: 0 <= i < |s| && s[i] == t ==> u == if i + 1 < |s| then s[i + 1] else null)
  }

  lemma BehindFollows(s: seq<Task>, t: Task, u: Task?)
    requires Distinct(s) && t in s && Behind(s, t, u)
    ensures Following(s, t) == if u != null then u else s[0]
  {
  }

  /** Whose turn it is k switches after t's. */
  ghost function AfterSwitches(s: seq<Task>, t: Task, k: nat): (u: Task)
    requires t in s
    ensures u in s
  {
    if k == 0 then t else Following(s, AfterSwitches(s, t, k - 1))
  }

  lemma {:induction false} TurnsInOrder(s: seq<Task>, i: nat, k: nat)
    requires Distinct(s) && i < |s| && k <= |s|
    ensures AfterSwitches(s, s[i], k) == if i + k < |s| then s[i + k] else if i + k - |s| < |s| then s[i + k - |s|] else s[0]
  {
    if k > 0 {
      TurnsInOrder(s, i, k - 1);
    }
  }

  /** As many switches as there are tasks run each of them exactly once, and come back. */
  lemma {:induction false} EveryTaskHasItsTurn(s: seq<Task>, t: Task, u: Task)
    requires Distinct(s) && t in s && u in s
    ensures exists k: nat {:trigger AfterSwitches(s, t, k)} :: k < |s| && AfterSwitches(s, t, k) == u
    ensures forall k: nat, l: nat {:trigger AfterSwitches(s, t, k), AfterSwitches(s, t, l)} ::
      k < l < |s| ==> AfterSwitches(s, t, k) != AfterSwitches(s, t, l)
    ensures AfterSwitches(s, t, |s|) == t
  {
    var i, j := IndexOf(s, t), IndexOf(s, u);
    TurnsInOrder(s, i, if j >= i then j - i else j + |s| - i);
    forall k: nat, l: nat | k < l < |s| ensures AfterSwitches(s, t, k) != AfterSwitches(s, t, l) {
      TurnsInOrder(s, i, k);
      TurnsInOrder(s, i, l);
    }
    TurnsInOrder(s, i, |s|);
  }

  lemma {:induction false} AfterNone(s: seq<Task>, t: Task)
    requires t in s
    ensures AfterSwitches(s, t, 0) == t
  {
  }

  lemma AfterOneMore(s: seq<Task>, t: Task, k: nat)
    requires t in s
    ensures AfterSwitches(s, t, k + 1) == Following(s, AfterSwitches(s, t, k))
  {
  }

  /** The tasks that run in one round are the tasks of the queue, each once. */
  lemma {:induction false} EveryTurn(s: seq<Task>, t: Task, order: seq<Task>)
    requires Distinct(s) && t in s && |order| == |s|
    requires forall i {:trigger order[i]} :: 0 <= i < |order| ==> order[i] == AfterSwitches(s, t, i + 1)
    ensures Distinct(order) && order[|s| - 1] == t
    ensures forall u {:trigger u in s} :: u in s ==> u in order
  {
    EveryTaskHasItsTurn(s, t, t);
    forall i, j | 0 <= i < j < |order| ensures order[i] != order[j] {
      if j == |s| - 1 { assert AfterSwitches(s, t, 0) != AfterSwitches(s, t, i + 1); }
    }
    forall u | u in s ensures u in order {
      EveryTaskHasItsTurn(s, t, u);
      var k: nat :| k < |s| && AfterSwitches(s, t, k) == u;
      assert order[if k > 0 then k - 1 else |s| - 1] == u;
    }
  }

  class Queue {
    var counter: nat
    var first: Task?
    var last: Task?
    ghost var tasks: seq<Task>

    constructor ()
      ensures Valid() && tasks == []
    {
      counter, first, last, tasks := 0, null, null, [];
    }

    /** The queue's pointers spell `tasks`; an empty queue may keep an old `last`. */
    ghost predicate Valid()
      reads this, tasks`next, tasks`prev
    {
      && counter == |tasks|
      && first == (if tasks == [] then null else tasks[0])
      && (tasks != [] ==> last == tasks[|tasks| - 1])
      && (forall i {:trigger tasks[i].next} :: 0 <= i < |tasks| ==> tasks[i].next == if i + 1 < |tasks| then tasks[i + 1] else null)
      && (forall i {:trigger tasks[i].prev} :: 0 <= i < |tasks| ==> tasks[i].prev == if i > 0 then tasks[i - 1] else null)
      && Distinct(tasks)
    }

    /** `__find_in_queue` */
    method Find(id: nat) returns (t: Task?)
      requires Valid()
      ensures t != null ==> t in tasks && t.id == id
      ensures t == null ==> forall u {:trigger u in tasks} :: u in tasks ==> u.id != id
    {
      var tmp := first;
      ghost var k := 0;
      while tmp != null
        invariant k <= |tasks| && tmp == (if k < |tasks| then tasks[k] else null)
        invariant forall i {:trigger tasks[i]} :: 0 <= i < k ==> tasks[i].id != id
        decreases |tasks| - k
      {
        assert tasks[k].next == if k + 1 < |tasks| then tasks[k + 1] else null;
        if tmp.id == id {
          return tmp;
        }
        tmp := tmp.next;
        k := k + 1;
      }
      return null;
    }

    /** `_add_to_queue`, once the queue is chosen. */
    method Add(t: Task)
      requires Valid() && t !in tasks
      modifies this, t`prev, t`next, tasks`next
      ensures Valid() && tasks == old(tasks) + [t]
    {
      if first == null {
        first := t;
        t.prev := null;
      } else {
        t.prev := last;
        last.next := t;
      }
      t.next := null;
      last := t;
      counter := counter + 1;
      tasks := tasks + [t];
    }

    /** `_remove_from_queue`, once the queue is chosen. */
    method Remove(t: Task)
      requires Valid() && t in tasks
      modifies this, tasks`prev, tasks`next
      ensures Valid() && tasks == Minus(old(tasks), t)
      ensures t.prev == null && t.next == null
    {
      ghost var i := IndexOf(tasks, t);
      MinusIsRemovedAt(tasks, i);
      Unlink(t, i);
    }

    method Unlink(t: Task, ghost i: nat)
      requires Valid() && i < |tasks| && tasks[i] == t
      modifies this, tasks`prev, tasks`next
      ensures Valid() && tasks == RemovedAt(old(tasks), i)
      ensures t.prev == null && t.next == null
    {
      assert t.next == if i + 1 < |tasks| then tasks[i + 1] else null;
      DistinctRemovedAt(tasks, i);
      if first == t {
        UnlinkFirst(t);
      } else if last == t {
        UnlinkLast(t);
      } else {
        UnlinkInner(t, i);
      }
    }

    method UnlinkFirst(t: Task)
      requires Valid() && tasks != [] && tasks[0] == t && Distinct(RemovedAt(tasks, 0))
      modifies this, t`prev, t`next, tasks`prev
      ensures Valid() && tasks == RemovedAt(old(tasks), 0)
      ensures t.prev == null && t.next == null
    {
      assert t.next == if 1 < |tasks| then tasks[1] else null;
      first := t.next;
      if first != null {
        first.prev := null;
      }
      t.prev := null;
      t.next := null;
      counter := counter - 1;
      tasks := RemovedAt(tasks, 0);
    }

    method UnlinkLast(t: Task)
      requires Valid() && |tasks| > 1 && tasks[|tasks| - 1] == t && Distinct(RemovedAt(tasks, |tasks| - 1))
      modifies this, t`prev, t`next, tasks`next
      ensures Valid() && tasks == RemovedAt(old(tasks), |old(tasks)| - 1)
      ensures t.prev == null && t.next == null
    {
      assert t.prev == tasks[|tasks| - 2];
      last := t.prev;
      last.next := null;
      t.prev := null;
      t.next := null;
      counter := counter - 1;
      tasks := RemovedAt(tasks, |tasks| - 1);
    }

    method UnlinkInner(t: Task, ghost i: nat)
      requires Valid() && 0 < i < |tasks| - 1 && tasks[i] == t && Distinct(RemovedAt(tasks, i))
      modifies this, tasks`prev, tasks`next
      ensures Valid() && tasks == RemovedAt(old(tasks), i)
      ensures t.prev == null && t.next == null
    {
      assert t.next == tasks[i + 1] && t.prev == tasks[i - 1];
      t.prev.next := t.next;
      t.next.prev := t.prev;
      t.prev := null;
      t.next := null;
      counter := counter - 1;
      tasks := RemovedAt(tasks, i);
    }
  }
}
