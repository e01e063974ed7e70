/** The task queue: an intrusive doubly linked list, and a scheduler that looks at its first few tasks. */
module Tasks {
  type UINT16 = p: int | 0 <= p < 0x1_0000

  class LTask {
    const Priority: UINT16
    var Left: LTask?
    var Right: LTask?

    constructor (priority: UINT16)
      ensures Priority == priority && Detached()
    {
      Priority := priority;
      Left, Right := null, null;
    }

    predicate Detached()
      reads this
    {
      Left == null && Right == null
    }
  }

  // ----- The queue as a sequence -----

  ghost predicate Distinct(q: seq<LTask>) {
    forall i, j :: 0 <= i < j < |q| ==> q[i] != q[j]
  }

  function RemoveAt<T>(q: seq<T>, k: nat): seq<T>
    requires k < |q|
  {
    q[..k] + q[k + 1..]
  }

  /** q without t, the others in their order. */
  ghost function Without(q: seq<LTask>, t: LTask): seq<LTask> {
    if q == [] then [] else if q[0] == t then q[1..] else [q[0]] + Without(q[1..], t)
  }

  lemma {:induction false} WithoutAt(q: seq<LTask>, k: nat)
    requires Distinct(q) && k < |q|
    ensures Without(q, q[k]) == RemoveAt(q, k)
  {
    if k > 0 {
      WithoutAt(q[1..], k - 1);
      assert q[1..][..k - 1] == q[1..k] && q[1..][k..] == q[k + 1..];
      assert q[..k] == [q[0]] + q[1..k];
    }
  }

  ghost function Place(q: seq<LTask>, t: LTask): (k: nat)
    requires t in q
    ensures k < |q| && q[k] == t
  {
    if q[0] == t then 0 else 1 + Place(q[1..], t)
  }

  lemma MembersLeft(q: seq<LTask>, k: nat)
    requires Distinct(q) && k < |q|
    ensures Distinct(RemoveAt(q, k))
    ensures forall t :: t in RemoveAt(q, k) <==> t in q && t != q[k]
  {
    var n := RemoveAt(q, k);
    forall t | t in q && t != q[k]
      ensures t in n
    {
      var i := Place(q, t);
      assert n[if i < k then i else i - 1] == t;
    }
  }

  lemma {:induction false} WithoutAbsent(q: seq<LTask>, t: LTask)
    requires t !in q
    ensures Without(q, t) == q
  {
    if q != [] {
      WithoutAbsent(q[1..], t);
    }
  }

  /** AddTask: a queued task stays where it is, any other goes to the front. */
  ghost function Added(q: seq<LTask>, t: LTask): seq<LTask> {
    if t in q then q else [t] + q
  }

  ghost function AddedAll(q: seq<LTask>, ts: seq<LTask>): seq<LTask>
    decreases |ts|
  {
    if ts == [] then q else AddedAll(Added(q, ts[0]), ts[1..])
  }

  lemma {:induction false} AddedAllKeeps(q: seq<LTask>, ts: seq<LTask>) returns (front: seq<LTask>)
    requires Distinct(q)
    ensures AddedAll(q, ts) == front + q && Distinct(front + q)
    ensures forall t :: t in front + q <==> t in q || t in ts
    decreases |ts|
  {
    if ts == [] {
      front := [];
      assert front + q == q;
    } else {
      var rest := AddedAllKeeps(Added(q, ts[0]), ts[1..]);
      if ts[0] in q {
        front := rest;
      } else {
        front := rest + [ts[0]];
        assert front + q == rest + ([ts[0]] + q);
      }
    }
  }

  function Backwards<T>(s: seq<T>): seq<T> {
    if s == [] then [] else Backwards(s[1..]) + [s[0]]
  }

  /** New tasks stand in front of the old ones, the last one added first. */
  lemma {:induction false} LastAddedIsFirst(q: seq<LTask>, ts: seq<LTask>)
    requires Distinct(ts) && forall t :: t in ts ==> t !in q
    ensures AddedAll(q, ts) == Backwards(ts) + q
    decreases |ts|
  {
    if ts == [] {
      assert Backwards(ts) + q == q;
    } else {
      assert ts[0] in ts && forall t :: t in ts[1..] ==> t in ts;
      LastAddedIsFirst([ts[0]] + q, ts[1..]);
      assert Backwards(ts[1..]) + ([ts[0]] + q) == Backwards(ts) + q;
    }
  }

  // ----- Selection -----

  /** The earliest task of least priority among the first w. */
  ghost predicate IsSelected(q: seq<LTask>, w: nat, k: nat) {
    && k < |q| && k < w
    && (forall i :: 0 <= i < |q| && i < w ==> q[k].Priority <= q[i].Priority)
    && (forall i :: 0 <= i < k ==> q[k].Priority < q[i].Priority)
  }

  ghost function Selected(q: seq<LTask>, w: nat): (k: nat)
    requires q != [] && w > 0
    ensures IsSelected(q, w, k)
    decreases w
  {
    if w == 1 then 0
    else
      var p := Selected(q, w - 1);
      if w <= |q| && q[w - 1].Priority < q[p].Priority then w - 1 else p
  }

  lemma SelectedIsUnique(q: seq<LTask>, w: nat, k: nat, m: nat)
    requires IsSelected(q, w, k) && IsSelected(q, w, m)
    ensures k == m
  {
    assert q[k].Priority <= q[m].Priority && q[m].Priority <= q[k].Priority;
  }

  // ----- Runs of DoEvents: adds[i] is what the task run by call i adds -----

  ghost function Step(q: seq<LTask>, w: nat, adds: seq<LTask>): seq<LTask>
    requires w > 0
  {
    if q == [] then q else Without(AddedAll(q, adds), q[Selected(q, w)])
  }

  ghost function After(q: seq<LTask>, w: nat, adds: seq<seq<LTask>>): seq<LTask>
    requires w > 0
    decreases |adds|
  {
    if adds == [] then q else After(Step(q, w, adds[0]), w, adds[1..])
  }

  ghost function Ran(q: seq<LTask>, w: nat, adds: seq<seq<LTask>>): seq<LTask>
    requires w > 0
    decreases |adds|
  {
    if adds == [] || q == [] then []
    else [q[Selected(q, w)]] + Ran(Step(q, w, adds[0]), w, adds[1..])
  }

  lemma RemoveBehind<T>(front: seq<T>, q: seq<T>, k: nat)
    requires k < |q|
    ensures RemoveAt(front + q, |front| + k) == front + RemoveAt(q, k)
  {
  }

  lemma RemoveAtMultiset<T>(q: seq<T>, k: nat)
    requires k < |q|
    ensures multiset(q) == multiset{q[k]} + multiset(RemoveAt(q, k))
  {
    assert q == q[..k] + [q[k]] + q[k + 1..];
  }

  lemma WithoutBehind(front: seq<LTask>, q: seq<LTask>, k: nat)
    requires Distinct(front + q) && k < |q|
    ensures Without(front + q, q[k]) == front + RemoveAt(q, k)
    ensures Distinct(front + RemoveAt(q, k)) && q[k] !in front + RemoveAt(q, k)
  {
    var all, m := front + q, |front| + k;
    assert all[m] == q[k];
    WithoutAt(all, m);
    MembersLeft(all, m);
    RemoveBehind(front, q, k);
  }

  lemma StepRemovesOne(q: seq<LTask>, w: nat, adds: seq<LTask>) returns (front: seq<LTask>)
    requires Distinct(q) && q != [] && w > 0
    ensures AddedAll(q, adds) == front + q
    ensures Step(q, w, adds) == front + RemoveAt(q, Selected(q, w))
    ensures Distinct(Step(q, w, adds)) && q[Selected(q, w)] !in Step(q, w, adds)
  {
    front := AddedAllKeeps(q, adds);
    WithoutBehind(front, q, Selected(q, w));
  }

  lemma FirstRun(q: seq<LTask>, w: nat, adds: seq<seq<LTask>>)
    requires q != [] && w > 0 && adds != []
    ensures Ran(q, w, adds) == [q[Selected(q, w)]] + Ran(Step(q, w, adds[0]), w, adds[1..])
    ensures After(q, w, adds) == After(Step(q, w, adds[0]), w, adds[1..])
  {
  }

  /** With none added, as many calls as there are tasks run each of them exactly once. */
  lemma {:induction false} DrainRunsEachOnce(q: seq<LTask>, w: nat, adds: seq<seq<LTask>>)
    requires Distinct(q) && w > 0 && |adds| == |q| && forall i :: 0 <= i < |adds| ==> adds[i] == []
    ensures After(q, w, adds) == []
    ensures multiset(Ran(q, w, adds)) == multiset(q)
    decreases |q|
  {
    if q != [] {
      var k := Selected(q, w);
      var rest := Step(q, w, adds[0]);
      var front := StepRemovesOne(q, w, adds[0]);
      assert front == [];
      assert rest == RemoveAt(q, k);
      DrainRunsEachOnce(rest, w, adds[1..]);
      FirstRun(q, w, adds);
      RemoveAtMultiset(q, k);
    }
  }

  /** A task at index p outside the window cannot be run by the next p - w + 1 calls, whatever is added. */
  lemma {:induction false} OutsideWindowWaits(q: seq<LTask>, w: nat, adds: seq<seq<LTask>>, p: nat)
    requires Distinct(q) && 0 < w <= p < |q| && |adds| <= p - w + 1
    ensures q[p] !in Ran(q, w, adds) && q[p] in After(q, w, adds)
    decreases |adds|
  {
    if adds != [] {
      var p' := StepMovesUpByOne(q, w, adds[0], p);
      FirstRun(q, w, adds);
      if |adds| > 1 {
        OutsideWindowWaits(Step(q, w, adds[0]), w, adds[1..], p');
      }
    }
  }

  lemma StepMovesUpByOne(q: seq<LTask>, w: nat, adds: seq<LTask>, p: nat) returns (p': nat)
    requires Distinct(q) && 0 < w <= p < |q|
    ensures var next := Step(q, w, adds);
      Distinct(next) && p - 1 <= p' < |next| && next[p'] == q[p] && q[Selected(q, w)] != q[p]
  {
    var front := StepRemovesOne(q, w, adds);
    p' := |front| + p - 1;
    RemoveAtShifts(q, Selected(q, w), p);
  }

  lemma RemoveAtShifts<T>(q: seq<T>, k: nat, i: nat)
    requires k < i < |q|
    ensures RemoveAt(q, k)[i - 1] == q[i]
  {
  }

  ghost predicate MostUrgent(q: seq<LTask>, p: nat) {
    p < |q| && forall i :: 0 <= i < |q| && i != p ==> q[p].Priority < q[i].Priority
  }

  ghost predicate NoneAdded(adds: seq<seq<LTask>>) {
    forall i :: 0 <= i < |adds| ==> adds[i] == []
  }

  ghost predicate RunBy(q: seq<LTask>, w: nat, adds: seq<seq<LTask>>, i: nat, t: LTask)
    requires w > 0
  {
    i < |Ran(q, w, adds)| && Ran(q, w, adds)[i] == t
  }

  lemma RunByFirst(q: seq<LTask>, w: nat, adds: seq<seq<LTask>>, p: nat)
    requires w > 0 && IsSelected(q, w, p) && adds != []
    ensures RunBy(q, w, adds, 0, q[p])
  {
    SelectedIsUnique(q, w, Selected(q, w), p);
    FirstRun(q, w, adds);
  }

  lemma RunByLater(q: seq<LTask>, w: nat, adds: seq<seq<LTask>>, i: nat, t: LTask, next: seq<LTask>,
                   rest: seq<seq<LTask>>)
    requires w > 0 && q != [] && adds != [] && next == Step(q, w, adds[0]) && rest == adds[1..]
    requires RunBy(next, w, rest, i, t)
    ensures RunBy(q, w, adds, i + 1, t)
  {
    FirstRun(q, w, adds);
  }

  /** That is as long as it waits: with none added, the task of strictly least priority is run by the first call that
      has it in its window. */
  lemma {:induction false} MostUrgentWaitsNoLonger(q: seq<LTask>, w: nat, adds: seq<seq<LTask>>, p: nat)
    requires Distinct(q) && w > 0 && MostUrgent(q, p) && NoneAdded(adds) && |adds| > (if p < w then 0 else p - w + 1)
    ensures RunBy(q, w, adds, if p < w then 0 else p - w + 1, q[p])
    decreases p
  {
    if p < w {
      RunByFirst(q, w, adds, p);
    } else {
      var next, rest := MostUrgentMovesUp(q, w, adds, p);
      MostUrgentWaitsNoLonger(next, w, rest, p - 1);
      RunByLater(q, w, adds, p - w, q[p], next, rest);
    }
  }

  lemma MostUrgentMovesUp(q: seq<LTask>, w: nat, adds: seq<seq<LTask>>, p: nat)
    returns (next: seq<LTask>, rest: seq<seq<LTask>>)
    requires Distinct(q) && 0 < w <= p && MostUrgent(q, p) && NoneAdded(adds) && adds != []
    ensures next == Step(q, w, adds[0]) && rest == adds[1..]
    ensures Distinct(next) && MostUrgent(next, p - 1) && next[p - 1] == q[p] && NoneAdded(rest)
  {
    var k := Selected(q, w);
    next, rest := Step(q, w, adds[0]), adds[1..];
    var front := StepRemovesOne(q, w, adds[0]);
    assert |front + q| == |q|;
    assert next == RemoveAt(q, k);
    StillMostUrgent(q, k, p);
  }

  lemma StillMostUrgent(q: seq<LTask>, k: nat, p: nat)
    requires k < p && MostUrgent(q, p)
    ensures MostUrgent(RemoveAt(q, k), p - 1) && RemoveAt(q, k)[p - 1] == q[p]
  {
    var r := RemoveAt(q, k);
    RemoveAtShifts(q, k, p);
    forall i | 0 <= i < |r| && i != p - 1
      ensures r[p - 1].Priority < r[i].Priority
    {
      assert r[i] == q[if i < k then i else i + 1];
    }
  }

  class TaskSystem {
    var TaskQueue: LTask?
    var TaskQueueSelectLength: UINT16
    ghost var Queue: seq<LTask>
    ghost var All: set<LTask>    // every task constructed so far

    ghost predicate Linked(q: seq<LTask>)
      reads this`TaskQueue, q
    {
      && Distinct(q)
      && (q == [] ==> TaskQueue == null)
      && (q != [] ==> TaskQueue == q[0] && q[0].Left == null && q[|q| - 1].Right == null)
      && (forall i {:trigger q[i].Left} :: 1 <= i < |q| ==> q[i].Left == q[i - 1])
      && (forall i {:trigger q[i].Right} :: 0 <= i < |q| - 1 ==> q[i].Right == q[i + 1])
    }

    /** The links of a list that was q until the task at k was taken out. */
    ghost predicate LinkedAround(q: seq<LTask>, k: nat)
      requires k < |q|
      reads this`TaskQueue, q
    {
      var l, r := if k > 0 then q[k - 1] else null, if k + 1 < |q| then q[k + 1] else null;
      && Distinct(q)
      && TaskQueue == (if k > 0 then q[0] else r)
      && (forall i {:trigger q[i].Left} :: 1 <= i < |q| && i != k && i != k + 1 ==> q[i].Left == q[i - 1])
      && (forall i {:trigger q[i].Right} :: 0 <= i < |q| - 1 && i != k && i + 1 != k ==> q[i].Right == q[i + 1])
      && (l != null ==> l.Right == r && q[0].Left == null)
      && (r != null ==> r.Left == l && q[|q| - 1].Right == null)
    }

    lemma AroundIsLinked(q: seq<LTask>, k: nat)
      requires k < |q| && LinkedAround(q, k)
      ensures Linked(RemoveAt(q, k))
    {
      var n := RemoveAt(q, k);
      forall i | 1 <= i < |n|
        ensures n[i].Left == n[i - 1]
      {
        assert n[i] == q[if i < k then i else i + 1];
      }
      forall i | 0 <= i < |n| - 1
        ensures n[i].Right == n[i + 1]
      {
        assert n[i] == q[if i < k then i else i + 1];
      }
    }

    /** The list is q and well formed, and a task outside it has no neighbours. */
    ghost predicate Holds(q: seq<LTask>)
      reads this`TaskQueue, this`All, q, All
    {
      && Linked(q)
      && (forall t :: t in q ==> t in All)
      && (forall t :: t in All && t !in q ==> t.Detached())
    }

    ghost predicate Valid()
      reads this, Queue, All
    {
      Holds(Queue)
    }

    constructor ()
      ensures Valid() && Queue == [] && All == {} && TaskQueueSelectLength == 4
    {
      TaskQueue, TaskQueueSelectLength := null, 4;
      Queue, All := [], {};
    }

    method NewTask(priority: UINT16) returns (task: LTask)
      requires Valid()
      modifies this`All
      ensures fresh(task) && task.Priority == priority && Valid()
      ensures All == old(All) + {task}
    {
      task := new LTask(priority);
      All := All + {task};
    }

    predicate IsRunning(task: LTask)
      requires Valid() && task in All
      reads this, Queue, All
      ensures IsRunning(task) <==> task in Queue
    {
      assert task in Queue ==> exists i :: 0 <= i < |Queue| && Queue[i] == task;
      task.Left != null || task.Right != null || TaskQueue == task
    }

    method Enqueue(task: LTask)
      requires Valid() && task in All && task !in Queue
      modifies this`TaskQueue, this`Queue, All
      ensures Valid() && Queue == [task] + old(Queue)
    {
      var prior := TaskQueue;
      TaskQueue := task;
      task.Right := prior;
      if prior != null {
        prior.Left := task;
      }
      Queue := [task] + Queue;
    }

    method Dequeue(task: LTask)
      requires Valid() && task in All
      modifies this`TaskQueue, this`Queue, All
      ensures Valid() && Queue == Without(old(Queue), task)
    {
      ghost var q, k := Queue, if task in Queue then Place(Queue, task) else 0;
      Unlink(task, k);
      HoldsWithout(q, task, k);
      Queue := Without(q, task);
    }

    lemma HoldsWithout(q: seq<LTask>, task: LTask, k: nat)
      requires task in All && task.Detached() && Distinct(q) && forall t :: t in q ==> t in All
      requires if task in q then k < |q| && q[k] == task && LinkedAround(q, k) else Linked(q)
      requires forall t :: t in All && t !in q ==> t.Detached()
      ensures Holds(Without(q, task))
    {
      if task in q {
        AroundIsLinked(q, k);
        WithoutAt(q, k);
        MembersLeft(q, k);
      } else {
        WithoutAbsent(q, task);
      }
    }

    /** The assignments of Dequeue; k is the task's place, if it has one. */
    method Unlink(task: LTask, ghost k: nat)
      requires Valid() && task in All && (task in Queue ==> k < |Queue| && Queue[k] == task)
      modifies this`TaskQueue, All
      ensures task in Queue ==> LinkedAround(Queue, k)
      ensures task !in Queue ==> Linked(Queue)
      ensures task.Detached() && forall t :: t in All && t !in Queue ==> t.Detached()
    {
      var l, r := task.Left, task.Right;
      assert task in Queue ==> l == (if k == 0 then null else Queue[k - 1]);
      assert task in Queue ==> r == (if k == |Queue| - 1 then null else Queue[k + 1]);
      if l != null {
        l.Right := r;
      }
      if r != null {
        r.Left := l;
      }
      task.Left, task.Right := null, null;
      if task == TaskQueue {
        TaskQueue := r;
      }
    }

    method AddTask(task: LTask)
      requires Valid() && task in All
      modifies this`TaskQueue, this`Queue, All
      ensures Valid() && Queue == Added(old(Queue), task)
    {
      if !IsRunning(task) {
        Enqueue(task);
      }
    }

    /** What a task does to the queue when it runs: it adds the given tasks, in this order. */
    method Run(adds: seq<LTask>)
      requires Valid() && forall t :: t in adds ==> t in All
      modifies this`TaskQueue, this`Queue, All
      ensures Valid() && Queue == AddedAll(old(Queue), adds)
    {
      for i := 0 to |adds|
        invariant Valid()
        invariant AddedAll(Queue, adds[i..]) == AddedAll(old(Queue), adds)
      {
        assert adds[i..][1..] == adds[i + 1..];
        AddTask(adds[i]);
      }
    }

    /** The scan of DoEvents. */
    method Select() returns (selectedTask: LTask?)
      requires Valid()
      ensures Queue == [] || TaskQueueSelectLength == 0 ==> selectedTask == null
      ensures Queue != [] && TaskQueueSelectLength > 0 ==> selectedTask == Queue[Selected(Queue, TaskQueueSelectLength)]
    {
      ghost var q := Queue;
      selectedTask := null;
      var taskQueue := TaskQueue;
      var i := 0;
      while i < TaskQueueSelectLength && taskQueue != null
        invariant 0 <= i <= TaskQueueSelectLength && i <= |q|
        invariant taskQueue == if i < |q| then q[i] else null
        invariant selectedTask == if i == 0 then null else q[Selected(q, i)]
      {
        if selectedTask == null || selectedTask.Priority > taskQueue.Priority {
          selectedTask := taskQueue;
        }
        i, taskQueue := i + 1, taskQueue.Right;
      }
      if i > 0 {
        SelectedIsUnique(q, TaskQueueSelectLength, Selected(q, i), Selected(q, TaskQueueSelectLength));
      }
    }

    /** The selected task runs and leaves the queue. */
    method RunOnce(task: LTask, adds: seq<LTask>)
      requires Valid() && task in All && forall t :: t in adds ==> t in All
      modifies this`TaskQueue, this`Queue, All
      ensures Valid() && Queue == Without(AddedAll(old(Queue), adds), task)
    {
      Run(adds);
      Dequeue(task);
    }

    method DoEvents(adds: seq<LTask>) returns (ran: LTask?)
      requires Valid() && forall t :: t in adds ==> t in All
      modifies this`TaskQueue, this`Queue, All
      ensures Valid()
      ensures old(Queue) == [] || TaskQueueSelectLength == 0 ==> ran == null && Queue == old(Queue)
      ensures old(Queue) != [] && TaskQueueSelectLength > 0 ==>
                && ran == old(Queue)[Selected(old(Queue), TaskQueueSelectLength)]
                && Queue == Step(old(Queue), TaskQueueSelectLength, adds)
    {
      ran := Select();
      if ran != null {
        RunOnce(ran, adds);
      }
    }
  }
}
