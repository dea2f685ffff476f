// The round-robin scheduler of kernel/sched.c on its intrusive run queue.
module Sched {
  import opened List
  import Base

  datatype TaskState = Running | Interruptible

  const IDLE: nat := 0

  // Run queue, current task and task states, by task number.
  datatype Cpu = Cpu(queue: seq<nat>, current: nat, state: map<nat, TaskState>)

  // --------------------------------------------------------- what it computes

  function Rotate(q: seq<nat>): seq<nat> { if q == [] then [] else q[1..] + [q[0]] }

  // __sched_next: rotate, then take the head.
  function Pick(q: seq<nat>): nat { if q == [] then IDLE else Rotate(q)[0] }

  function Without(q: seq<nat>, p: nat): (r: seq<nat>)
    ensures forall x :: x in r ==> x in q
    ensures p !in q ==> r == q
  {
    if q == [] then [] else if q[0] == p then q[1..] else [q[0]] + Without(q[1..], p)
  }

  // __schedule: a task that gives up the CPU voluntarily and is no longer
  // running leaves the queue first.
  function Schedule(c: Cpu, preempt: bool): Cpu
    requires c.current in c.state
  {
    var q := if !preempt && c.state[c.current] != Running then Without(c.queue, c.current) else c.queue;
    c.(queue := Rotate(q), current := Pick(q))
  }

  predicate Wakes(c: Cpu, p: nat)
    requires p in c.state
  {
    c.state[p] != Running
  }

  function WakeUp(c: Cpu, p: nat): Cpu
    requires p in c.state
  {
    if Wakes(c, p) then c.(state := c.state[p := Running], queue := c.queue + [p]) else c
  }

  predicate Distinct(q: seq<nat>) { forall i, j :: 0 <= i < j < |q| ==> q[i] != q[j] }

  // ---------------------------------------------------------- fair turns

  function Turn(q: seq<nat>, k: nat): (r: seq<nat>)
    ensures |r| == |q|
  {
    if k == 0 then q else Rotate(Turn(q, k - 1))
  }

  // k timer ticks rotate the queue by k.
  lemma {:induction false} TurnAt(q: seq<nat>, k: nat, i: nat)
    requires i < |q|
    ensures Turn(q, k)[i] == q[(i + k) % |q|]
    decreases k
  {
    var n := |q|;
    if k > 0 {
      var j := if i + 1 < n then i + 1 else 0;
      TurnAt(q, k - 1, j);
      assert Turn(q, k)[i] == Turn(q, k - 1)[j];
      WrapAdd(j, k - 1, n, i);
    }
  }

  // The pick after k ticks is the task k + 1 places on.
  lemma PickAt(q: seq<nat>, k: nat)
    requires q != []
    ensures Pick(Turn(q, k)) == q[(k + 1) % |q|]
  {
    var n := |q|;
    var j := if 1 < n then 1 else 0;
    TurnAt(q, k, j);
    assert Pick(Turn(q, k)) == Turn(q, k)[j];
    WrapAdd(j, k, n, 0);
  }

  lemma WrapAdd(j: nat, k: nat, n: nat, i: nat)
    requires n > 0 && i < n && j == if i + 1 < n then i + 1 else 0
    ensures (j + k) % n == (i + k + 1) % n
  {
    if i + 1 == n {
      ModShift(k, n);
    }
  }

  lemma ModShift(k: nat, n: nat)
    requires n > 0
    ensures (k + n) % n == k % n
  {
    var q, r := k / n, k % n;
    assert k + n == n * (q + 1) + r;
    Base.DivModUnique(k + n, n, q + 1, r);
  }

  // The tasks picked by n consecutive ticks.
  function Picks(q: seq<nat>, n: nat): (r: seq<nat>)
    ensures |r| == n
  {
    if n == 0 then [] else Picks(q, n - 1) + [Pick(Turn(q, n - 1))]
  }

  lemma {:induction false} PicksAt(q: seq<nat>, n: nat, k: nat)
    requires q != [] && k < n
    ensures Picks(q, n)[k] == q[(k + 1) % |q|]
    decreases n
  {
    if k == n - 1 { PickAt(q, k); } else { PicksAt(q, n - 1, k); }
  }

  // From any point on, as many ticks as there are tasks pick each task exactly once.
  lemma EachOnce(q: seq<nat>, s: nat, p: nat)
    requires Distinct(q) && p in q
    ensures exists k :: 0 <= k < |q| && Picks(Turn(q, s), |q|)[k] == p
    ensures forall k, l :: 0 <= k < l < |q| ==> Picks(Turn(q, s), |q|)[k] != Picks(Turn(q, s), |q|)[l]
  {
    hide Turn, Picks;
    var n := |q|;
    var t := Turn(q, s);
    TurnDistinct(q, s);
    var i :| 0 <= i < n && t[i] == p;
    var k := if i == 0 then n - 1 else i - 1;
    PicksAt(t, n, k);
    SmallMod(k + 1, n);
    forall k, l | 0 <= k < l < n ensures Picks(t, n)[k] != Picks(t, n)[l] {
      PicksAt(t, n, k);
      PicksAt(t, n, l);
      SmallMod(k + 1, n);
      SmallMod(l + 1, n);
    }
  }

  lemma SmallMod(x: nat, n: nat)
    requires 0 < x <= n
    ensures x % n == if x == n then 0 else x
  {
  }

  lemma {:induction false} TurnDistinct(q: seq<nat>, s: nat)
    requires Distinct(q)
    ensures Distinct(Turn(q, s)) && forall p :: p in q <==> p in Turn(q, s)
  {
    if s > 0 {
      TurnDistinct(q, s - 1);
      RotateDistinct(Turn(q, s - 1));
    }
  }

  lemma RotateDistinct(q: seq<nat>)
    requires Distinct(q)
    ensures Distinct(Rotate(q)) && forall p :: p in Rotate(q) <==> p in q
  {
    if q != [] {
      var r := Rotate(q);
      assert forall i :: 0 <= i < |q| - 1 ==> r[i] == q[i + 1];
      assert q == [q[0]] + q[1..];
    }
  }

  lemma {:induction false} WithoutDistinct(q: seq<nat>, p: nat)
    requires Distinct(q)
    ensures Distinct(Without(q, p)) && forall x :: x in Without(q, p) <==> x in q && x != p
  {
    if q != [] {
      assert q == [q[0]] + q[1..];
      if q[0] != p {
        WithoutDistinct(q[1..], p);
        var r := Without(q[1..], p);
        assert q[0] !in q[1..];
        assert forall i :: 0 < i <= |r| ==> ([q[0]] + r)[i] == r[i - 1];
      }
    }
  }

  // -------------------------------------------------------------- the class

  // The index that Without removes.
  function IndexOf(q: seq<nat>, p: nat): (i: nat)
    requires p in q
    ensures i < |q| && q[i] == p
  {
    if q[0] == p then 0 else 1 + IndexOf(q[1..], p)
  }

  lemma {:induction false} WithoutIs(q: seq<nat>, p: nat)
    requires p in q
    ensures Without(q, p) == q[..IndexOf(q, p)] + q[IndexOf(q, p) + 1..]
  {
    if q[0] == p {
      assert q[..0] + q[1..] == q[1..];
    } else {
      WithoutIs(q[1..], p);
      CutTail(q, IndexOf(q[1..], p));
    }
  }

  // Cutting an element out of the tail.
  lemma CutTail(q: seq<nat>, i: nat)
    requires i + 1 < |q|
    ensures [q[0]] + (q[1..][..i] + q[1..][i + 1..]) == q[..i + 1] + q[i + 2..]
  {
  }

  ghost function NodesOf(node: map<nat, ListHead>, q: seq<nat>): (s: seq<ListHead>)
    requires forall p :: p in q ==> p in node
    ensures |s| == |q| && forall i :: 0 <= i < |q| ==> s[i] == node[q[i]]
  {
    seq(|q|, i requires 0 <= i < |q| => node[q[i]])
  }

  class Scheduler {
    const runQueue: ListHead
    var current: nat                    // current_task
    var state: map<nat, TaskState>      // the state field of each task
    var node: map<nat, ListHead>        // the run_node of each task but the idle one
    ghost var queue: seq<nat>

    ghost function Nodes(q: seq<nat>): (s: seq<ListHead>)
      reads this
      requires forall p :: p in q ==> p in node
    {
      NodesOf(node, q)
    }

    ghost predicate Known()
      reads this
    {
      && (forall p :: p in node ==> p in state && node[p].owner == p && node[p] != runQueue)
      && (forall p :: p in node ==> p != IDLE && node[p].use == RunNode)
      && runQueue.owner == IDLE && runQueue.use == RunNode
      && (forall p :: p in queue ==> p in node) && current in state && IDLE in state
    }

    // The run queue is a ring of the run nodes of exactly the queued tasks, in order.
    ghost predicate Valid()
      reads this, runQueue, node.Values
    {
      Known() && Distinct(queue) && Ring(runQueue, Nodes(queue))
    }

    ghost function View(): Cpu
      reads this
    {
      Cpu(queue, current, state)
    }

    constructor ()
      ensures Valid() && View() == Cpu([], IDLE, map[IDLE := Running]) && fresh(runQueue) && node == map[]
    {
      runQueue := new ListHead(IDLE, RunNode);
      current, state, node, queue := IDLE, map[IDLE := Running], map[], [];
      new;
      InitListHead(runQueue);
    }

    // sched_enqueue of a task that is not on the queue.
    method Enqueue(p: nat)
      requires Valid() && p in node && p !in queue
      modifies this`queue, runQueue, node.Values
      ensures Valid() && queue == old(queue) + [p]
    {
      ListAddTail(node[p], runQueue, Nodes(queue));
      queue := queue + [p];
      assert Nodes(queue) == old(Nodes(queue)) + [node[p]];
    }

    method Dequeue(p: nat)
      requires Valid() && p in queue
      modifies this`queue, runQueue, node.Values
      ensures Valid() && queue == Without(old(queue), p)
    {
      hide Ring, NodesOf, Distinct, Without;
      ghost var i := IndexOf(queue, p);
      WithoutIs(queue, p);
      WithoutDistinct(queue, p);
      NodesWithout(node, queue, i);
      ListDel(node[p], runQueue, Nodes(queue), i);
      queue := Without(queue, p);
    }

    // __sched_next
    method SchedNext() returns (next: nat)
      requires Valid()
      modifies this`queue, runQueue, node.Values
      ensures Valid() && queue == Rotate(old(queue)) && next == Pick(old(queue))
    {
      var empty := ListEmpty(runQueue, Nodes(queue));
      if empty {
        return IDLE;
      }
      MoveToBack();
      next := runQueue.next.owner;
    }

    method MoveToBack()
      requires Valid() && queue != []
      modifies this`queue, runQueue, node.Values
      ensures Valid() && queue == Rotate(old(queue))
    {
      hide Ring, NodesOf, Distinct, Rotate;
      NodesAreValues(node, queue);
      RotateDistinct(queue);
      NodesRotate(node, queue);
      MoveFirstToBack(runQueue, Nodes(queue));
      queue := Rotate(queue);
    }

    // __schedule: a task that no longer runs must be on the queue to leave it.
    method ScheduleNow(preempt: bool)
      requires Valid() && (!preempt && state[current] != Running ==> current in queue)
      modifies this`queue, this`current, runQueue, node.Values
      ensures Valid() && View() == Schedule(old(View()), preempt)
    {
      hide Ring, NodesOf, Distinct, Rotate, Pick, Without;
      if !preempt && state[current] != Running {
        Dequeue(current);
      }
      PickKnown(queue);
      var next := SchedNext();
      if next != current {
        current := next;
      }
    }

    // task_set_state
    method SetState(p: nat, st: TaskState)
      requires Valid() && p in state
      modifies this`state
      ensures Valid() && View() == old(View()).(state := old(state)[p := st])
    {
      state := state[p := st];
    }

    // kthread_run: a new task, ready to run.
    method Start(p: nat)
      requires Valid() && p !in state
      modifies this`state, this`node, this`queue, runQueue, node.Values
      ensures Valid() && node.Keys == old(node.Keys) + {p}
      ensures View() == Cpu(old(queue) + [p], old(current), old(state)[p := Running])
      ensures forall x :: x in node.Values ==> x in old(node.Values) || fresh(x)
    {
      hide Ring, NodesOf, Distinct;
      var n := new ListHead(p, RunNode);
      InitListHead(n);
      AddNode(p, n);
      Enqueue(p);
    }

    method AddNode(p: nat, n: ListHead)
      requires Valid() && p !in state && n.owner == p && n.use == RunNode && n != runQueue && n !in node.Values
      modifies this`state, this`node
      ensures Valid() && node == old(node)[p := n] && View() == old(View()).(state := old(state)[p := Running])
    {
      ghost var s := Nodes(queue);
      node, state := node[p := n], state[p := Running];
      assert Nodes(queue) == s;
    }

    // wake_up_task
    method WakeUpTask(p: nat) returns (woken: bool)
      requires Valid() && p in node && (state[p] != Running ==> p !in queue)
      modifies this`queue, this`state, runQueue, node.Values
      ensures Valid() && View() == WakeUp(old(View()), p) && woken == Wakes(old(View()), p)
    {
      woken := false;
      if state[p] != Running {
        state := state[p := Running];
        Enqueue(p);
        woken := true;
      }
    }
  }

  lemma RunNodes(s: Scheduler)
    requires s.Valid()
    ensures s.runQueue.use == RunNode && forall x :: x in s.node.Values ==> x.use == RunNode
  {
    hide Ring, NodesOf, Distinct;
  }

  lemma NodesWithout(node: map<nat, ListHead>, q: seq<nat>, i: nat)
    requires i < |q| && forall p :: p in q ==> p in node
    ensures forall p :: p in q[..i] + q[i + 1..] ==> p in node
    ensures NodesOf(node, q[..i] + q[i + 1..]) == NodesOf(node, q)[..i] + NodesOf(node, q)[i + 1..]
  {
  }

  lemma NodesRotate(node: map<nat, ListHead>, q: seq<nat>)
    requires q != [] && forall p :: p in q ==> p in node
    ensures forall p :: p in Rotate(q) ==> p in node
    ensures var s := NodesOf(node, q);
            s[..0] + s[1..] == s[1..] && NodesOf(node, Rotate(q)) == s[1..] + [s[0]]
  {
    var s, r := NodesOf(node, q), Rotate(q);
    forall p | p in r ensures p in node { assert p in q; }
    var t := NodesOf(node, r);
    forall i | 0 <= i < |q| ensures t[i] == (s[1..] + [s[0]])[i] {
      assert r[i] == if i + 1 < |q| then q[i + 1] else q[0];
    }
  }

  lemma NodesAreValues(node: map<nat, ListHead>, q: seq<nat>)
    requires forall p :: p in q ==> p in node
    ensures forall x :: x in NodesOf(node, q) ==> x in node.Values
  {
  }

  lemma PickKnown(q: seq<nat>)
    ensures Pick(q) == IDLE || Pick(q) in q
  {
    if q != [] { assert Rotate(q)[0] in Rotate(q); }
  }
}
