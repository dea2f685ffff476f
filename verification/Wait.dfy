// Wait queues (kernel/wait.c, include/wait.h).
module Wait {
  import opened List
  import opened Sched

  // ------------------------------------------------------ joining and leaving

  // A waiter: its task, its flags, and whether its wake function insists on the
  // number of its task (pid_filter_wake_func).
  datatype Waiter = Waiter(task: nat, flags: bv32, filter: bool)

  class WaitQueue {
    const head: ListHead
    var waiter: map<ListHead, Waiter>     // the structures around the entries
    ghost var entries: seq<ListHead>

    // The entries on the queue form its ring; every other one is linked to itself.
    ghost predicate Valid()
      reads this, head, waiter.Keys
    {
      && (forall e :: e in entries ==> e in waiter)
      && Ring(head, entries) && head.use != RunNode && head !in waiter && Whole()
    }

    ghost predicate Whole()
      reads this, waiter.Keys
    {
      && (forall e :: e in waiter ==> e.use == head.use && e.owner == waiter[e].task)
      && (forall e :: e in waiter && e !in entries ==> Ring(e, []))
    }

    ghost function Waiters(): (ws: seq<Waiter>)
      requires Valid()
      reads this, head, waiter.Keys
    {
      WaitersOf(waiter, entries)
    }

    constructor (use: Use)
      requires use != RunNode
      ensures Valid() && entries == [] && fresh(head) && head.use == use && waiter == map[]
    {
      head := new ListHead(0, use);
      entries, waiter := [], map[];
      new;
      InitListHead(head);
    }

    // init_waitqueue_entry, for a new entry.
    method InitEntry(task: nat, filter: bool) returns (e: ListHead)
      requires Valid()
      modifies this`waiter
      ensures Valid() && fresh(e) && e.owner == task && e !in entries
      ensures waiter == old(waiter)[e := Waiter(task, 0, filter)]
    {
      e := new ListHead(task, head.use);
      InitListHead(e);
      waiter := waiter[e := Waiter(task, 0, filter)];
    }

    // prepare_to_wait: joins the queue unless already on it, then sets the task's state.
    method PrepareToWait(s: Scheduler, e: ListHead, st: TaskState)
      requires Valid() && e in waiter && s.Valid() && waiter[e].task in s.state
      modifies this`entries, head, waiter.Keys, s`state
      ensures Valid() && entries == if e in old(entries) then old(entries) else old(entries) + [e]
      ensures s.Valid() && s.View() == old(s.View()).(state := old(s.state)[waiter[e].task := st])
    {
      hide Ring, NodesOf, Distinct, Scheduler.Valid, Scheduler.Known;
      RunNodes(s);
      Join(e);
      s.SetState(waiter[e].task, st);
    }

    method Join(e: ListHead)
      requires Valid() && e in waiter
      modifies this`entries, head, waiter.Keys
      ensures Valid() && entries == if e in old(entries) then old(entries) else old(entries) + [e]
    {
      LinkedToSelf(e, head, entries);
      if e.next == e {
        ListAddTail(e, head, entries);
        entries := entries + [e];
      }
    }

    // finish_wait: the task runs, and the entry leaves the queue if it is on it.
    method FinishWait(s: Scheduler, e: ListHead)
      requires Valid() && e in waiter && s.Valid() && waiter[e].task in s.state
      modifies this`entries, head, waiter.Keys, s`state
      ensures Valid() && e !in entries && Removed(old(entries), entries, e)
      ensures s.Valid() && s.View() == old(s.View()).(state := old(s.state)[waiter[e].task := Running])
    {
      hide Ring, NodesOf, Distinct, Scheduler.Valid, Scheduler.Known, Removed;
      s.SetState(waiter[e].task, Running);
      RunNodes(s);
      Leave(e);
    }

    method Leave(e: ListHead)
      requires Valid() && e in waiter
      modifies this`entries, head, waiter.Keys
      ensures Valid() && e !in entries && Removed(old(entries), entries, e)
    {
      hide Ring;
      LinkedToSelf(e, head, entries);
      if e.next != e {
        ghost var i :| 0 <= i < |entries| && entries[i] == e;
        ghost var s := entries;
        WithoutOne(head, s, i);
        ListDel(e, head, s, i);
        entries := s[..i] + s[i + 1..];
        InitListHead(e);
      }
    }

    // __wakeup: walks the ring and calls the wake functions.
    method Wakeup(s: Scheduler, mode: bv32, nrExclusive: int, key: nat)
      requires Valid() && s.Valid() && Wakeable(s.View(), s.node.Keys, Waiters())
      modifies s`queue, s`state, s.runQueue, s.node.Values
      ensures Valid() && s.Valid() && Wakeable(old(s.View()), old(s.node.Keys), Waiters())
      ensures s.View() == WakeQueue(old(s.View()), Waiters(), mode, nrExclusive, key)
    {
      hide NodesOf, Distinct, Ring, Wakeable, Course, Woken, CountsAgainst, WakeQueue, WaitersOf;
      hide Scheduler.Valid, Scheduler.Known, Whole;
      WaitNodes(this);
      ghost var ws := Waiters();
      var nr := nrExclusive;
      FirstOfRing(head, entries);
      WaitersAre(waiter, entries);
      ghost var whole := CourseStart(s.View(), s.node.Keys, ws, mode, nr, key);
      var cur := head.next;
      ghost var i := 0;
      while cur != head
        invariant Valid() && s.Valid() && s.node == old(s.node)
        invariant Course(s.View(), s.node.Keys, ws, i, mode, nr, key, whole)
        invariant i <= |entries| && cur == (if i < |entries| then entries[i] else head)
        decreases |entries| - i
      {
        var w := waiter[cur];
        NextOfRing(head, entries, i);
        RunNodes(s);
        CourseStep(s.View(), s.node.Keys, ws, i, mode, nr, key, whole);
        var counted := WakeOne(s, w, mode, key, ws);
        if counted {
          nr := nr - 1;
          if nr == 0 {
            return;
          }
        }
        cur := cur.next;
        i := i + 1;
      }
      CourseEnd(s.View(), s.node.Keys, ws, mode, nr, key, whole);
    }
  }

  // The wake-ups from waiter i on complete the whole.
  ghost predicate Course(c: Cpu, known: set<nat>, ws: seq<Waiter>, i: nat, mode: bv32, nr: int, key: nat, whole: Cpu) {
    && Wakeable(c, known, ws) && i <= |ws|
    && (forall w :: w in ws[i..] ==> w in ws) && WakeQueue(c, ws[i..], mode, nr, key) == whole
  }

  lemma CourseStart(c: Cpu, known: set<nat>, ws: seq<Waiter>, mode: bv32, nr: int, key: nat) returns (whole: Cpu)
    requires Wakeable(c, known, ws)
    ensures Course(c, known, ws, 0, mode, nr, key, whole) && (forall w :: w in ws ==> w.task in c.state)
    ensures whole == WakeQueue(c, ws, mode, nr, key)
  {
    whole := WakeQueue(c, ws, mode, nr, key);
    assert ws[0..] == ws;
  }

  lemma CourseStep(c: Cpu, known: set<nat>, ws: seq<Waiter>, i: nat, mode: bv32, nr: int, key: nat, whole: Cpu)
    requires i < |ws| && Course(c, known, ws, i, mode, nr, key, whole)
    ensures ws[i].task in c.state && Wakeable(c, known, ws)
    ensures var d, n := Woken(c, ws[i], mode, key), if CountsAgainst(c, ws[i], mode, key) then nr - 1 else nr;
            if CountsAgainst(c, ws[i], mode, key) && n == 0 then d == whole
            else Course(d, known, ws, i + 1, mode, n, key, whole)
  {
    hide Selected, IsExclusive, WakeUp;
    WokenWakeable(c, known, ws, ws[i], mode, key);
    assert ws[i..][0] == ws[i] && ws[i..][1..] == ws[i + 1..];
    assert forall w :: w in ws[i + 1..] ==> w in ws[i..];
  }

  lemma CourseEnd(c: Cpu, known: set<nat>, ws: seq<Waiter>, mode: bv32, nr: int, key: nat, whole: Cpu)
    requires Course(c, known, ws, |ws|, mode, nr, key, whole)
    ensures c == whole
  {
  }

  lemma WaitersAre(waiter: map<ListHead, Waiter>, es: seq<ListHead>)
    requires forall e :: e in es ==> e in waiter
    ensures |WaitersOf(waiter, es)| == |es| && forall i :: 0 <= i < |es| ==> WaitersOf(waiter, es)[i] == waiter[es[i]]
  {
  }

  // e is taken out of s, if it is in it.
  ghost predicate Removed(s: seq<ListHead>, t: seq<ListHead>, e: ListHead) {
    if e !in s then t == s
    else exists i :: 0 <= i < |s| && s[i] == e && t == s[..i] + s[i + 1..]
  }

  ghost function WaitersOf(waiter: map<ListHead, Waiter>, es: seq<ListHead>): (ws: seq<Waiter>)
    requires forall e :: e in es ==> e in waiter
    ensures |ws| == |es| && forall i :: 0 <= i < |es| ==> ws[i] == waiter[es[i]]
  {
    seq(|es|, i requires 0 <= i < |es| => waiter[es[i]])
  }

  lemma WaitNodes(q: WaitQueue)
    requires q.Valid()
    ensures q.head.use != RunNode && forall e :: e in q.waiter ==> e.use == q.head.use && e.owner == q.waiter[e].task
  {
    hide Ring;
  }

  lemma WithoutOne(head: ListHead, s: seq<ListHead>, i: nat)
    requires Ring(head, s) && i < |s|
    ensures s[i] !in s[..i] + s[i + 1..] && s[i] != head
    ensures forall x :: x in s <==> x == s[i] || x in s[..i] + s[i + 1..]
  {
  }

  // list_empty on an entry tells whether it is on the queue.
  lemma LinkedToSelf(e: ListHead, head: ListHead, s: seq<ListHead>)
    requires Ring(head, s) && e != head && (e in s || Ring(e, []))
    ensures e.next == e <==> e !in s
  {
    if e in s {
      var i :| 0 <= i < |s| && s[i] == e;
      assert s[i].next == NextIn(head, s, i);
      assert NextIn(head, s, i) != e;
    }
  }

  // ------------------------------------------------------------- waking up

  const EXCLUSIVE: bv32 := 1

  // The wake function of w called with the given key.
  predicate Accepts(w: Waiter, key: nat) { !w.filter || w.task == key }

  predicate Selected(w: Waiter, mode: bv32, key: nat) { (mode == 0 || w.flags & mode != 0) && Accepts(w, key) }

  predicate IsExclusive(w: Waiter) { w.flags & EXCLUSIVE != 0 }

  predicate CountsAgainst(c: Cpu, w: Waiter, mode: bv32, key: nat)
    requires w.task in c.state
  {
    Selected(w, mode, key) && Wakes(c, w.task) && IsExclusive(w)
  }

  // __wakeup
  function WakeQueue(c: Cpu, ws: seq<Waiter>, mode: bv32, nr: int, key: nat): (r: Cpu)
    requires forall w :: w in ws ==> w.task in c.state
    ensures r.current == c.current && r.state.Keys == c.state.Keys
    decreases |ws|
  {
    if ws == [] then c
    else
      var d := if Selected(ws[0], mode, key) then WakeUp(c, ws[0].task) else c;
      if CountsAgainst(c, ws[0], mode, key) && nr - 1 == 0 then d
      else WakeQueue(d, ws[1..], mode, if CountsAgainst(c, ws[0], mode, key) then nr - 1 else nr, key)
  }

  // Waking a set of tasks, one after the other.
  function WakeEach(c: Cpu, ps: seq<nat>): (r: Cpu)
    requires forall p :: p in ps ==> p in c.state
    ensures r.current == c.current && r.state.Keys == c.state.Keys
    decreases |ps|
  {
    if ps == [] then c else WakeEach(WakeUp(c, ps[0]), ps[1..])
  }

  function Tasks(ws: seq<Waiter>): (ps: seq<nat>)
    ensures |ps| == |ws| && forall i :: 0 <= i < |ws| ==> ps[i] == ws[i].task
  {
    seq(|ws|, i requires 0 <= i < |ws| => ws[i].task)
  }

  // wake_up on plain waiters wakes all of them.
  lemma {:induction false} WakeQueueAll(c: Cpu, ws: seq<Waiter>, nr: int, key: nat)
    requires forall w :: w in ws ==> w.task in c.state && w.flags == 0 && !w.filter
    ensures WakeQueue(c, ws, 0, nr, key) == WakeEach(c, Tasks(ws))
    decreases |ws|
  {
    if ws != [] {
      var d := WakeUp(c, ws[0].task);
      assert !IsExclusive(ws[0]);
      WakeQueueAll(d, ws[1..], nr, key);
      assert Tasks(ws)[1..] == Tasks(ws[1..]);
    }
  }

  // Tasks that are not named are left alone.
  lemma {:induction false} OthersSleepOn(c: Cpu, ws: seq<Waiter>, mode: bv32, nr: int, key: nat, p: nat)
    requires (forall w :: w in ws ==> w.task in c.state) && p in c.state && (forall w :: w in ws ==> w.task != p)
    ensures WakeQueue(c, ws, mode, nr, key).state[p] == c.state[p]
    decreases |ws|
  {
    hide Selected, IsExclusive;
    if ws != [] {
      var d := Woken(c, ws[0], mode, key);
      assert forall w :: w in ws[1..] ==> w in ws;
      OthersSleepOn(d, ws[1..], mode, if CountsAgainst(c, ws[0], mode, key) then nr - 1 else nr, key, p);
    }
  }

  // An entry that __wakeup calls on to wake task p: the mode asks for its flags, and
  // its filter, if it has one, is for its own task.
  predicate CallsOn(w: Waiter, mode: bv32, key: nat, p: nat) {
    w.task == p && (mode == 0 || w.flags & mode != 0) && (w.filter ==> key == p)
  }

  ghost predicate Called(ws: seq<Waiter>, mode: bv32, key: nat, p: nat) {
    exists w :: w in ws && CallsOn(w, mode, key, p)
  }

  // If no exclusive waiter uses up the count, exactly the tasks called on run in the end,
  // besides those that did already.
  lemma {:induction false} WokenIff(c: Cpu, ws: seq<Waiter>, mode: bv32, nr: int, key: nat, p: nat)
    requires (forall w :: w in ws ==> w.task in c.state) && p in c.state
    requires nr <= 0 || nr > |ws| || forall w :: w in ws ==> !IsExclusive(w)
    ensures WakeQueue(c, ws, mode, nr, key).state[p] == Running <==> c.state[p] == Running || Called(ws, mode, key, p)
    decreases |ws|
  {
    hide IsExclusive, Called, Selected;
    if ws == [] {
      NobodyCalled(mode, key, p);
    } else {
      var d := Woken(c, ws[0], mode, key);
      assert forall w :: w in ws[1..] ==> w in ws;
      WokenIff(d, ws[1..], mode, if CountsAgainst(c, ws[0], mode, key) then nr - 1 else nr, key, p);
      CalledEither(ws, mode, key, p);
      FirstWoken(c, ws, mode, key, p);
    }
  }

  lemma NobodyCalled(mode: bv32, key: nat, p: nat)
    ensures !Called([], mode, key, p)
  {
  }

  lemma FirstWoken(c: Cpu, ws: seq<Waiter>, mode: bv32, key: nat, p: nat)
    requires ws != [] && ws[0].task in c.state && p in c.state
    ensures Woken(c, ws[0], mode, key).state[p] == Running <==>
            c.state[p] == Running || Called(ws[..1], mode, key, p)
  {
    assert CallsOn(ws[0], mode, key, p) <==> ws[0].task == p && Selected(ws[0], mode, key);
    hide CallsOn, Selected;
    assert ws[..1] == [ws[0]] && ws[0] in ws[..1];
  }

  lemma CalledEither(ws: seq<Waiter>, mode: bv32, key: nat, p: nat)
    requires ws != []
    ensures Called(ws, mode, key, p) <==> Called(ws[..1], mode, key, p) || Called(ws[1..], mode, key, p)
  {
    hide CallsOn;
    assert ws == ws[..1] + ws[1..];
  }

  // Waiters are served in the order in which they joined: whoever is called on before
  // the entry of a task that was woken runs too.
  lemma {:induction false} InOrder(c: Cpu, ws: seq<Waiter>, mode: bv32, nr: int, key: nat, i: nat, j: nat)
    requires (forall w :: w in ws ==> w.task in c.state) && i < j < |ws| && Selected(ws[i], mode, key)
    requires c.state[ws[j].task] != Running && WakeQueue(c, ws, mode, nr, key).state[ws[j].task] == Running
    requires forall k :: 0 <= k < j ==> ws[k].task != ws[j].task
    ensures WakeQueue(c, ws, mode, nr, key).state[ws[i].task] == Running
    decreases |ws|
  {
    hide Selected, IsExclusive;
    var d, n := Woken(c, ws[0], mode, key), if CountsAgainst(c, ws[0], mode, key) then nr - 1 else nr;
    assert forall w :: w in ws[1..] ==> w in ws;
    if i == 0 {
      if !(CountsAgainst(c, ws[0], mode, key) && nr - 1 == 0) { StaysAwake(d, ws[1..], mode, n, key, ws[0].task); }
    } else {
      assert ws[j] == ws[1..][j - 1] && ws[i] == ws[1..][i - 1];
      assert forall k :: 0 <= k < j - 1 ==> ws[1..][k] == ws[k + 1];
      InOrder(d, ws[1..], mode, n, key, i - 1, j - 1);
    }
  }

  lemma {:induction false} StaysAwake(c: Cpu, ws: seq<Waiter>, mode: bv32, nr: int, key: nat, p: nat)
    requires (forall w :: w in ws ==> w.task in c.state) && p in c.state && c.state[p] == Running
    ensures WakeQueue(c, ws, mode, nr, key).state[p] == Running
    decreases |ws|
  {
    hide Selected, IsExclusive;
    if ws != [] {
      var d := Woken(c, ws[0], mode, key);
      assert forall w :: w in ws[1..] ==> w in ws;
      StaysAwake(d, ws[1..], mode, if CountsAgainst(c, ws[0], mode, key) then nr - 1 else nr, key, p);
    }
  }

  // The task waits in exclusive entries only.
  predicate OnlyExclusive(ws: seq<Waiter>, p: nat) { forall w :: w in ws && w.task == p ==> IsExclusive(w) }

  // The tasks waiting exclusively that slept before and run afterwards.
  ghost function Roused(c: Cpu, d: Cpu, ws: seq<Waiter>): (r: set<nat>)
    requires forall w :: w in ws ==> w.task in c.state && w.task in d.state
  {
    set w | w in ws && OnlyExclusive(ws, w.task) && c.state[w.task] != Running && d.state[w.task] == Running :: w.task
  }

  // The first entry rouses its own task at most, and only when it counts; the rest is up to the other entries.
  lemma FirstRouses(c: Cpu, d: Cpu, e: Cpu, ws: seq<Waiter>, mode: bv32, nr: int, key: nat, p: nat)
    requires ws != [] && (forall w :: w in ws ==> w.task in c.state)
    requires d == Woken(c, ws[0], mode, key) && e == WakeQueue(d, ws[1..], mode, nr, key)
    requires p in Roused(c, e, ws)
    ensures p in Roused(d, e, ws[1..]) || (CountsAgainst(c, ws[0], mode, key) && p == ws[0].task)
  {
    hide Selected, IsExclusive, WakeQueue;
    var rest := ws[1..];
    assert forall w :: w in rest ==> w in ws;
    if p != ws[0].task || !CountsAgainst(c, ws[0], mode, key) {
      assert d.state[p] == c.state[p];
      if forall w :: w in rest ==> w.task != p { OthersSleepOn(d, rest, mode, nr, key, p); }
    }
  }

  // However many tasks wait exclusively, no more of them are roused than asked for.
  lemma {:induction false} ExclusiveLimit(c: Cpu, ws: seq<Waiter>, mode: bv32, nr: int, key: nat)
    requires (forall w :: w in ws ==> w.task in c.state) && nr > 0
    ensures |Roused(c, WakeQueue(c, ws, mode, nr, key), ws)| <= nr
    decreases |ws|
  {
    hide Selected, IsExclusive;
    if ws != [] {
      var rest := ws[1..];
      var d, counts := Woken(c, ws[0], mode, key), CountsAgainst(c, ws[0], mode, key);
      var all := Roused(c, WakeQueue(c, ws, mode, nr, key), ws);
      if counts && nr - 1 == 0 {
        NotMore(all, {ws[0].task});
      } else {
        var n := if counts then nr - 1 else nr;
        var e := WakeQueue(d, rest, mode, n, key);
        var later := Roused(d, e, rest);
        forall p | p in all ensures p in later || (counts && p == ws[0].task) {
          FirstRouses(c, d, e, ws, mode, n, key, p);
        }
        ExclusiveLimit(d, rest, mode, n, key);
        NotMore(all, if counts then later + {ws[0].task} else later);
      }
    }
  }

  lemma {:induction false} NotMore(a: set<nat>, b: set<nat>)
    requires a <= b
    ensures |a| <= |b|
  {
    if a != {} {
      var x :| x in a;
      NotMore(a - {x}, b - {x});
    }
  }

  // Every waiter is a task that is not on the run queue while it sleeps.
  ghost predicate Wakeable(c: Cpu, known: set<nat>, ws: seq<Waiter>) {
    forall w :: w in ws ==> w.task in known && w.task in c.state && (c.state[w.task] != Running ==> w.task !in c.queue)
  }

  function Woken(c: Cpu, w: Waiter, mode: bv32, key: nat): Cpu
    requires w.task in c.state
  {
    if Selected(w, mode, key) then WakeUp(c, w.task) else c
  }

  lemma WakeableAt(c: Cpu, known: set<nat>, ws: seq<Waiter>, w: Waiter)
    requires Wakeable(c, known, ws) && w in ws
    ensures w.task in known && w.task in c.state && (c.state[w.task] != Running ==> w.task !in c.queue)
  {
  }

  lemma WokenWakeable(c: Cpu, known: set<nat>, ws: seq<Waiter>, w: Waiter, mode: bv32, key: nat)
    requires Wakeable(c, known, ws) && w in ws
    ensures w.task in c.state && Wakeable(Woken(c, w, mode, key), known, ws)
  {
  }

  // One entry of the loop; the result says whether it uses up an exclusive wake-up.
  method WakeOne(s: Scheduler, w: Waiter, mode: bv32, key: nat, ghost ws: seq<Waiter>) returns (counted: bool)
    requires s.Valid() && w in ws && Wakeable(s.View(), s.node.Keys, ws)
    modifies s`queue, s`state, s.runQueue, s.node.Values
    ensures s.Valid() && s.node == old(s.node) && Wakeable(s.View(), s.node.Keys, ws)
    ensures w.task in old(s.View()).state
    ensures s.View() == Woken(old(s.View()), w, mode, key) && counted == CountsAgainst(old(s.View()), w, mode, key)
  {
    hide Ring, NodesOf, Distinct, Wakeable, WakeUp, Scheduler.Valid, Scheduler.Known, Selected, IsExclusive;
    WakeableAt(s.View(), s.node.Keys, ws, w);
    WokenWakeable(s.View(), s.node.Keys, ws, w, mode, key);
    var woken := false;
    if Selected(w, mode, key) {
      woken := s.WakeUpTask(w.task);
    }
    counted := woken && IsExclusive(w);
  }
}
