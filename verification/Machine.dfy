// The run queue, the wait queues of the terminal and the terminal itself as they
// are in memory, driven by the events of KernelRun.
module Machine {
  import opened Base
  import opened List
  import opened Sched
  import opened Wait
  import opened KernelRun
  import Tty

  function Owners(es: seq<ListHead>): (ps: seq<nat>)
    ensures |ps| == |es| && forall i :: 0 <= i < |es| ==> ps[i] == es[i].owner
  {
    seq(|es|, i requires 0 <= i < |es| => es[i].owner)
  }

  // Each task has its own entry, a plain one, and only these are on the queue.
  predicate Own(es: seq<ListHead>, waiter: map<ListHead, Waiter>, entry: map<nat, ListHead>, filter: bool) {
    && (forall p :: p in entry ==>
          entry[p] in waiter && waiter[entry[p]] == Waiter(p, 0, filter) && entry[p].owner == p)
    && (forall e :: e in es ==> e.owner in entry && entry[e.owner] == e)
  }

  // The waiters of a queue are the owners of its entries.
  lemma OwnWaiters(q: WaitQueue, entry: map<nat, ListHead>, filter: bool)
    requires q.Valid() && Own(q.entries, q.waiter, entry, filter)
    ensures Tasks(q.Waiters()) == Owners(q.entries)
    ensures forall w :: w in q.Waiters() ==> w.flags == 0 && w.filter == filter
  {
    hide Ring;
    var ws := q.Waiters();
    forall i | 0 <= i < |ws| ensures ws[i] == Waiter(q.entries[i].owner, 0, filter) {
      assert q.entries[i] in q.entries && ws[i] == q.waiter[q.entries[i]];
    }
  }

  lemma InOwners(es: seq<ListHead>, e: ListHead)
    requires e in es
    ensures e.owner in Owners(es)
  {
    var i :| 0 <= i < |es| && es[i] == e;
    assert Owners(es)[i] == e.owner;
  }

  lemma FromOwners(es: seq<ListHead>, p: nat) returns (e: ListHead)
    requires p in Owners(es)
    ensures e in es && e.owner == p
  {
    var i :| 0 <= i < |es| && Owners(es)[i] == p;
    e := es[i];
  }

  lemma OwnNew(es: seq<ListHead>, waiter: map<ListHead, Waiter>, entry: map<nat, ListHead>, filter: bool, p: nat,
               e: ListHead)
    requires Own(es, waiter, entry, filter) && e !in waiter && e.owner == p && p !in Owners(es)
    ensures Own(es, waiter[e := Waiter(p, 0, filter)], entry[p := e], filter)
  {
    forall x | x in es ensures x.owner != p { InOwners(es, x); }
  }

  // An entry is on the queue exactly when its owner is among the owners.
  lemma OwnIn(es: seq<ListHead>, waiter: map<ListHead, Waiter>, entry: map<nat, ListHead>, filter: bool, p: nat)
    requires Own(es, waiter, entry, filter) && p in entry
    ensures entry[p] in es <==> p in Owners(es)
  {
    if entry[p] in es { InOwners(es, entry[p]); }
    if p in Owners(es) { var e := FromOwners(es, p); }
  }

  // Joining the queue joins the list of owners.
  lemma OwnJoined(es: seq<ListHead>, waiter: map<ListHead, Waiter>, entry: map<nat, ListHead>, filter: bool, p: nat)
    requires Own(es, waiter, entry, filter) && p in entry
    ensures var fs := if entry[p] in es then es else es + [entry[p]];
            Own(fs, waiter, entry, filter) && Owners(fs) == KernelRun.Join(Owners(es), p)
  {
    OwnIn(es, waiter, entry, filter, p);
  }

  // Leaving the queue leaves the list of owners.
  lemma OwnRemoved(es: seq<ListHead>, fs: seq<ListHead>, waiter: map<ListHead, Waiter>, entry: map<nat, ListHead>,
                   filter: bool, p: nat)
    requires Own(es, waiter, entry, filter) && p in entry && NoDup(es) && Removed(es, fs, entry[p])
    ensures Own(fs, waiter, entry, filter) && Owners(fs) == Without(Owners(es), p)
  {
    hide Without, IndexOf, Owners, NoDup, Own;
    OwnIn(es, waiter, entry, filter, p);
    if entry[p] in es {
      var i :| 0 <= i < |es| && es[i] == entry[p] && fs == es[..i] + es[i + 1..];
      WithoutIs(Owners(es), p);
      IsIndexOf(es, waiter, entry, filter, p, i);
      OwnersCut(es, i);
      OwnFewer(es, fs, waiter, entry, filter);
    }
  }

  lemma OwnFewer(es: seq<ListHead>, fs: seq<ListHead>, waiter: map<ListHead, Waiter>, entry: map<nat, ListHead>,
                 filter: bool)
    requires Own(es, waiter, entry, filter) && forall x :: x in fs ==> x in es
    ensures Own(fs, waiter, entry, filter)
  {
  }

  lemma OwnersCut(es: seq<ListHead>, i: nat)
    requires i < |es|
    ensures Owners(es[..i] + es[i + 1..]) == Owners(es)[..i] + Owners(es)[i + 1..]
    ensures forall x :: x in es[..i] + es[i + 1..] ==> x in es
  {
  }

  lemma IsIndexOf(es: seq<ListHead>, waiter: map<ListHead, Waiter>, entry: map<nat, ListHead>, filter: bool,
                  p: nat, i: nat)
    requires Own(es, waiter, entry, filter) && p in entry && NoDup(es) && i < |es| && es[i] == entry[p]
    ensures p in Owners(es) && IndexOf(Owners(es), p) == i
  {
    hide IndexOf;
    assert Owners(es)[i] == p;
    var j := IndexOf(Owners(es), p);
    assert es[j] in es && es[j].owner == p;
  }

  // prepare_to_wait of a task with its entry.
  method JoinQueue(s: Scheduler, q: WaitQueue, entry: map<nat, ListHead>, ghost filter: bool, p: nat)
    requires s.Valid() && q.Valid() && Own(q.entries, q.waiter, entry, filter) && p in entry && p in s.state
    modifies s`state, q`entries, q.head, q.waiter.Keys
    ensures s.Valid() && s.View() == old(s.View()).(state := old(s.state)[p := Interruptible])
    ensures q.Valid() && Own(q.entries, q.waiter, entry, filter)
    ensures Owners(q.entries) == KernelRun.Join(old(Owners(q.entries)), p)
  {
    hide Scheduler.Valid, WaitQueue.Valid;
    OwnJoined(q.entries, q.waiter, entry, filter, p);
    q.PrepareToWait(s, entry[p], Interruptible);
  }

  // finish_wait of a task with its entry.
  method LeaveQueue(s: Scheduler, q: WaitQueue, entry: map<nat, ListHead>, ghost filter: bool, p: nat)
    requires s.Valid() && q.Valid() && Own(q.entries, q.waiter, entry, filter) && p in entry && p in s.state
    modifies s`state, q`entries, q.head, q.waiter.Keys
    ensures s.Valid() && s.View() == old(s.View()).(state := old(s.state)[p := Running])
    ensures q.Valid() && Own(q.entries, q.waiter, entry, filter)
    ensures Owners(q.entries) == Without(old(Owners(q.entries)), p)
  {
    hide Scheduler.Valid, WaitQueue.Valid, Removed, NoDup, Without;
    EntriesDiffer(q);
    q.FinishWait(s, entry[p]);
    OwnRemoved(old(q.entries), q.entries, q.waiter, entry, filter, p);
  }

  lemma EntriesDiffer(q: WaitQueue)
    requires q.Valid()
    ensures NoDup(q.entries)
  {
  }

  // Everyone on the read queue is a task that runs, or sleeps off the run queue,
  // and wake_up wakes them all.
  lemma WakesAll(k: Kernel, known: set<nat>, ws: seq<Waiter>)
    requires Inv(k) && k.cpu.state.Keys == known + {IDLE} && Tasks(ws) == k.readWait
    requires forall w :: w in ws ==> w.flags == 0 && !w.filter
    ensures Wakeable(k.cpu, known, ws) && forall p :: p in k.readWait ==> p in k.cpu.state
    ensures WakeQueue(k.cpu, ws, 0, 1, 0) == WakeEach(k.cpu, k.readWait)
  {
    hide Distinct, WakeQueue, WakeEach;
    forall w | w in ws ensures w.task in k.readWait {
      var i :| 0 <= i < |ws| && ws[i] == w;
      assert Tasks(ws)[i] == w.task;
    }
    WakeQueueAll(k.cpu, ws, 1, 0);
  }

  lemma DeviceIs(d: Tty.Device)
    requires d.Valid()
    ensures Tty.Wf(d.View())
  {
  }

  // The states after prepare_to_wait and finish_wait on one queue.
  function JoinedForeground(k: Kernel): Kernel {
    var p := k.cpu.current;
    k.(cpu := k.cpu.(state := k.cpu.state[p := Interruptible]), fgWait := KernelRun.Join(k.fgWait, p))
  }

  function JoinedRead(k: Kernel): Kernel {
    var p := k.cpu.current;
    k.(cpu := k.cpu.(state := k.cpu.state[p := Interruptible]), readWait := KernelRun.Join(k.readWait, p))
  }

  function LeftForeground(k: Kernel): Kernel {
    var p := k.cpu.current;
    k.(cpu := k.cpu.(state := k.cpu.state[p := Running]), fgWait := Without(k.fgWait, p))
  }

  function LeftRead(k: Kernel): Kernel {
    var p := k.cpu.current;
    k.(cpu := k.cpu.(state := k.cpu.state[p := Running]), readWait := Without(k.readWait, p))
  }

  lemma {:induction false} WithoutLast(q: seq<nat>, p: nat)
    requires p !in q
    ensures Without(q + [p], p) == q
    decreases |q|
  {
    if q == [] {
      assert q + [p] == [p];
    } else {
      WithoutLast(q[1..], p);
      assert (q + [p])[1..] == q[1..] + [p];
    }
  }

  // What has joined leaves again.
  lemma WithoutJoin(q: seq<nat>, p: nat)
    ensures Without(KernelRun.Join(q, p), p) == Without(q, p)
  {
    if p !in q { WithoutLast(q, p); }
  }

  lemma PreparedIs(k: Kernel)
    requires k.cpu.current in k.cpu.state
    ensures JoinedRead(JoinedForeground(k)) == Prepared(k, true)
  {
    hide KernelRun.Join;
    assert k.cpu.state[k.cpu.current := Interruptible][k.cpu.current := Interruptible] ==
        k.cpu.state[k.cpu.current := Interruptible];
  }

  // A call that returns undoes what it has prepared.
  lemma ReadReturns(k: Kernel, tty: Tty.Tty, prepared: bool)
    requires k.cpu.current in k.cpu.state
    ensures var m := (if prepared then Prepared(k, true) else k).(tty := tty);
            var r := LeftRead(LeftForeground(m));
            r.(pc := r.pc[k.cpu.current := User]) == Returned(k.(tty := tty))
  {
    hide Without, KernelRun.Join;
    WithoutJoin(k.fgWait, k.cpu.current);
    WithoutJoin(k.readWait, k.cpu.current);
    assert k.cpu.state[k.cpu.current := Interruptible][k.cpu.current := Running] ==
        k.cpu.state[k.cpu.current := Running];
  }

  lemma WriteReturns(k: Kernel)
    requires Inv(k) && !k.pc[k.cpu.current].Reading?
    ensures var r := LeftForeground(JoinedForeground(k)); r.(pc := r.pc[k.cpu.current := User]) == Returned(k)
  {
    hide KernelRun.Join;
    WithoutJoin(k.fgWait, k.cpu.current);
    assert k.cpu.current !in k.readWait;
    assert k.cpu.state[k.cpu.current := Interruptible][k.cpu.current := Running] ==
        k.cpu.state[k.cpu.current := Running];
  }

  // The state in which tty_read has taken what it can get.
  function Reached(k: Kernel, count: nat, accept: nat): Kernel
    requires Started(k)
  {
    var o := Outcome(k, count, accept);
    (if count > 0 then Prepared(k, true) else k).(tty := if o.Asleep? then k.tty else o.tty)
  }

  lemma NeedsCount(k: Kernel, count: nat, accept: nat)
    requires Tty.Wf(k.tty)
    ensures Outcome(k, count, accept).Asleep? || Outcome(k, count, accept).Fault? ==> count > 0
  {
    hide Tty.ReadLoop;
    FaultIff(k, count, accept);
  }

  lemma SameOutcome(k: Kernel, m: Kernel, count: nat, accept: nat)
    requires Tty.Wf(k.tty) && m.tty == k.tty && m.cpu.current == k.cpu.current && m.fg == k.fg
    ensures Outcome(m, count, accept) == Outcome(k, count, accept)
  {
    hide Tty.ReadLoop;
  }

  lemma CurrentQueued(k: Kernel)
    requires Inv(k) && k.cpu.current != IDLE
    ensures k.cpu.current in k.cpu.queue
  {
  }

  lemma NotWaiting(k: Kernel)
    requires Inv(k) && k.pc[k.cpu.current] == User
    ensures k.cpu.current !in k.readWait && k.cpu.current !in k.fgWait
  {
  }

  lemma CurrentKnown(s: Scheduler)
    requires s.Valid()
    ensures s.current in s.state
  {
  }

  class Machine {
    const sched: Scheduler
    const readWait: WaitQueue
    const fgWait: WaitQueue
    const tty: Tty.Device
    const fg: nat
    var pc: map<nat, Pc>
    // The entries wait_read and wait_fg on the stack of each task that has used one.
    var readEntry: map<nat, ListHead>
    var fgEntry: map<nat, ListHead>

    ghost predicate Valid()
      reads this, sched, sched.runQueue, sched.node.Values, readWait, readWait.head, readWait.waiter.Keys
      reads fgWait, fgWait.head, fgWait.waiter.Keys, tty, tty.buffer
    {
      && sched.Valid() && readWait.Valid() && fgWait.Valid() && tty.Valid()
      && readWait.head.use == ReadEntry && fgWait.head.use == ForegroundEntry
      && sched.state.Keys == sched.node.Keys + {IDLE}
      && Own(readWait.entries, readWait.waiter, readEntry, false) && Own(fgWait.entries, fgWait.waiter, fgEntry, true)
    }

    // What it amounts to.
    ghost function View(): Kernel
      reads this, sched, readWait, fgWait, tty, tty.buffer
    {
      Kernel(sched.View(), pc, Owners(readWait.entries), Owners(fgWait.entries), tty.View(), fg)
    }

    constructor (fg: nat)
      ensures Valid() && View() == Boot(tty.View(), fg) && Inv(View())
      ensures fresh(sched) && fresh(readWait) && fresh(fgWait) && fresh(tty) && fresh(tty.buffer)
      ensures fresh(sched.runQueue) && fresh(readWait.head) && fresh(fgWait.head)
    {
      hide Ring, Distinct, Scheduler.Valid, WaitQueue.Valid, Tty.Device.Valid, Inv, Tty.Contents, Tty.Lines;
      sched := new Scheduler();
      readWait := new WaitQueue(ReadEntry);
      fgWait := new WaitQueue(ForegroundEntry);
      tty := new Tty.Device();
      this.fg, pc, readEntry, fgEntry := fg, map[IDLE := User], map[], map[];
      new;
      DeviceIs(tty);
      BootInv(tty.View(), fg);
    }

    // timer_irq_handler
    method Tick()
      requires Valid() && Inv(View()) && Enabled(View(), ETick)
      modifies sched`queue, sched`current, sched`state, sched.runQueue, sched.node.Values
      ensures Valid() && View() == After(old(View()), ETick)
    {
      hide Inv, Ring, Distinct, Own, Scheduler.Valid, WaitQueue.Valid, Tty.Device.Valid;
      Nodes();
      StartedIs(View());
      sched.ScheduleNow(true);
    }

    // tty_push_char with the wake-up it causes.
    method Key(c: char)
      requires Valid() && Inv(View()) && Enabled(View(), EKey(c))
      modifies sched`queue, sched`current, sched`state, sched.runQueue, sched.node.Values, tty, tty.buffer
      ensures Valid() && View() == After(old(View()), EKey(c))
    {
      hide Inv, Ring, Distinct, Own, Scheduler.Valid, WaitQueue.Valid, Tty.Device.Valid, Tty.Push, Wakeable;
      hide WakeQueue, WakeEach;
      Nodes();
      StartedIs(View());
      ReadersWakeable();
      var newLine := tty.PushChar(c);
      if newLine {
        readWait.Wakeup(sched, 0, 1, 0);
      }
    }

    lemma ReadersWakeable()
      requires Valid() && Inv(View())
      ensures Wakeable(sched.View(), sched.node.Keys, readWait.Waiters())
      ensures forall p :: p in Owners(readWait.entries) ==> p in sched.state
      ensures WakeQueue(sched.View(), readWait.Waiters(), 0, 1, 0) == WakeEach(sched.View(), Owners(readWait.entries))
    {
      hide Inv, Ring, Distinct, Scheduler.Valid, WaitQueue.Valid, Own, Wakeable, WakeQueue, WakeEach;
      OwnWaiters(readWait, readEntry, false);
      WakesAll(View(), sched.node.Keys, readWait.Waiters());
    }

    // kthread_run
    method Spawn(p: nat)
      requires Valid() && Inv(View()) && Enabled(View(), ESpawn(p))
      modifies this`pc, sched`queue, sched`current, sched`state, sched`node, sched.runQueue, sched.node.Values
      ensures Valid() && View() == After(old(View()), ESpawn(p)) && fresh(sched.node.Values - old(sched.node.Values))
    {
      hide Inv, Ring, Distinct, Own, Scheduler.Valid, WaitQueue.Valid, Tty.Device.Valid;
      Nodes();
      StartedIs(View());
      sched.Start(p);
      pc := pc[p := User];
    }

    // A call begins: new entries for the current task.
    method NewEntries()
      requires Valid() && sched.current !in Owners(readWait.entries) && sched.current !in Owners(fgWait.entries)
      modifies this`readEntry, this`fgEntry, readWait`waiter, fgWait`waiter
      ensures Valid() && View() == old(View())
      ensures sched.current in readEntry && sched.current in fgEntry
      ensures fresh(readWait.waiter.Keys - old(readWait.waiter.Keys))
      ensures fresh(fgWait.waiter.Keys - old(fgWait.waiter.Keys))
    {
      hide Ring, Distinct, Own, Scheduler.Valid, WaitQueue.Valid, Tty.Device.Valid;
      Nodes();
      var p := sched.current;
      var e := fgWait.InitEntry(p, true);
      OwnNew(fgWait.entries, old(fgWait.waiter), fgEntry, true, p, e);
      var f := readWait.InitEntry(p, false);
      OwnNew(readWait.entries, old(readWait.waiter), readEntry, false, p, f);
      readEntry, fgEntry := readEntry[p := f], fgEntry[p := e];
    }

    // prepare_to_wait on the foreground queue.
    method WaitForeground()
      requires Valid() && sched.current in fgEntry
      modifies sched`state, fgWait`entries, fgWait.head, fgWait.waiter.Keys
      ensures Valid() && sched.current in old(sched.state) && View() == JoinedForeground(old(View()))
    {
      hide Ring, Distinct, Own, Owners, Scheduler.Valid, WaitQueue.Valid, Tty.Device.Valid, KernelRun.Join, Without;
      Nodes();
      CurrentKnown(sched);
      JoinQueue(sched, fgWait, fgEntry, true, sched.current);
    }

    // prepare_to_wait on the read queue.
    method WaitRead()
      requires Valid() && sched.current in readEntry
      modifies sched`state, readWait`entries, readWait.head, readWait.waiter.Keys
      ensures Valid() && sched.current in old(sched.state) && View() == JoinedRead(old(View()))
    {
      hide Ring, Distinct, Own, Owners, Scheduler.Valid, WaitQueue.Valid, Tty.Device.Valid, KernelRun.Join, Without;
      Nodes();
      CurrentKnown(sched);
      JoinQueue(sched, readWait, readEntry, false, sched.current);
    }

    // finish_wait on the foreground queue.
    method DoneForeground()
      requires Valid() && sched.current in fgEntry
      modifies sched`state, fgWait`entries, fgWait.head, fgWait.waiter.Keys
      ensures Valid() && sched.current in old(sched.state) && View() == LeftForeground(old(View()))
    {
      hide Ring, Distinct, Own, Owners, Scheduler.Valid, WaitQueue.Valid, Tty.Device.Valid, KernelRun.Join, Without;
      Nodes();
      CurrentKnown(sched);
      LeaveQueue(sched, fgWait, fgEntry, true, sched.current);
    }

    // finish_wait on the read queue.
    method DoneRead()
      requires Valid() && sched.current in readEntry
      modifies sched`state, readWait`entries, readWait.head, readWait.waiter.Keys
      ensures Valid() && sched.current in old(sched.state) && View() == LeftRead(old(View()))
    {
      hide Ring, Distinct, Own, Owners, Scheduler.Valid, WaitQueue.Valid, Tty.Device.Valid, KernelRun.Join, Without;
      Nodes();
      CurrentKnown(sched);
      LeaveQueue(sched, readWait, readEntry, false, sched.current);
    }

    // schedule() inside a call.
    method Sleep(place: Pc)
      requires Valid() && (sched.state[sched.current] != Running ==> sched.current in sched.queue)
      modifies this`pc, sched`queue, sched`current, sched`state, sched.runQueue, sched.node.Values
      ensures Valid() && old(sched.current in sched.state) && View() == Slept(old(View()), place)
    {
      hide Ring, Distinct, Own, Owners, Scheduler.Valid, WaitQueue.Valid, Tty.Device.Valid, Rotate, Pick, Without;
      Nodes();
      CurrentKnown(sched);
      pc := pc[sched.current := place];
      sched.ScheduleNow(false);
    }

    // Back to user mode.
    method Return()
      requires Valid()
      modifies this`pc
      ensures Valid() && View() == old(View()).(pc := old(pc)[sched.current := User])
    {
      hide Ring, Distinct, Own, Owners, Scheduler.Valid, WaitQueue.Valid, Tty.Device.Valid;
      pc := pc[sched.current := User];
    }

    // What tty_read finds.
    method Ask(count: nat, accept: nat) returns (asleep: bool, fault: bool)
      requires Valid() && Tty.Wf(View().tty)
      modifies tty
      ensures Valid()
      ensures var o := Outcome(old(View()), count, accept);
              && asleep == o.Asleep? && fault == o.Fault?
              && View() == old(View()).(tty := if o.Asleep? then old(View()).tty else o.tty)
    {
      hide Ring, Distinct, Own, Owners, Scheduler.Valid, WaitQueue.Valid, Tty.Device.Valid, Tty.ReadLoop;
      asleep, fault := count > 0, false;
      if sched.current == fg {
        var r := tty.ReadAll(count, accept);
        asleep, fault := r.Asleep?, r.Fault?;
      }
    }

    // Both waits of tty_read, begun and ended.
    method PrepareRead()
      requires Valid() && sched.current in fgEntry && sched.current in readEntry
      modifies sched`state, fgWait`entries, fgWait.head, fgWait.waiter.Keys
      modifies readWait`entries, readWait.head, readWait.waiter.Keys
      ensures Valid() && old(sched.current in sched.state) && View() == Prepared(old(View()), true)
    {
      hide Valid, Owners, KernelRun.Join;
      ghost var k := View();
      WaitForeground();
      WaitRead();
      PreparedIs(k);
    }

    method FinishRead()
      requires Valid() && sched.current in fgEntry && sched.current in readEntry
      modifies this`pc
      modifies sched`state, fgWait`entries, fgWait.head, fgWait.waiter.Keys
      modifies readWait`entries, readWait.head, readWait.waiter.Keys
      ensures Valid()
      ensures View() == LeftRead(LeftForeground(old(View()))).(pc := old(pc)[sched.current := User])
    {
      hide Valid, Owners, Without;
      DoneForeground();
      DoneRead();
      Return();
    }

    // Sleeps, leaves through the -EFAULT exit, or returns.
    method Conclude(ghost k: Kernel, count: nat, accept: nat, asleep: bool, fault: bool)
      requires Valid() && Started(k) && sched.current in fgEntry && sched.current in readEntry
      requires sched.current in sched.queue
      requires asleep == Outcome(k, count, accept).Asleep? && fault == Outcome(k, count, accept).Fault?
      requires View() == Reached(k, count, accept)
      modifies this`pc, sched`queue, sched`current, sched`state, sched.runQueue, sched.node.Values
      modifies fgWait`entries, fgWait.head, fgWait.waiter.Keys, readWait`entries, readWait.head, readWait.waiter.Keys
      ensures Valid() && View() == ReadCall(k, count, accept)
    {
      hide Valid, Owners, KernelRun.Join, Without, Schedule, Outcome, LeftRead, LeftForeground;
      NeedsCount(k, count, accept);
      if asleep {
        Sleep(Reading(count, accept));
      } else if fault {
        Return();
      } else {
        ReadReturns(k, View().tty, count > 0);
        FinishRead();
      }
    }

    // Prepares and takes what there is.
    method Fetch(count: nat, accept: nat) returns (asleep: bool, fault: bool)
      requires Valid() && Started(View()) && sched.current in fgEntry && sched.current in readEntry
      modifies sched`state, fgWait`entries, fgWait.head, fgWait.waiter.Keys
      modifies readWait`entries, readWait.head, readWait.waiter.Keys, tty
      ensures Valid() && View() == Reached(old(View()), count, accept)
      ensures asleep == Outcome(old(View()), count, accept).Asleep?
      ensures fault == Outcome(old(View()), count, accept).Fault?
    {
      hide Valid, Owners, KernelRun.Join, Outcome;
      ghost var k := View();
      if count > 0 {
        PrepareRead();
      }
      SameOutcome(k, View(), count, accept);
      asleep, fault := Ask(count, accept);
    }

    // The loop of tty_read, from the start of the call or from its sleep on.
    method ReadOn(count: nat, accept: nat)
      requires Valid() && Inv(View()) && sched.current != IDLE && sched.current in fgEntry && sched.current in readEntry
      modifies this`pc, sched`queue, sched`current, sched`state, sched.runQueue, sched.node.Values, tty
      modifies fgWait`entries, fgWait.head, fgWait.waiter.Keys, readWait`entries, readWait.head, readWait.waiter.Keys
      ensures Valid() && View() == ReadCall(old(View()), count, accept)
    {
      hide Inv, Valid, Owners, Outcome, ReadCall, Reached;
      ghost var k := View();
      StartedIs(k);
      CurrentQueued(k);
      var asleep, fault := Fetch(count, accept);
      Conclude(k, count, accept, asleep, fault);
    }

    // The wait of __tty_write, likewise.
    method WriteOn()
      requires Valid() && Inv(View()) && sched.current != IDLE && sched.current in fgEntry
      requires !pc[sched.current].Reading?
      modifies this`pc, sched`queue, sched`current, sched`state, sched.runQueue, sched.node.Values
      modifies fgWait`entries, fgWait.head, fgWait.waiter.Keys
      ensures Valid() && View() == WriteCall(old(View()))
    {
      hide Inv, Valid, Owners, KernelRun.Join, Without, Schedule;
      ghost var k := View();
      StartedIs(k);
      CurrentQueued(k);
      WaitForeground();
      if sched.current != fg {
        Sleep(Writing);
      } else {
        WriteReturns(k);
        DoneForeground();
        Return();
      }
    }

    // All list nodes in use.
    ghost function Lists(): set<ListHead>
      reads this, sched, readWait, fgWait
    {
      {sched.runQueue, readWait.head, fgWait.head} + sched.node.Values + readWait.waiter.Keys + fgWait.waiter.Keys
    }

    // tty_read
    method Read(count: nat, accept: nat)
      requires Valid() && Inv(View()) && Enabled(View(), ERead(count, accept))
      modifies this, sched, readWait, fgWait, tty, Lists()
      ensures Valid() && View() == After(old(View()), ERead(count, accept)) && fresh(Lists() - old(Lists()))
    {
      hide Inv, Valid, Owners, ReadCall;
      StartedIs(View());
      NotWaiting(View());
      NewEntries();
      ReadOn(count, accept);
    }

    // tty_write, up to where the characters are printed
    method Write()
      requires Valid() && Inv(View()) && Enabled(View(), EWrite)
      modifies this, sched, readWait, fgWait, tty, Lists()
      ensures Valid() && View() == After(old(View()), EWrite) && fresh(Lists() - old(Lists()))
    {
      hide Inv, Valid, Owners, WriteCall;
      StartedIs(View());
      NotWaiting(View());
      NewEntries();
      WriteOn();
    }

    // A task comes back from schedule() inside a call.
    method Resume()
      requires Valid() && Inv(View()) && Enabled(View(), EResume)
      modifies this`pc, sched`queue, sched`current, sched`state, sched.runQueue, sched.node.Values, tty
      modifies fgWait`entries, fgWait.head, fgWait.waiter.Keys, readWait`entries, readWait.head, readWait.waiter.Keys
      ensures Valid() && View() == After(old(View()), EResume)
    {
      hide Inv, Valid, Owners, ReadCall, WriteCall;
      StartedIs(View());
      HasEntries();
      match pc[sched.current]
      case Reading(count, accept) => ReadOn(count, accept);
      case Writing => WriteOn();
    }

    lemma HasEntries()
      requires Valid() && Inv(View()) && Enabled(View(), EResume)
      ensures sched.current in fgEntry && (pc[sched.current].Reading? ==> sched.current in readEntry)
    {
      hide Ring, Distinct, Owners, Scheduler.Valid, WaitQueue.Valid, Tty.Device.Valid;
      var p := sched.current;
      var e := FromOwners(fgWait.entries, p);
      if pc[p].Reading? { var f := FromOwners(readWait.entries, p); }
    }

    // Any event.
    method Step(e: Event)
      requires Valid() && Inv(View()) && Enabled(View(), e)
      modifies this, sched, readWait, fgWait, tty, tty.buffer, Lists()
      ensures Valid() && View() == After(old(View()), e) && (Inv(View()) <==> !Faults(old(View()), e))
      ensures fresh(Lists() - old(Lists()))
    {
      hide Inv, Valid, Owners, After, Faults, Enabled;
      StepKeeps(View(), e);
      match e
      case ETick => Tick();
      case EKey(c) => Key(c);
      case ESpawn(p) => Spawn(p);
      case ERead(count, accept) => Read(count, accept);
      case EWrite => Write();
      case EResume => Resume();
    }

    // Any run: the memory follows it state by state.
    method Run(es: seq<Event>, ghost ks: seq<Kernel>)
      requires Valid() && IsRun(ks, es) && View() == ks[0]
      modifies this, sched, readWait, fgWait, tty, tty.buffer, Lists()
      ensures Valid() && View() == ks[|es|] && Inv(View())
    {
      hide Inv, Valid, View, Lists, After, Faults, Enabled;
      RunInv(ks, es, 0);
      for i := 0 to |es|
        invariant Valid() && View() == ks[i] && Inv(View())
        invariant forall x :: x in Lists() ==> x in old(Lists()) || fresh(x)
      {
        assert GoodStep(ks[i], es[i], ks[i + 1]);
        ghost var before := Lists();
        label Before:
        Step(es[i]);
        forall x | x in Lists() ensures x in old(Lists()) || fresh(x) {
          if x !in before {
            assert x in Lists() - before;
            assert fresh@Before(x);
          }
        }
      }
    }

    // The three kinds of list nodes are different objects.
    lemma Nodes()
      requires Valid()
      ensures sched.runQueue.use == RunNode && forall x :: x in sched.node.Values ==> x.use == RunNode
      ensures readWait.head.use == ReadEntry && forall x :: x in readWait.waiter ==> x.use == ReadEntry
      ensures fgWait.head.use == ForegroundEntry && forall x :: x in fgWait.waiter ==> x.use == ForegroundEntry
    {
      RunNodes(sched);
      WaitNodes(readWait);
      WaitNodes(fgWait);
    }
  }
}
