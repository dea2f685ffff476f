// Scheduler, wait queues and terminal together: every way in which timer ticks,
// keys and system calls can follow each other. System calls run with
// interrupts masked (arch/x86_64/syscall.asm), so each stretch up to the point
// where a task returns or sleeps is one step.
module KernelRun {
  import opened Base
  import opened Sched
  import opened Wait
  import Tty

  // Where a task is: in user mode, asleep in tty_read, or asleep in tty_write.
  datatype Pc = User | Reading(count: nat, accept: nat) | Writing

  datatype Kernel = Kernel(cpu: Cpu, pc: map<nat, Pc>, readWait: seq<nat>, fgWait: seq<nat>, tty: Tty.Tty, fg: nat)

  // ------------------------------------------------------------ invariants

  // Every started task has a state and a place; the idle task never sleeps.
  predicate Started(k: Kernel) {
    && k.cpu.state.Keys == k.pc.Keys && IDLE in k.pc && k.cpu.current in k.pc
    && k.cpu.state[IDLE] == Running && k.pc[IDLE] == User
    && Tty.Wf(k.tty)
  }

  // The run queue holds each started, running task but the idle one exactly
  // once, and the current task is idle or its head.
  predicate QueueOk(c: Cpu) {
    && Distinct(c.queue) && IDLE !in c.queue
    && (forall p :: p in c.queue ==> p in c.state && c.state[p] == Running)
    && (forall p :: p in c.state && p != IDLE && c.state[p] == Running ==> p in c.queue)
    && (c.current == IDLE || (c.queue != [] && c.current == c.queue[0]))
  }

  // Wait queues hold exactly the tasks inside the corresponding calls, once each,
  // and only such tasks can be asleep.
  predicate WaitsOk(k: Kernel)
    requires Started(k)
  {
    && Distinct(k.readWait) && Distinct(k.fgWait)
    && (forall p :: p in k.readWait ==> p in k.pc && k.pc[p].Reading?)
    && (forall p :: p in k.pc && k.pc[p].Reading? ==> p in k.readWait && p in k.fgWait && k.pc[p].count > 0)
    && (forall p :: p in k.fgWait ==> p in k.pc && k.pc[p] != User)
    && (forall p :: p in k.pc && k.pc[p].Writing? ==> p in k.fgWait)
    && (forall p :: p in k.pc && k.cpu.state[p] != Running ==> k.pc[p] != User)
  }

  // No wakeup is lost: while the foreground task sleeps in tty_read there is no line.
  predicate NoLostWakeup(k: Kernel)
    requires Started(k)
  {
    k.fg in k.pc && k.pc[k.fg].Reading? && k.cpu.state[k.fg] != Running ==> k.tty.canon == 0
  }

  predicate Inv(k: Kernel) { Started(k) && QueueOk(k.cpu) && WaitsOk(k) && NoLostWakeup(k) }

  // ----------------------------------------------------------------- steps

  function Join(q: seq<nat>, p: nat): seq<nat> { if p in q then q else q + [p] }

  // The state after prepare_to_wait on the given queues.
  function Prepared(k: Kernel, reading: bool): Kernel
    requires k.cpu.current in k.cpu.state
  {
    var p := k.cpu.current;
    k.(cpu := k.cpu.(state := k.cpu.state[p := Interruptible]),
       fgWait := Join(k.fgWait, p), readWait := if reading then Join(k.readWait, p) else k.readWait)
  }

  // The state after finish_wait on both queues, back in user mode.
  function Returned(k: Kernel): Kernel
    requires k.cpu.current in k.cpu.state
  {
    var p := k.cpu.current;
    k.(cpu := k.cpu.(state := k.cpu.state[p := Running]), pc := k.pc[p := User],
       fgWait := Without(k.fgWait, p), readWait := Without(k.readWait, p))
  }

  // schedule() inside a call: the task leaves the run queue.
  function Slept(k: Kernel, pc: Pc): Kernel
    requires k.cpu.current in k.cpu.state
  {
    k.(cpu := Schedule(k.cpu, false), pc := k.pc[k.cpu.current := pc])
  }

  // What the loop of tty_read finds for the current task; a background task finds nothing.
  function Outcome(k: Kernel, count: nat, accept: nat): Tty.ReadResult
    requires Tty.Wf(k.tty)
  {
    if k.cpu.current == k.fg then Tty.ReadLoop(k.tty, count, accept, [])
    else if count == 0 then Tty.Got(k.tty, []) else Tty.Asleep
  }

  // tty_read by the current task, from its start or from its sleep on, up to
  // where it returns or sleeps. The -EFAULT exit leaves without finish_wait.
  function ReadCall(k: Kernel, count: nat, accept: nat): Kernel
    requires Started(k)
  {
    match Outcome(k, count, accept)
    case Asleep => Slept(Prepared(k, true), Reading(count, accept))
    case Got(tty, _) => Returned(k.(tty := tty))
    case Fault(tty) =>
      var m := Prepared(k, true);
      m.(tty := tty, pc := m.pc[m.cpu.current := User])
  }

  // The wait for the foreground in __tty_write.
  function WriteCall(k: Kernel): Kernel
    requires Started(k)
  {
    if k.cpu.current == k.fg then Returned(k) else Slept(Prepared(k, false), Writing)
  }

  function Tick(k: Kernel): Kernel
    requires Started(k)
  {
    k.(cpu := Schedule(k.cpu, true))
  }

  function Key(k: Kernel, c: char): Kernel
    requires Started(k) && forall p :: p in k.readWait ==> p in k.cpu.state
  {
    k.(tty := Tty.Push(k.tty, c), cpu := if c == Tty.NEWLINE then WakeEach(k.cpu, k.readWait) else k.cpu)
  }

  // kthread_run
  function Spawn(k: Kernel, p: nat): Kernel {
    k.(cpu := k.cpu.(queue := k.cpu.queue + [p], state := k.cpu.state[p := Running]), pc := k.pc[p := User])
  }

  datatype Event = ETick | EKey(c: char) | ESpawn(p: nat) | ERead(count: nat, accept: nat) | EWrite | EResume

  // Interrupts and new calls happen in user mode; a task that comes out of its
  // sleep inside a call goes on before anything else.
  predicate Enabled(k: Kernel, e: Event)
    requires Started(k)
  {
    var p := k.cpu.current;
    match e
    case ETick => k.pc[p] == User
    case EKey(_) => k.pc[p] == User
    case ESpawn(q) => k.pc[p] == User && q !in k.pc
    case ERead(_, _) => k.pc[p] == User && p != IDLE
    case EWrite => k.pc[p] == User && p != IDLE
    case EResume => k.pc[p] != User
  }

  function After(k: Kernel, e: Event): Kernel
    requires Inv(k) && Enabled(k, e)
  {
    match e
    case ETick => Tick(k)
    case EKey(c) => Key(k, c)
    case ESpawn(p) => Spawn(k, p)
    case ERead(count, accept) => ReadCall(k, count, accept)
    case EWrite => WriteCall(k)
    case EResume =>
      match k.pc[k.cpu.current]
      case Reading(count, accept) => ReadCall(k, count, accept)
      case Writing => WriteCall(k)
  }

  // A read by the foreground task, with a line to read, into a buffer of which not
  // even the first byte can be written.
  predicate FaultGuard(k: Kernel, count: nat, accept: nat) {
    k.cpu.current == k.fg && count > 0 && accept == 0 && k.tty.canon > 0
  }

  // That is when a read ends through the -EFAULT exit.
  lemma FaultIff(k: Kernel, count: nat, accept: nat)
    requires Tty.Wf(k.tty)
    ensures Outcome(k, count, accept).Fault? <==> FaultGuard(k, count, accept)
  {
  }

  // The step starts or goes on with such a read.
  predicate Faults(k: Kernel, e: Event)
    requires Started(k) && Enabled(k, e)
  {
    match e
    case ERead(count, accept) => FaultGuard(k, count, accept)
    case EResume =>
      var pc := k.pc[k.cpu.current];
      pc.Reading? && FaultGuard(k, pc.count, pc.accept)
    case _ => false
  }

  // ------------------------------------------------------ each step in turn

  lemma ScheduleQueue(c: Cpu, d: Cpu)
    requires Distinct(c.queue) && d == c.(queue := Rotate(c.queue), current := Pick(c.queue))
    ensures Distinct(d.queue) && (forall p :: p in d.queue <==> p in c.queue)
    ensures d.current == IDLE || (d.queue != [] && d.current == d.queue[0])
    ensures d.current == IDLE || d.current in c.queue
  {
    RotateDistinct(c.queue);
    PickKnown(c.queue);
  }

  lemma TickKeeps(k: Kernel)
    requires Inv(k)
    ensures Inv(Tick(k))
  {
    ScheduleQueue(k.cpu, Tick(k).cpu);
    assert Tick(k).cpu.current in k.pc;
  }

  lemma SpawnKeeps(k: Kernel, p: nat)
    requires Inv(k) && p !in k.pc
    ensures Inv(Spawn(k, p))
  {
    var m := Spawn(k, p);
    assert p !in k.cpu.queue;
    assert Distinct(m.cpu.queue);
  }

  // Waking a list of tasks.
  lemma {:induction false} WakeEachIs(c: Cpu, ps: seq<nat>)
    requires (forall p :: p in ps ==> p in c.state && p != IDLE) && QueueOk(c)
    ensures var d := WakeEach(c, ps);
            && QueueOk(d) && d.state.Keys == c.state.Keys
            && (forall p :: p in ps ==> d.state[p] == Running)
            && (forall p :: p in c.state && p !in ps ==> d.state[p] == c.state[p])
            && (forall p :: p in c.state && c.state[p] == Running ==> d.state[p] == Running)
    decreases |ps|
  {
    hide QueueOk;
    if ps != [] {
      var d := WakeUp(c, ps[0]);
      WakeUpKeeps(c, ps[0]);
      assert d.state.Keys == c.state.Keys;
      assert forall p :: p in ps[1..] ==> p in ps;
      WakeEachIs(d, ps[1..]);
      assert ps == [ps[0]] + ps[1..];
    }
  }

  lemma WakeUpKeeps(c: Cpu, p: nat)
    requires p in c.state && p != IDLE && QueueOk(c)
    ensures QueueOk(WakeUp(c, p))
  {
  }

  lemma KeyKeeps(k: Kernel, c: char)
    requires Inv(k)
    ensures Inv(Key(k, c))
  {
    hide QueueOk, Distinct;
    WakeEachIs(k.cpu, k.readWait);
  }

  lemma {:induction false} JoinIs(q: seq<nat>, p: nat)
    requires Distinct(q)
    ensures Distinct(Join(q, p)) && forall x :: x in Join(q, p) <==> x in q || x == p
  {
  }

  lemma SleptQueue(c: Cpu)
    requires QueueOk(c) && c.current in c.state && c.current != IDLE
    ensures var p := c.current;
            var d := Schedule(c.(state := c.state[p := Interruptible]), false);
            QueueOk(d) && d.state == c.state[p := Interruptible] && (d.current == IDLE || d.current in c.state)
  {
    var p := c.current;
    var e := c.(state := c.state[p := Interruptible], queue := Without(c.queue, p));
    WithoutDistinct(c.queue, p);
    var d := Schedule(c.(state := c.state[p := Interruptible]), false);
    assert d == e.(queue := Rotate(e.queue), current := Pick(e.queue));
    ScheduleQueue(e, d);
  }

  // Going to sleep inside a call; a foreground reader only does so without a line.
  lemma SleepKeeps(k: Kernel, pc: Pc)
    requires Inv(k) && k.cpu.current != IDLE && pc != User && (pc.Reading? ==> pc.count > 0)
    requires pc.Writing? ==> k.pc[k.cpu.current] == User || k.pc[k.cpu.current].Writing?
    requires pc.Reading? && k.cpu.current == k.fg ==> k.tty.canon == 0
    ensures Inv(Slept(Prepared(k, pc.Reading?), pc))
  {
    var p := k.cpu.current;
    var m := Slept(Prepared(k, pc.Reading?), pc);
    SleptQueue(k.cpu);
    JoinIs(k.fgWait, p);
    JoinIs(k.readWait, p);
    hide QueueOk, Distinct, Join;
    SleepWaits(k, m, pc);
  }

  lemma SleepWaits(k: Kernel, m: Kernel, pc: Pc)
    requires Started(k) && Started(m) && WaitsOk(k) && k.cpu.current != IDLE && pc != User
    requires pc.Reading? ==> pc.count > 0
    requires pc.Writing? ==> k.pc[k.cpu.current] == User || k.pc[k.cpu.current].Writing?
    requires Distinct(m.fgWait) && Distinct(m.readWait)
    requires forall x :: x in m.fgWait <==> x in k.fgWait || x == k.cpu.current
    requires forall x :: x in m.readWait <==> x in k.readWait || (pc.Reading? && x == k.cpu.current)
    requires m.pc == k.pc[k.cpu.current := pc] && m.cpu.state == k.cpu.state[k.cpu.current := Interruptible]
    ensures WaitsOk(m)
  {
    hide Distinct;
  }

  lemma ReturnWaits(k: Kernel, m: Kernel)
    requires Started(k) && Started(m) && WaitsOk(k) && k.cpu.current != IDLE
    requires Distinct(m.fgWait) && Distinct(m.readWait)
    requires forall x :: x in m.fgWait <==> x in k.fgWait && x != k.cpu.current
    requires forall x :: x in m.readWait <==> x in k.readWait && x != k.cpu.current
    requires m.pc == k.pc[k.cpu.current := User] && m.cpu.state == k.cpu.state[k.cpu.current := Running]
    ensures WaitsOk(m)
  {
    hide Distinct;
  }

  lemma ReturnKeeps(k: Kernel, tty: Tty.Tty)
    requires Inv(k) && k.cpu.current != IDLE && Tty.Wf(tty) && (k.cpu.current != k.fg ==> tty == k.tty)
    ensures Inv(Returned(k.(tty := tty)))
  {
    var p := k.cpu.current;
    var m := Returned(k.(tty := tty));
    WithoutDistinct(k.fgWait, p);
    WithoutDistinct(k.readWait, p);
    assert k.cpu.state[p] == Running by { assert p in k.cpu.queue; }
    assert m.cpu.state == k.cpu.state;
    hide Distinct;
    ReturnWaits(k, m);
  }

  // The current task runs, so an ordinary call starts or goes on from a sound state.
  lemma ReadKeeps(k: Kernel, count: nat, accept: nat)
    requires Inv(k) && k.cpu.current != IDLE && !Outcome(k, count, accept).Fault?
    ensures Inv(ReadCall(k, count, accept))
  {
    hide Inv, Tty.ReadLoop;
    StartedIs(k);
    var o := Outcome(k, count, accept);
    match o
    case Asleep => SleepKeeps(k, Reading(count, accept));
    case Got(tty, _) => ReturnKeeps(k, tty);
  }

  lemma StartedIs(k: Kernel)
    requires Inv(k)
    ensures Started(k)
  {
  }

  lemma WriteKeeps(k: Kernel)
    requires Inv(k) && k.cpu.current != IDLE && !k.pc[k.cpu.current].Reading?
    ensures Inv(WriteCall(k))
  {
    if k.cpu.current == k.fg { ReturnKeeps(k, k.tty); } else { SleepKeeps(k, Writing); }
  }

  // After the -EFAULT exit the task runs on marked as sleeping.
  lemma FaultBreaks(k: Kernel, count: nat, accept: nat)
    requires Inv(k) && k.cpu.current != IDLE && Outcome(k, count, accept).Fault?
    ensures !Inv(ReadCall(k, count, accept))
  {
    hide Tty.ReadLoop;
    var m := ReadCall(k, count, accept);
    var p := k.cpu.current;
    assert m.cpu.state[p] == Interruptible && m.pc[p] == User;
  }

  // A step keeps the invariants exactly when it is no such read.
  lemma StepKeeps(k: Kernel, e: Event)
    requires Inv(k) && Enabled(k, e)
    ensures Inv(After(k, e)) <==> !Faults(k, e)
  {
    hide Inv, Outcome, QueueOk, WaitsOk, NoLostWakeup, FaultGuard;
    StartedIs(k);
    match e
    case ETick => TickKeeps(k);
    case EKey(c) => KeyKeeps(k, c);
    case ESpawn(p) => SpawnKeeps(k, p);
    case ERead(count, accept) => ReadEither(k, count, accept);
    case EWrite => WriteKeeps(k);
    case EResume =>
      match k.pc[k.cpu.current]
      case Reading(count, accept) => ReadEither(k, count, accept);
      case Writing => WriteKeeps(k);
  }

  lemma ReadEither(k: Kernel, count: nat, accept: nat)
    requires Inv(k) && k.cpu.current != IDLE
    ensures Inv(ReadCall(k, count, accept)) <==> !FaultGuard(k, count, accept)
  {
    hide Inv, Outcome, ReadCall, FaultGuard;
    StartedIs(k);
    FaultIff(k, count, accept);
    if Outcome(k, count, accept).Fault? { FaultBreaks(k, count, accept); } else { ReadKeeps(k, count, accept); }
  }

  // ------------------------------------------------------------------ runs

  // A run: states, and the events between them, none of which is a fault.
  ghost predicate IsRun(ks: seq<Kernel>, es: seq<Event>) {
    && |ks| == |es| + 1 && Inv(ks[0])
    && forall i :: 0 <= i < |es| ==> GoodStep(ks[i], es[i], ks[i + 1])
  }

  ghost predicate GoodStep(k: Kernel, e: Event, m: Kernel) {
    Inv(k) ==> Enabled(k, e) && !Faults(k, e) && m == After(k, e)
  }

  // The invariants hold in every state of every such run.
  lemma {:induction false} RunInv(ks: seq<Kernel>, es: seq<Event>, i: nat)
    requires IsRun(ks, es) && i < |ks|
    ensures Inv(ks[i])
  {
    hide Inv, Faults, After, Enabled;
    if i > 0 {
      RunInv(ks, es, i - 1);
      assert GoodStep(ks[i - 1], es[i - 1], ks[i]);
      StepKeeps(ks[i - 1], es[i - 1]);
    }
  }

  // ------------------------------------------------------ whose turn it is

  // What a tick does to the queue, by place: the first task goes to the back and
  // the next one runs.
  lemma TickByIndex(k: Kernel)
    requires Inv(k) && Enabled(k, ETick)
    ensures var q, m := k.cpu.queue, After(k, ETick);
            && m == k.(cpu := k.cpu.(queue := m.cpu.queue, current := m.cpu.current)) && |m.cpu.queue| == |q|
            && (forall i :: 0 <= i < |q| ==> m.cpu.queue[i] == q[if i + 1 < |q| then i + 1 else 0])
            && m.cpu.current == if q == [] then IDLE else m.cpu.queue[0]
  {
    hide Inv, Distinct;
    StartedIs(k);
  }

  // The events of a run from s on, n of them, are timer ticks.
  predicate OnlyTicks(es: seq<Event>, s: nat, n: nat) {
    s + n <= |es| && forall j :: s <= j < s + n ==> es[j] == ETick
  }

  // Ticks in a run turn the queue, and change nothing else: after n of them the task
  // n places on is at the front, and has the CPU.
  lemma {:induction false} TicksTurn(ks: seq<Kernel>, es: seq<Event>, s: nat, n: nat)
    requires IsRun(ks, es) && OnlyTicks(es, s, n)
    ensures var k, m := ks[s], ks[s + n];
            var q := k.cpu.queue;
            && m == k.(cpu := k.cpu.(queue := m.cpu.queue, current := m.cpu.current)) && |m.cpu.queue| == |q|
            && (forall i :: 0 <= i < |q| ==> m.cpu.queue[i] == q[(i + n) % |q|])
            && (n > 0 ==> m.cpu.current == if q == [] then IDLE else q[n % |q|])
    decreases n
  {
    hide Inv, Faults, After, Enabled;
    if n == 0 {
      NoTurn(ks[s].cpu.queue, ks[s].cpu.queue);
    } else {
      TicksTurn(ks, es, s, n - 1);
      RunInv(ks, es, s + n - 1);
      assert GoodStep(ks[s + n - 1], es[s + n - 1], ks[s + n]);
      TickByIndex(ks[s + n - 1]);
      OneMoreTurn(ks[s].cpu.queue, ks[s + n - 1].cpu.queue, ks[s + n].cpu.queue, n);
    }
  }

  lemma NoTurn(q: seq<nat>, r: seq<nat>)
    requires q == r
    ensures forall i :: 0 <= i < |q| ==> r[i] == q[(i + 0) % |q|]
  {
    forall i | 0 <= i < |q| ensures r[i] == q[(i + 0) % |q|] {
      if i > 0 { SmallMod(i, |q|); }
    }
  }

  lemma OneMoreTurn(q: seq<nat>, r: seq<nat>, u: seq<nat>, n: nat)
    requires n > 0 && |q| == |r| == |u|
    requires forall i :: 0 <= i < |q| ==> r[i] == q[(i + (n - 1)) % |q|]
    requires forall i :: 0 <= i < |q| ==> u[i] == r[if i + 1 < |q| then i + 1 else 0]
    ensures forall i :: 0 <= i < |q| ==> u[i] == q[(i + n) % |q|]
    ensures q != [] ==> u[0] == q[n % |q|]
  {
    forall i | 0 <= i < |q| ensures u[i] == q[(i + n) % |q|] {
      var j := if i + 1 < |q| then i + 1 else 0;
      WrapAdd(j, n - 1, |q|, i);
      assert r[j] == q[(j + (n - 1)) % |q|];
    }
    if q != [] { assert u[0] == q[(0 + n) % |q|]; }
  }

  // As many ticks in a row as there are tasks on the queue give each of them the CPU
  // exactly once, wherever in a run they come.
  lemma EveryTaskRuns(ks: seq<Kernel>, es: seq<Event>, s: nat, p: nat)
    requires IsRun(ks, es) && s < |ks| && OnlyTicks(es, s, |ks[s].cpu.queue|) && p in ks[s].cpu.queue
    ensures exists j :: s < j <= s + |ks[s].cpu.queue| && ks[j].cpu.current == p
    ensures forall i, j :: s < i < j <= s + |ks[s].cpu.queue| ==> ks[i].cpu.current != ks[j].cpu.current
  {
    hide IsRun;
    var q := ks[s].cpu.queue;
    RunLength(ks, es);
    DistinctQueue(ks, es, s);
    var i :| 0 <= i < |q| && q[i] == p;
    var j := s + if i == 0 then |q| else i;
    TurnOf(ks, es, s, j);
    assert s < j <= s + |q| && ks[j].cpu.current == p;
    forall a, b | s < a < b <= s + |q| ensures ks[a].cpu.current != ks[b].cpu.current {
      TurnOf(ks, es, s, a);
      TurnOf(ks, es, s, b);
    }
  }

  lemma RunLength(ks: seq<Kernel>, es: seq<Event>)
    requires IsRun(ks, es)
    ensures |ks| == |es| + 1
  {
  }

  lemma DistinctQueue(ks: seq<Kernel>, es: seq<Event>, s: nat)
    requires IsRun(ks, es) && s < |ks|
    ensures Distinct(ks[s].cpu.queue)
  {
    RunInv(ks, es, s);
  }

  lemma TurnOf(ks: seq<Kernel>, es: seq<Event>, s: nat, j: nat)
    requires IsRun(ks, es) && s < |ks| && OnlyTicks(es, s, |ks[s].cpu.queue|) && s < j <= s + |ks[s].cpu.queue|
    ensures ks[j].cpu.current == ks[s].cpu.queue[if j - s == |ks[s].cpu.queue| then 0 else j - s]
  {
    hide IsRun;
    TicksTurn(ks, es, s, j - s);
    SmallMod(j - s, |ks[s].cpu.queue|);
  }

  // A step in which the current task goes to sleep takes it off the front of the
  // queue; of the others the first goes to the back, and the next one runs.
  lemma SleepByIndex(k: Kernel, e: Event)
    requires Inv(k) && Enabled(k, e) && k.cpu.current != IDLE
    requires !Faults(k, e) && k.cpu.current in After(k, e).cpu.state
    requires After(k, e).cpu.state[k.cpu.current] != Running
    ensures var q, r := k.cpu.queue, After(k, e).cpu.queue;
            && q != [] && q[0] == k.cpu.current && |r| == |q| - 1
            && (forall i :: 0 <= i < |r| ==> r[i] == q[if i + 2 < |q| then i + 2 else 1])
            && After(k, e).cpu.current == if r == [] then IDLE else r[0]
  {
    var p, m := k.cpu.current, After(k, e);
    assert k.cpu.queue[0] == p && k.cpu.state[p] == Running;
    Sleeps(k, e);
    hide Inv, After, Faults, Enabled, QueueOk, WaitsOk;
    var c := k.cpu.(state := k.cpu.state[p := Interruptible]);
    assert Without(k.cpu.queue, p) == k.cpu.queue[1..];
    assert m.cpu == Schedule(c, false);
  }

  // Only inside a call does a running task stop running.
  lemma Sleeps(k: Kernel, e: Event)
    requires Inv(k) && Enabled(k, e) && k.cpu.current != IDLE && !Faults(k, e)
    requires k.cpu.current in After(k, e).cpu.state && After(k, e).cpu.state[k.cpu.current] != Running
    ensures After(k, e).cpu ==
            Schedule(k.cpu.(state := k.cpu.state[k.cpu.current := Interruptible]), false)
  {
    hide Tty.ReadLoop, Tty.Push, Distinct;
    var p := k.cpu.current;
    assert k.cpu.state[p] == Running;
    if e.EKey? { WakeEachIs(k.cpu, k.readWait); }
    if e.ERead? { FaultIff(k, e.count, e.accept); }
    if e.EResume? && k.pc[p].Reading? { FaultIff(k, k.pc[p].count, k.pc[p].accept); }
  }

  // A call can be completed: a read of nothing, a read in the foreground with a line to
  // read, or a write in the foreground.
  predicate Completes(k: Kernel, e: Event)
    requires Started(k) && Enabled(k, e)
  {
    var front := k.cpu.current == k.fg;
    match e
    case ERead(count, _) => count == 0 || (front && k.tty.canon > 0)
    case EWrite => front
    case EResume =>
      var pc := k.pc[k.cpu.current];
      front && (pc.Reading? ==> k.tty.canon > 0)
    case _ => false
  }

  // Then the task is back in user mode, keeps the CPU and waits for nothing. Otherwise
  // it sleeps in the call, and waits where the call can be woken up.
  lemma CallEnds(k: Kernel, e: Event)
    requires Inv(k) && Enabled(k, e) && (e.ERead? || e.EWrite? || e.EResume?) && !Faults(k, e)
    ensures var p, m := k.cpu.current, After(k, e);
            && p in m.pc && p in m.cpu.state
            && (Completes(k, e) ==>
                  && m.pc[p] == User && m.cpu == k.cpu && m.cpu.state[p] == Running
                  && p !in m.fgWait && p !in m.readWait)
            && (!Completes(k, e) ==>
                  && m.cpu.state[p] == Interruptible && p !in m.cpu.queue && p in m.fgWait && m.tty == k.tty
                  && (m.pc[p].Reading? ==> p in m.readWait) && k.fgWait <= m.fgWait <= k.fgWait + [p]
                  && k.readWait <= m.readWait <= k.readWait + [p]
                  && (e.ERead? ==> m.pc[p] == Reading(e.count, e.accept))
                  && (e.EWrite? ==> m.pc[p] == Writing) && (e.EResume? ==> m.pc[p] == k.pc[p]))
  {
    hide Tty.ReadLoop, Distinct, Without, Rotate, Pick;
    var p, m := k.cpu.current, After(k, e);
    assert p != IDLE && p in k.cpu.queue && k.cpu.state[p] == Running;
    assert k.cpu.state[p := Running] == k.cpu.state;
    WithoutDistinct(k.fgWait, p);
    WithoutDistinct(k.readWait, p);
    WithoutDistinct(k.cpu.queue, p);
    RotateDistinct(Without(k.cpu.queue, p));
    if e.ERead? { FaultIff(k, e.count, e.accept); }
    if e.EResume? && k.pc[p].Reading? { FaultIff(k, k.pc[p].count, k.pc[p].accept); }
  }

  // What a key does to the tasks: a newline wakes every reader, any other key nobody.
  lemma KeyWakes(k: Kernel, c: char)
    requires Inv(k) && Enabled(k, EKey(c))
    ensures var m := After(k, EKey(c));
            && m.tty == Tty.Push(k.tty, c) && m.pc == k.pc && m.readWait == k.readWait && m.fgWait == k.fgWait
            && m.cpu.state.Keys == k.cpu.state.Keys && (c != Tty.NEWLINE ==> m.cpu == k.cpu)
            && (c == Tty.NEWLINE ==>
                  forall p :: p in k.cpu.state ==>
                    (m.cpu.state[p] == Running <==> k.cpu.state[p] == Running || p in k.readWait))
  {
    hide Tty.Push, Distinct, QueueOk;
    WakeEachIs(k.cpu, k.readWait);
  }

  // Keys and new tasks only add to the back of the queue.
  lemma QueueGrows(k: Kernel, e: Event)
    requires Inv(k) && Enabled(k, e) && (e.EKey? || e.ESpawn?)
    ensures k.cpu.queue <= After(k, e).cpu.queue && After(k, e).cpu.current == k.cpu.current
  {
    hide Tty.Push, Distinct;
    if e.EKey? { WakeEachGrows(k.cpu, k.readWait); }
  }

  // The system after boot: only the idle task.
  function Boot(tty: Tty.Tty, fg: nat): Kernel {
    Kernel(Cpu([], IDLE, map[IDLE := Running]), map[IDLE := User], [], [], tty, fg)
  }

  lemma BootInv(tty: Tty.Tty, fg: nat)
    requires Tty.Wf(tty)
    ensures Inv(Boot(tty, fg))
  {
  }

  // A new task gets the CPU with the next tick, if it is the only one.
  lemma FirstTask(k: Kernel, p: nat)
    requires k == Spawn(Boot(k.tty, k.fg), p) && p != IDLE
    ensures k.cpu.current in k.cpu.state && Schedule(k.cpu, true).current == p && Schedule(k.cpu, true).queue == [p]
  {
    assert k.cpu.queue == [p];
    assert Rotate([p]) == [p];
  }

  // The fourth event after boot can take the -EFAULT exit: the foreground task is
  // started, a line is typed, the task gets the CPU and reads into a bad buffer.
  lemma FaultReachable(tty: Tty.Tty, p: nat)
    requires Tty.Wf(tty) && p != IDLE
    ensures exists ks, es :: IsRun(ks, es) && ks[0] == Boot(tty, p) && Inv(ks[|es|]) &&
              Enabled(ks[|es|], ERead(1, 0)) && Faults(ks[|es|], ERead(1, 0))
  {
    hide Inv, Tty.Push;
    var k0 := Boot(tty, p);
    BootInv(tty, p);
    var k1 := Spawn(k0, p);
    SpawnKeeps(k0, p);
    StartedIs(k0);
    StartedIs(k1);
    var k2 := Key(k1, Tty.NEWLINE);
    KeyKeeps(k1, Tty.NEWLINE);
    Tty.NewlineCounts(tty);
    StartedIs(k2);
    assert k2.cpu == k1.cpu;
    var k3 := Tick(k2);
    TickKeeps(k2);
    StartedIs(k3);
    FirstTask(k1, p);
    var ks, es := [k0, k1, k2, k3], [ESpawn(p), EKey(Tty.NEWLINE), ETick];
    assert GoodStep(k0, es[0], k1) && GoodStep(k1, es[1], k2) && GoodStep(k2, es[2], k3);
    assert IsRun(ks, es) && ks[|es|] == k3;
  }

  // Every newline puts a sleeping reader back on the run queue, exactly once.
  lemma NewlineWakes(k: Kernel, p: nat)
    requires Inv(k) && p in k.pc && k.pc[p].Reading? && k.cpu.state[p] != Running
    ensures p !in k.cpu.queue
    ensures var m := Key(k, Tty.NEWLINE);
            Inv(m) && p in m.cpu.queue && Distinct(m.cpu.queue) && m.cpu.state[p] == Running
  {
    KeyKeeps(k, Tty.NEWLINE);
    WakeEachIs(k.cpu, k.readWait);
  }

  // Waking a list that names a task which sleeps although it is queued, queues it
  // a second time.
  lemma {:induction false} WakeEachTwice(c: Cpu, ps: seq<nat>, p: nat)
    requires (forall q :: q in ps ==> q in c.state) && p in ps && p in c.queue && c.state[p] != Running
    ensures !Distinct(WakeEach(c, ps).queue)
    decreases |ps|
  {
    hide Distinct;
    var d := WakeUp(c, ps[0]);
    if ps[0] == p {
      var i :| 0 <= i < |c.queue| && c.queue[i] == p;
      Twice(d.queue, i, |d.queue| - 1);
      WakeEachGrows(d, ps[1..]);
    } else {
      WakeEachTwice(d, ps[1..], p);
    }
  }

  lemma Twice(q: seq<nat>, i: nat, j: nat)
    requires i < j < |q| && q[i] == q[j]
    ensures !Distinct(q) && forall r: seq<nat> {:trigger Distinct(r)} :: q <= r ==> !Distinct(r)
  {
  }

  lemma {:induction false} WakeEachGrows(c: Cpu, ps: seq<nat>)
    requires forall q :: q in ps ==> q in c.state
    ensures c.queue <= WakeEach(c, ps).queue
    decreases |ps|
  {
    if ps != [] { WakeEachGrows(WakeUp(c, ps[0]), ps[1..]); }
  }

  // Were system calls not masked, a tick between prepare_to_wait and schedule
  // would leave a sleeping task on the run queue; the next newline then queues it
  // twice. So the masking is needed.
  lemma UnmaskedWaitQueuesTwice(k: Kernel)
    requires Inv(k) && k.cpu.current != IDLE
    ensures var m := Tick(Prepared(k, true));
            Started(m) && (forall p :: p in m.readWait ==> p in m.cpu.state) && !Distinct(Key(m, Tty.NEWLINE).cpu.queue)
  {
    hide Distinct, Tty.Push;
    var p, m := k.cpu.current, Tick(Prepared(k, true));
    assert p in k.cpu.queue;
    RotateDistinct(k.cpu.queue);
    assert p in m.readWait;
    WakeEachTwice(m.cpu, m.readWait, p);
  }

  // The same happens after the -EFAULT exit: the next newline queues the
  // running task a second time.
  lemma FaultThenNewlineQueuesTwice(k: Kernel, count: nat, accept: nat)
    requires Inv(k) && k.cpu.current != IDLE && FaultGuard(k, count, accept)
    ensures var m := ReadCall(k, count, accept);
            Started(m) && (forall p :: p in m.readWait ==> p in m.cpu.state) && !Distinct(Key(m, Tty.NEWLINE).cpu.queue)
  {
    FaultIff(k, count, accept);
    FaultState(k, count, accept);
    hide Tty.ReadLoop, ReadCall, Inv, WakeUp, Distinct, FaultGuard, Outcome;
    var m := ReadCall(k, count, accept);
    WakeEachTwice(m.cpu, m.readWait, k.cpu.current);
  }

  lemma FaultState(k: Kernel, count: nat, accept: nat)
    requires Inv(k) && k.cpu.current != IDLE && Outcome(k, count, accept).Fault?
    ensures var m := ReadCall(k, count, accept);
            && Started(m) && k.cpu.current in m.readWait && (forall p :: p in m.readWait ==> p in m.cpu.state)
            && k.cpu.current in m.cpu.queue && m.cpu.state[k.cpu.current] == Interruptible
  {
    hide Tty.ReadLoop;
    assert k.cpu.current in k.cpu.queue;
  }
}
