// The line-buffered terminal input of kernel/tty.c; its canonical mode is that
// of section 11.1.6 of POSIX.1-2017 XBD.
module Tty {
  import opened Base

  const BUF_SIZE: nat := 512
  const BOUNCE_SIZE: nat := 128
  const NEWLINE: char := '\n'
  const BACKSPACE: char := '\U{0008}'

  // The ring, and the count of lines it is supposed to hold.
  datatype Tty = Tty(buf: seq<char>, head: nat, tail: nat, canon: nat)

  predicate Wf(t: Tty) { |t.buf| == BUF_SIZE && t.head < BUF_SIZE && t.tail < BUF_SIZE }

  predicate Empty(t: Tty) { t.head == t.tail }

  predicate Full(t: Tty) { (t.tail + 1) % BUF_SIZE == t.head }

  // ---------------------------------------------------------- the bounded queue

  function Count(t: Tty): nat
    requires Wf(t)
  {
    if t.head <= t.tail then t.tail - t.head else t.tail + BUF_SIZE - t.head
  }

  // The k-th character from the head on.
  function At(t: Tty, k: nat): char
    requires Wf(t) && k < BUF_SIZE
  {
    t.buf[(t.head + k) % BUF_SIZE]
  }

  function Contents(t: Tty): (s: seq<char>)
    requires Wf(t)
    ensures |s| == Count(t) < BUF_SIZE && forall k :: 0 <= k < |s| ==> s[k] == At(t, k)
  {
    seq(Count(t), k requires 0 <= k < Count(t) => At(t, k))
  }

  function Lines(s: seq<char>): nat {
    if s == [] then 0 else (if s[0] == NEWLINE then 1 else 0) + Lines(s[1..])
  }

  lemma {:induction false} LinesAppend(s: seq<char>, u: seq<char>)
    ensures Lines(s + u) == Lines(s) + Lines(u)
  {
    if s == [] {
      assert s + u == u;
    } else {
      LinesAppend(s[1..], u);
      assert (s + u)[1..] == s[1..] + u;
    }
  }

  // The line counter tells the truth.
  predicate Synced(t: Tty)
    requires Wf(t)
  {
    t.canon == Lines(Contents(t))
  }

  // ------------------------------------------------------------- typing

  function Backspaced(t: Tty): Tty {
    if Empty(t) then t else t.(tail := if t.tail == 0 then BUF_SIZE - 1 else t.tail - 1)
  }

  // tty_push_char
  function Push(t: Tty, c: char): (u: Tty)
    requires Wf(t)
    ensures Wf(u)
  {
    if c == BACKSPACE then Backspaced(t)
    else
      var u := if Full(t) then t else t.(buf := t.buf[t.tail := c], tail := (t.tail + 1) % BUF_SIZE);
      if c == NEWLINE then u.(canon := u.canon + 1) else u
  }

  // A character is appended unless 511 are waiting; backspace takes the last one back.
  lemma PushContents(t: Tty, c: char)
    requires Wf(t)
    ensures var s, s' := Contents(t), Contents(Push(t, c));
            if c == BACKSPACE then s' == if s == [] then [] else s[..|s| - 1]
            else s' == if |s| == BUF_SIZE - 1 then s else s + [c]
    ensures Full(t) <==> |Contents(t)| == BUF_SIZE - 1
  {
    if c != BACKSPACE && !Full(t) {
      Appended(t, c);
    } else if c == BACKSPACE && !Empty(t) {
      Shortened(t);
    }
  }

  lemma Appended(t: Tty, c: char)
    requires Wf(t) && c != BACKSPACE && !Full(t)
    ensures Contents(Push(t, c)) == Contents(t) + [c]
  {
    var u := Push(t, c);
    assert Count(u) == Count(t) + 1;
    forall k | 0 <= k < Count(t) ensures At(u, k) == At(t, k) {
      assert (t.head + k) % BUF_SIZE != t.tail;
    }
    assert At(u, Count(t)) == c;
  }

  lemma Shortened(t: Tty)
    requires Wf(t) && !Empty(t)
    ensures Contents(Backspaced(t)) == Contents(t)[..|Contents(t)| - 1]
  {
    var u := Backspaced(t);
    assert Count(u) == Count(t) - 1;
    assert forall k :: 0 <= k < Count(u) ==> At(u, k) == At(t, k);
  }

  // The counter stays right exactly when no newline meets a full ring and no
  // backspace takes back a newline.
  lemma PushSync(t: Tty, c: char)
    requires Wf(t) && Synced(t)
    ensures Synced(Push(t, c)) <==>
            && !(c == NEWLINE && Full(t))
            && !(c == BACKSPACE && Contents(t) != [] && Contents(t)[|Contents(t)| - 1] == NEWLINE)
  {
    PushContents(t, c);
    var s := Contents(t);
    if c == BACKSPACE && s != [] {
      LinesAppend(s[..|s| - 1], [s[|s| - 1]]);
      assert s == s[..|s| - 1] + [s[|s| - 1]];
    } else {
      LinesAppend(s, [c]);
    }
  }

  // ------------------------------------------------------------ taking a chunk

  function Available(t: Tty): nat
    requires Wf(t)
  {
    if t.head < t.tail then t.tail - t.head else BUF_SIZE - t.head + t.tail
  }

  // Where a scan from k stops: behind the first newline, or at the limit.
  function Scan(t: Tty, k: nat, limit: nat): (n: nat)
    requires Wf(t) && k <= limit <= BUF_SIZE
    ensures k <= n <= limit && (k < limit ==> k < n)
    ensures forall i :: k <= i < n - 1 ==> At(t, i) != NEWLINE
    ensures n < limit ==> n > 0 && At(t, n - 1) == NEWLINE
    decreases limit - k
  {
    if k == limit then k else if At(t, k) == NEWLINE then k + 1 else Scan(t, k + 1, limit)
  }

  datatype Chunk = Chunk(tty: Tty, bytes: seq<char>)

  // __tty_read
  function ReadChunk(t: Tty, count: nat): (r: Chunk)
    requires Wf(t)
    ensures Wf(r.tty) && |r.bytes| <= count
    ensures r.bytes == [] <==> t.canon == 0 || count == 0
    ensures t.canon == 0 ==> r.tty == t
  {
    if t.canon == 0 then Chunk(t, [])
    else
      var n := Scan(t, 0, Min(Available(t), count));
      var bytes := seq(n, k requires 0 <= k < n => At(t, k));
      var taken := if n > 0 && bytes[n - 1] == NEWLINE then 1 else 0;
      Chunk(t.(head := (t.head + n) % BUF_SIZE, canon := t.canon - taken), bytes)
  }

  lemma ChunkFrom(t: Tty, count: nat, bytes: seq<char>)
    requires Wf(t) && t.canon > 0 && |bytes| == Scan(t, 0, Min(Available(t), count))
    requires forall k :: 0 <= k < |bytes| ==> bytes[k] == At(t, k)
    ensures var taken := if bytes != [] && bytes[|bytes| - 1] == NEWLINE then 1 else 0;
            ReadChunk(t, count) == Chunk(t.(head := (t.head + |bytes|) % BUF_SIZE, canon := t.canon - taken), bytes)
  {
    hide Scan, At;
    assert ReadChunk(t, count).bytes == bytes;
  }

  // Length of the first line of s, newline included; all of s if it has none.
  function LineLength(s: seq<char>): (n: nat)
    ensures n <= |s|
    ensures forall i :: 0 <= i < n - 1 ==> s[i] != NEWLINE
    ensures n < |s| ==> n > 0 && s[n - 1] == NEWLINE
    ensures s != [] ==> n > 0
  {
    if s == [] then 0 else if s[0] == NEWLINE then 1 else 1 + LineLength(s[1..])
  }

  lemma {:induction false} LineEnds(s: seq<char>)
    requires Lines(s) > 0
    ensures LineLength(s) > 0 && s[LineLength(s) - 1] == NEWLINE
    ensures Lines(s[..LineLength(s)]) == 1
  {
    if s[0] == NEWLINE {
      assert s[..1] == [NEWLINE];
      assert s[..1][1..] == [];
    } else {
      LineEnds(s[1..]);
      assert s[..LineLength(s)][1..] == s[1..][..LineLength(s[1..])];
    }
  }

  lemma {:induction false} NoLines(s: seq<char>)
    requires forall i :: 0 <= i < |s| ==> s[i] != NEWLINE
    ensures Lines(s) == 0
  {
    if s != [] { NoLines(s[1..]); }
  }

  // A chunk is what is asked for, up to the end of the first line, and is taken
  // off the front; the counter stays right.
  lemma ChunkContents(t: Tty, count: nat)
    requires Wf(t) && Synced(t) && t.canon > 0
    ensures var s := Contents(t);
            var n := Min(count, LineLength(s));
            var r := ReadChunk(t, count);
            && r.bytes == s[..n] && Contents(r.tty) == s[n..] && Synced(r.tty)
            && (r.tty.canon != t.canon <==> n == LineLength(s))
  {
    hide Lines, LineLength, Contents, ReadChunk;
    var s := Contents(t);
    var n := Min(count, LineLength(s));
    LineEnds(s);
    LinesSplit(s, n);
    ChunkIs(t, count);
    DropContents(t, n, ReadChunk(t, count).tty.canon);
  }

  lemma ChunkIs(t: Tty, count: nat)
    requires Wf(t) && Synced(t) && t.canon > 0
    ensures var s := Contents(t);
            var n := Min(count, LineLength(s));
            var r := ReadChunk(t, count);
            && n <= Count(t) && r.bytes == s[..n]
            && r.tty == t.(head := (t.head + n) % BUF_SIZE,
                           canon := t.canon - if n > 0 && s[n - 1] == NEWLINE then 1 else 0)
  {
    hide Lines, LineLength, Contents, Scan, At;
    ScanIs(t, count);
    LineEnds(Contents(t));
    assert Available(t) == Count(t);
    assert ReadChunk(t, count).bytes == Contents(t)[..Min(count, LineLength(Contents(t)))];
  }

  // Cutting s before or at the end of its first line.
  lemma LinesSplit(s: seq<char>, n: nat)
    requires Lines(s) > 0 && n <= LineLength(s)
    ensures Lines(s[n..]) == Lines(s) - if n == LineLength(s) then 1 else 0
    ensures n > 0 ==> (s[n - 1] == NEWLINE <==> n == LineLength(s))
  {
    LineEnds(s);
    assert s == s[..n] + s[n..];
    LinesAppend(s[..n], s[n..]);
    if n < LineLength(s) { NoLines(s[..n]); }
  }

  lemma ScanIs(t: Tty, count: nat)
    requires Wf(t) && Lines(Contents(t)) > 0
    ensures Scan(t, 0, Min(Count(t), count)) == Min(count, LineLength(Contents(t)))
  {
    var s := Contents(t);
    LineEnds(s);
    var n := Scan(t, 0, Min(Count(t), count));
    var l := LineLength(s);
    assert At(t, l - 1) == NEWLINE;
  }

  lemma RingAdd(x: nat, k: nat)
    ensures (x % BUF_SIZE + k) % BUF_SIZE == (x + k) % BUF_SIZE
  {
  }

  lemma DropContents(t: Tty, n: nat, c: nat)
    requires Wf(t) && n <= Count(t)
    ensures Contents(t.(head := (t.head + n) % BUF_SIZE, canon := c)) == Contents(t)[n..]
  {
    var u := t.(head := (t.head + n) % BUF_SIZE, canon := c);
    assert Count(u) == Count(t) - n;
    hide Contents, Count;
    forall k | 0 <= k < Count(u) ensures Contents(u)[k] == Contents(t)[n + k] {
      RingAdd(t.head + n, k);
    }
  }

  // --------------------------------------------------------------- tty_read

  // Asleep: no line is waiting. Fault: -EFAULT, nothing could be copied.
  datatype ReadResult = Asleep | Fault(tty: Tty) | Got(tty: Tty, bytes: seq<char>)

  // The loop of tty_read for the foreground task. The caller's buffer takes the
  // first `accept` bytes; out is what has been copied so far.
  function ReadLoop(t: Tty, count: nat, accept: nat, out: seq<char>): (r: ReadResult)
    requires Wf(t)
    ensures r.Fault? ==> Wf(r.tty) && out == [] && accept == 0
    ensures r.Got? ==> Wf(r.tty) && (|out| <= count ==> |r.bytes| <= count)
    ensures out == [] ==> (r.Asleep? <==> count > 0 && t.canon == 0)
    ensures out != [] ==> r.Got?
    decreases count - |out|
  {
    if |out| >= count then Got(t, out)
    else
      var c := ReadChunk(t, Min(count - |out|, BOUNCE_SIZE));
      if c.bytes == [] then if out == [] then Asleep else Got(c.tty, out)
      else
        var copied := Min(|c.bytes|, Max(0, accept - |out|));
        var out' := out + c.bytes[..copied];
        if out' == [] then Fault(c.tty)
        else if copied < |c.bytes| then Got(c.tty, out')
        else if c.tty.canon != t.canon then Got(c.tty, out')
        else ReadLoop(c.tty, count, accept, out')
  }

  // Whatever the bounce buffer splits, the reader gets exactly the first line,
  // or as much of it as was asked for; the rest stays.
  lemma {:induction false} ReadsOneLine(t: Tty, count: nat, accept: nat, out: seq<char>)
    requires Wf(t) && Synced(t) && t.canon > 0 && |out| < count <= accept
    ensures var s := Contents(t);
            var n := Min(count - |out|, LineLength(s));
            var r := ReadLoop(t, count, accept, out);
            && r.Got? && r.bytes == out + s[..n] && Contents(r.tty) == s[n..] && Synced(r.tty)
    decreases count - |out|
  {
    hide ReadChunk, ReadLoop, Contents, Lines, LineLength;
    var s := Contents(t);
    var m := Min(count - |out|, BOUNCE_SIZE);
    var c := ReadChunk(t, m);
    LoopStep(t, count, accept, out);
    ChunkContents(t, m);
    var out' := out + c.bytes;
    if c.tty.canon == t.canon {
      if |out'| < count {
        LineTail(s, |c.bytes|);
        ReadsOneLine(c.tty, count, accept, out');
        Glue(out, s, |c.bytes|, Min(count - |out|, LineLength(s)));
      } else {
        LoopDone(c.tty, count, accept, out');
      }
    }
  }

  // What a read into a buffer that takes only the first bytes of the line takes out of
  // the ring: whole bounces, up to and with the one in which the copying stops.
  function TakenOut(accept: nat, n: nat): nat { Min(n, BOUNCE_SIZE * (accept / BOUNCE_SIZE + 1)) }

  // With s in the ring and out copied before, the read ends with the next a bytes copied
  // and m bytes taken out; it is an error if nothing has been copied at all.
  predicate EndsWith(r: ReadResult, s: seq<char>, out: seq<char>, a: nat, m: nat) {
    && a <= m <= |s| && !r.Asleep? && Wf(r.tty) && Contents(r.tty) == s[m..] && Synced(r.tty)
    && (r.Fault? <==> out == [] && a == 0) && (r.Got? ==> r.bytes == out + s[..a])
  }

  // The reader gets what its buffer takes; what it does not get of those bounces is lost.
  lemma {:induction false} ReadsPartOfLine(t: Tty, count: nat, accept: nat, out: seq<char>)
    requires Wf(t) && Synced(t) && t.canon > 0 && |out| <= accept < count
    requires accept - |out| < Min(count - |out|, LineLength(Contents(t)))
    ensures var s, a := Contents(t), accept - |out|;
            EndsWith(ReadLoop(t, count, accept, out), s, out, a, TakenOut(a, Min(count - |out|, LineLength(s))))
    decreases count - |out|
  {
    hide ReadChunk, ReadLoop, Contents, Lines, LineLength, TakenOut, Synced, EndsWith;
    var s, a := Contents(t), accept - |out|;
    var n := Min(count - |out|, LineLength(s));
    var c := ReadChunk(t, Min(count - |out|, BOUNCE_SIZE));
    var r := ReadLoop(t, count, accept, out);
    FirstBounce(t, count, accept, out);
    Bounces(a, n);
    if a < Min(n, BOUNCE_SIZE) {
      Stops(r, c, s, out, a, Min(n, BOUNCE_SIZE));
    } else {
      LineTail(s, BOUNCE_SIZE);
      ReadsPartOfLine(c.tty, count, accept, out + c.bytes);
      GoesOn(r, s, out, a, TakenOut(a, n));
    }
  }

  // The first round, in terms of the ring's contents.
  lemma FirstBounce(t: Tty, count: nat, accept: nat, out: seq<char>)
    requires Wf(t) && Synced(t) && t.canon > 0 && |out| <= accept < count
    requires accept - |out| < Min(count - |out|, LineLength(Contents(t)))
    ensures var s, a := Contents(t), accept - |out|;
            var k := Min(Min(count - |out|, LineLength(s)), BOUNCE_SIZE);
            var c := ReadChunk(t, Min(count - |out|, BOUNCE_SIZE));
            var r := ReadLoop(t, count, accept, out);
            && k <= |s| && c.bytes == s[..k] && Contents(c.tty) == s[k..] && Synced(c.tty)
            && (a < k ==> r == if out == [] && a == 0 then Fault(c.tty) else Got(c.tty, out + c.bytes[..a]))
            && (a >= k ==>
                  && k == BOUNCE_SIZE && c.tty.canon == t.canon
                  && r == ReadLoop(c.tty, count, accept, out + c.bytes))
  {
    hide ReadChunk, ReadLoop, Contents, Lines, LineLength, Synced;
    ChunkContents(t, Min(count - |out|, BOUNCE_SIZE));
    PartStep(t, count, accept, out);
  }

  lemma Stops(r: ReadResult, c: Chunk, s: seq<char>, out: seq<char>, a: nat, m: nat)
    requires a < m <= |s| && Wf(c.tty) && c.bytes == s[..m] && Contents(c.tty) == s[m..] && Synced(c.tty)
    requires r == if out == [] && a == 0 then Fault(c.tty) else Got(c.tty, out + c.bytes[..a])
    ensures EndsWith(r, s, out, a, m)
  {
    hide Contents, Synced;
    assert s[..m][..a] == s[..a];
  }

  lemma GoesOn(r: ReadResult, s: seq<char>, out: seq<char>, a: nat, m: nat)
    requires BOUNCE_SIZE <= a <= m <= |s|
    requires EndsWith(r, s[BOUNCE_SIZE..], out + s[..BOUNCE_SIZE], a - BOUNCE_SIZE, m - BOUNCE_SIZE)
    ensures EndsWith(r, s, out, a, m)
  {
    hide Contents, Synced;
    assert s[BOUNCE_SIZE..][m - BOUNCE_SIZE..] == s[m..];
    assert out + s[..BOUNCE_SIZE] + s[BOUNCE_SIZE..][..a - BOUNCE_SIZE] == out + s[..a];
  }

  // One bounce, and the rest.
  lemma Bounces(a: nat, n: nat)
    requires a < n
    ensures a <= TakenOut(a, n) <= n && (a < Min(n, BOUNCE_SIZE) ==> TakenOut(a, n) == Min(n, BOUNCE_SIZE))
    ensures a >= BOUNCE_SIZE ==>
              BOUNCE_SIZE <= TakenOut(a, n) == BOUNCE_SIZE + TakenOut(a - BOUNCE_SIZE, n - BOUNCE_SIZE)
  {
  }

  // One round of the loop, whether or not all of the bounce can be copied.
  lemma PartStep(t: Tty, count: nat, accept: nat, out: seq<char>)
    requires Wf(t) && t.canon > 0 && |out| <= accept < count
    ensures var c := ReadChunk(t, Min(count - |out|, BOUNCE_SIZE));
            var r := ReadLoop(t, count, accept, out);
            var a := accept - |out|;
            && c.bytes != [] && |c.bytes| <= BOUNCE_SIZE
            && (a < |c.bytes| && accept == 0 ==> r == Fault(c.tty))
            && (a < |c.bytes| && accept > 0 ==> r == Got(c.tty, out + c.bytes[..a]))
            && (a >= |c.bytes| && c.tty.canon == t.canon ==> r == ReadLoop(c.tty, count, accept, out + c.bytes))
  {
    hide ReadChunk;
    var c := ReadChunk(t, Min(count - |out|, BOUNCE_SIZE));
    assert c.bytes[..|c.bytes|] == c.bytes;
  }

  lemma LoopDone(t: Tty, count: nat, accept: nat, out: seq<char>)
    requires Wf(t) && |out| >= count
    ensures ReadLoop(t, count, accept, out) == Got(t, out)
  {
  }

  // One round of the loop when nothing faults.
  lemma LoopStep(t: Tty, count: nat, accept: nat, out: seq<char>)
    requires Wf(t) && t.canon > 0 && |out| < count <= accept
    ensures var c := ReadChunk(t, Min(count - |out|, BOUNCE_SIZE));
            && c.bytes != [] && |out + c.bytes| <= count
            && ReadLoop(t, count, accept, out) ==
               if c.tty.canon != t.canon then Got(c.tty, out + c.bytes)
               else ReadLoop(c.tty, count, accept, out + c.bytes)
  {
    hide ReadChunk;
    var c := ReadChunk(t, Min(count - |out|, BOUNCE_SIZE));
    assert c.bytes[..|c.bytes|] == c.bytes;
  }

  lemma LineTail(s: seq<char>, m: nat)
    requires m < LineLength(s)
    ensures LineLength(s[m..]) == LineLength(s) - m
    decreases m
  {
    if m > 0 {
      LineTail(s[1..], m - 1);
      assert s[m..] == s[1..][m - 1..];
    } else {
      assert s[0..] == s;
    }
  }

  lemma Glue(out: seq<char>, s: seq<char>, m: nat, n: nat)
    requires m <= n <= |s|
    ensures out + s[..m] + s[m..][..n - m] == out + s[..n] && s[m..][n - m..] == s[n..]
  {
  }

  // A newline taken back with backspace is still delivered: after it the ring is
  // empty, yet one line is counted and the erased newline is read.
  lemma ErasedNewlineIsRead(t: Tty)
    requires Wf(t) && Synced(t) && Empty(t)
    ensures var u := Push(Push(t, NEWLINE), BACKSPACE);
            Contents(u) == [] && u.canon == 1 && ReadChunk(u, 1).bytes == [NEWLINE]
  {
    var u := Push(Push(t, NEWLINE), BACKSPACE);
    assert At(u, 0) == NEWLINE;
    assert Scan(u, 0, 1) == 1;
  }

  // Every newline is counted.
  lemma NewlineCounts(t: Tty)
    requires Wf(t)
    ensures Push(t, NEWLINE).canon == t.canon + 1
  {
  }

  // A newline typed into a full ring is counted but lost.
  lemma DroppedNewlineIsCounted(t: Tty)
    requires Wf(t) && Synced(t) && Full(t)
    ensures var u := Push(t, NEWLINE); Contents(u) == Contents(t) && u.canon == t.canon + 1
  {
    PushContents(t, NEWLINE);
  }

  // ------------------------------------------------------------------ runs

  // What happens to the terminal: a key, or a complete read by the foreground task.
  datatype Event = Key(c: char) | Read(count: nat)

  datatype Step<T> = Step(state: T, bytes: seq<char>)

  // The terminal as a bounded queue of characters.
  function QueueStep(s: seq<char>, e: Event): Step<seq<char>> {
    match e
    case Key(c) =>
      if c == BACKSPACE then Step(if s == [] then [] else s[..|s| - 1], [])
      else Step(if |s| >= BUF_SIZE - 1 then s else s + [c], [])
    case Read(count) =>
      if count == 0 || Lines(s) == 0 then Step(s, [])
      else Step(s[Min(count, LineLength(s))..], s[..Min(count, LineLength(s))])
  }

  // Neither a newline into a full ring nor a backspace onto a newline.
  predicate Harmless(s: seq<char>, e: Event) {
    e.Key? ==>
      !(e.c == NEWLINE && |s| >= BUF_SIZE - 1) && !(e.c == BACKSPACE && s != [] && s[|s| - 1] == NEWLINE)
  }

  function RingStep(t: Tty, e: Event): (r: Step<Tty>)
    requires Wf(t)
    ensures Wf(r.state)
  {
    match e
    case Key(c) => Step(Push(t, c), [])
    case Read(count) =>
      var r := ReadLoop(t, count, count, []);
      if r.Got? then Step(r.tty, r.bytes) else Step(t, [])
  }

  lemma StepRefines(t: Tty, e: Event)
    requires Wf(t) && Synced(t) && Harmless(Contents(t), e)
    ensures var r := RingStep(t, e);
            Synced(r.state) && Step(Contents(r.state), r.bytes) == QueueStep(Contents(t), e)
  {
    match e
    case Key(c) =>
      PushSync(t, c);
      PushContents(t, c);
    case Read(count) =>
      if count > 0 && t.canon > 0 { ReadsOneLine(t, count, count, []); }
  }

  function RingRun(t: Tty, es: seq<Event>): (r: Step<Tty>)
    requires Wf(t)
    decreases |es|
  {
    if es == [] then Step(t, [])
    else
      var a := RingStep(t, es[0]);
      var b := RingRun(a.state, es[1..]);
      Step(b.state, a.bytes + b.bytes)
  }

  function QueueRun(s: seq<char>, es: seq<Event>): Step<seq<char>>
    decreases |es|
  {
    if es == [] then Step(s, [])
    else
      var a := QueueStep(s, es[0]);
      var b := QueueRun(a.state, es[1..]);
      Step(b.state, a.bytes + b.bytes)
  }

  predicate HarmlessRun(s: seq<char>, es: seq<Event>)
    decreases |es|
  {
    es == [] || (Harmless(s, es[0]) && HarmlessRun(QueueStep(s, es[0]).state, es[1..]))
  }

  // Over every harmless run the ring behaves as the bounded queue: it delivers the
  // same bytes, holds the same characters, and its counter counts their newlines.
  lemma {:induction false} RunRefines(t: Tty, es: seq<Event>)
    requires Wf(t) && Synced(t) && HarmlessRun(Contents(t), es)
    ensures var r := RingRun(t, es);
            Wf(r.state) && Synced(r.state) && Step(Contents(r.state), r.bytes) == QueueRun(Contents(t), es)
    decreases |es|
  {
    if es != [] {
      StepRefines(t, es[0]);
      hide RingStep, QueueStep, Harmless, Contents;
      RunRefines(RingStep(t, es[0]).state, es[1..]);
    }
  }

  // -------------------------------------------------------------- the device

  class Device {
    const buffer: array<char>
    var head: nat
    var tail: nat
    var canonLines: nat

    ghost predicate Valid()
      reads this, buffer
    {
      Wf(View())
    }

    ghost function View(): Tty
      reads this, buffer
    {
      Tty(buffer[..], head, tail, canonLines)
    }

    constructor ()
      ensures Valid() && Contents(View()) == [] && Synced(View()) && fresh(buffer)
    {
      buffer := new char[BUF_SIZE];
      head, tail, canonLines := 0, 0, 0;
    }

    // tty_push_char; the result says whether to wake up readers.
    method PushChar(c: char) returns (newLine: bool)
      requires Valid()
      modifies this, buffer
      ensures Valid() && View() == Push(old(View()), c) && newLine == (c == NEWLINE)
    {
      newLine := false;
      if c == BACKSPACE {
        if head != tail {
          tail := if tail == 0 then BUF_SIZE - 1 else tail - 1;
        }
      } else {
        var next := (tail + 1) % BUF_SIZE;
        if next != head {
          buffer[tail] := c;
          tail := next;
        }
        if c == NEWLINE {
          canonLines := canonLines + 1;
          newLine := true;
        }
      }
    }

    // __tty_read
    method TakeChunk(count: nat) returns (bytes: seq<char>)
      requires Valid()
      modifies this
      ensures Valid() && Chunk(View(), bytes) == ReadChunk(old(View()), count)
    {
      hide Scan, At;
      if canonLines == 0 {
        return [];
      }
      hide ReadChunk;
      var available := if head < tail then tail - head else BUF_SIZE - head + tail;
      var taken;
      bytes, taken := CopyOut(Min(available, count));
      ChunkFrom(View(), count, bytes);
      canonLines, head := canonLines - taken, (head + |bytes|) % BUF_SIZE;
    }

    // The copying loop; the second result is 1 if it ended at a newline.
    method CopyOut(toCopy: nat) returns (bytes: seq<char>, taken: nat)
      requires Valid() && toCopy <= BUF_SIZE
      ensures |bytes| == Scan(View(), 0, toCopy) && forall k :: 0 <= k < |bytes| ==> bytes[k] == At(View(), k)
      ensures taken == if |bytes| > 0 && bytes[|bytes| - 1] == NEWLINE then 1 else 0
    {
      bytes, taken := [], 0;
      var i := 0;
      while i < toCopy
        invariant 0 <= i == |bytes| <= toCopy && taken == 0
        invariant forall k :: 0 <= k < i ==> bytes[k] == At(View(), k)
        invariant Scan(View(), 0, toCopy) == Scan(View(), i, toCopy) && (i > 0 ==> bytes[i - 1] != NEWLINE)
      {
        var c := buffer[(head + i) % BUF_SIZE];
        assert c == At(View(), i);
        bytes := bytes + [c];
        i := i + 1;
        if c == NEWLINE {
          taken := 1;
          break;
        }
      }
    }

    // The loop of tty_read, run by the foreground task until it returns or has to sleep.
    method ReadAll(count: nat, accept: nat) returns (r: ReadResult)
      requires Valid()
      modifies this
      ensures Valid() && r == ReadLoop(old(View()), count, accept, [])
      ensures r.Asleep? ==> View() == old(View())
      ensures !r.Asleep? ==> r.tty == View()
    {
      var out: seq<char> := [];
      while |out| < count
        invariant Valid() && (out == [] ==> View() == old(View()))
        invariant ReadLoop(View(), count, accept, out) == ReadLoop(old(View()), count, accept, [])
        decreases count - |out|
      {
        ghost var t := View();
        var before := canonLines;
        var bytes := TakeChunk(Min(count - |out|, BOUNCE_SIZE));
        if |out| == 0 && |bytes| == 0 {
          return Asleep;
        } else if |bytes| == 0 {
          break;
        }
        var copied := Min(|bytes|, Max(0, accept - |out|));
        out := out + bytes[..copied];
        if |out| == 0 {
          return Fault(Tty(buffer[..], head, tail, canonLines));
        }
        if copied < |bytes| || canonLines != before {
          return Got(Tty(buffer[..], head, tail, canonLines), out);
        }
      }
      return Got(Tty(buffer[..], head, tail, canonLines), out);
    }
  }
}
