/** The bounded queue between the accepting thread and the worker threads of the example
    server.  Each section under the mutex, from the end of its wait loop to the unlock, is one
    atomic step; `return !stop_flag` of a worker is a step of its own outside the mutex. */
module WorkQueue {
  import opened Options

  const SIZE := 20

  // ---------------------------------------------------------------- the ring

  datatype Ring = Ring(queue: seq<int>, head: int, tail: int)

  predicate Ok(r: Ring) {
    |r.queue| == SIZE && 0 <= r.tail <= SIZE && 0 <= r.head - r.tail <= SIZE
  }

  /** The sockets waiting, oldest first. */
  function Contents(r: Ring): (s: seq<int>)
    requires Ok(r)
    ensures |s| == r.head - r.tail
  {
    seq(r.head - r.tail, k requires 0 <= k => r.queue[(r.tail + k) % SIZE])
  }

  function Push(r: Ring, fd: int): (t: Ring)
    requires Ok(r)
  {
    Ring(r.queue[r.head % SIZE := fd], r.head + 1, r.tail)
  }

  /** Keeps the two counters aligned. */
  function Align(r: Ring): (t: Ring)
    decreases r.tail
  {
    if r.tail > SIZE then Align(Ring(r.queue, r.head - SIZE, r.tail - SIZE)) else r
  }

  function Pop(r: Ring): (t: Ring)
    requires Ok(r)
  {
    Align(Ring(r.queue, r.head, r.tail + 1))
  }

  /** The ring is a FIFO of at most 20 sockets, also across realignment. */
  lemma PushAppends(r: Ring, fd: int)
    requires Ok(r) && r.head - r.tail < SIZE
    ensures Ok(Push(r, fd)) && Contents(Push(r, fd)) == Contents(r) + [fd]
  {
  }

  lemma PopRemovesFirst(r: Ring)
    requires Ok(r) && r.head > r.tail
    ensures Ok(Pop(r)) && [r.queue[r.tail % SIZE]] + Contents(Pop(r)) == Contents(r)
  {
    var t := Pop(r);
    if r.tail == SIZE {
      assert t == Align(Ring(r.queue, r.head - SIZE, 1)) == Ring(r.queue, r.head - SIZE, 1);
    }
    forall k | 0 <= k < r.head - r.tail - 1 ensures Contents(t)[k] == Contents(r)[k + 1] {
      assert (t.tail + k) % SIZE == (r.tail + k + 1) % SIZE;
    }
  }

  // ---------------------------------------------------------------- the threads

  /** What a call of `grab_work` has got by the time it leaves the mutex. */
  datatype Grabbed = Nothing | Socket(index: nat, sock: int)

  datatype Worker = Running | Leaving(got: Grabbed)

  datatype Served = Served(worker: nat, got: Grabbed)

  /** The shared state, the workers (any number of them), and the history: all sockets ever
      put on the queue, all ever taken off, every call of `grab_work` that returned true, and
      what was taken off by calls that returned false. */
  datatype System = System(ring: Ring, stopped: bool, workers: map<nat, Worker>,
                           enqueued: seq<int>, popped: seq<int>, served: seq<Served>, dropped: seq<Grabbed>)

  datatype Step = Process(fd: int) | Grab(w: nat) | Return(w: nat) | Stop

  /** One step, or None while its thread is blocked or busy elsewhere. */
  function Apply(s: System, step: Step): (r: Option<System>)
    requires Ok(s.ring)
    ensures r.Some? ==> Ok(r.value.ring)
  {
    match step
    case Process(fd) =>
      if !s.stopped && s.ring.head - s.ring.tail >= SIZE then None
      else if s.ring.head - s.ring.tail < SIZE then
        Some(s.(ring := Push(s.ring, fd), enqueued := s.enqueued + [fd]))
      else Some(s)
    case Grab(w) =>
      if w !in s.workers || s.workers[w] != Running then None
      else if s.ring.head == s.ring.tail && !s.stopped then None
      else if s.ring.head > s.ring.tail then
        var sock := s.ring.queue[s.ring.tail % SIZE];
        PopRemovesFirst(s.ring);
        Some(s.(ring := Pop(s.ring), popped := s.popped + [sock],
                workers := s.workers[w := Leaving(Socket(|s.popped|, sock))]))
      else Some(s.(workers := s.workers[w := Leaving(Nothing)]))
    case Return(w) =>
      if w !in s.workers || !s.workers[w].Leaving? then None
      else if s.stopped then
        var got := s.workers[w].got;
        Some(s.(workers := s.workers - {w}, dropped := if got.Socket? then s.dropped + [got] else s.dropped))
      else Some(s.(workers := s.workers[w := Running], served := s.served + [Served(w, s.workers[w].got)]))
    case Stop => Some(s.(stopped := true))
  }

  predicate Fresh(s: System, g: Grabbed) {
    g.Socket? && g.index < |s.popped| && s.popped[g.index] == g.sock
  }

  /** Worker `w` is about to return with a socket. */
  predicate Holds(s: System, w: nat) {
    w in s.workers && s.workers[w].Leaving? && s.workers[w].got.Socket?
  }

  /** A call of `grab_work` on its way out has a socket or has seen the stop request; all
      sockets handed out, or about to be, are different ones. */
  ghost predicate Claims(s: System) {
    && (forall w :: w in s.workers && s.workers[w].Leaving? ==>
          Fresh(s, s.workers[w].got) || (s.workers[w].got.Nothing? && s.stopped))
    && (forall i :: 0 <= i < |s.served| ==> Fresh(s, s.served[i].got))
    && (forall i, j :: 0 <= i < j < |s.served| ==> s.served[i].got.index != s.served[j].got.index)
    && (forall i, w :: 0 <= i < |s.served| && Holds(s, w) ==> s.served[i].got.index != s.workers[w].got.index)
    && (forall v, w :: v != w && Holds(s, v) && Holds(s, w) ==> s.workers[v].got.index != s.workers[w].got.index)
  }

  ghost predicate WasServed(s: System, k: nat) {
    exists i :: 0 <= i < |s.served| && s.served[i].got.Socket? && s.served[i].got.index == k
  }

  ghost predicate IsHeld(s: System, k: nat) {
    exists w :: Holds(s, w) && s.workers[w].got.index == k
  }

  ghost predicate WasDropped(s: System, k: nat) {
    exists i :: 0 <= i < |s.dropped| && s.dropped[i].Socket? && s.dropped[i].index == k
  }

  /** Every socket ever taken off was handed out, is about to be, or was dropped, and only one
      of these; nothing is dropped before the stop request. */
  ghost predicate Accounted(s: System) {
    && (forall k :: 0 <= k < |s.popped| ==> WasServed(s, k) || IsHeld(s, k) || WasDropped(s, k))
    && (forall i :: 0 <= i < |s.dropped| ==>
          Fresh(s, s.dropped[i]) && !WasServed(s, s.dropped[i].index) && !IsHeld(s, s.dropped[i].index))
    && (s.dropped != [] ==> s.stopped)
  }

  ghost predicate Inv(s: System) {
    Ok(s.ring) && s.popped + Contents(s.ring) == s.enqueued && Claims(s) && Accounted(s)
  }

  function Initial(ids: set<nat>, queue: seq<int>): (s: System)
    requires |queue| == SIZE
  {
    System(Ring(queue, 0, 0), false, map w | w in ids :: Running, [], [], [], [])
  }

  lemma StartsRight(ids: set<nat>, queue: seq<int>)
    requires |queue| == SIZE
    ensures Inv(Initial(ids, queue))
  {
  }

  lemma ProcessKeeps(s: System, fd: int)
    requires Inv(s) && Apply(s, Process(fd)).Some?
    ensures Inv(Apply(s, Process(fd)).value)
  {
    hide Contents, Push;
    if s.ring.head - s.ring.tail < SIZE {
      PushAppends(s.ring, fd);
      assert s.popped + (Contents(s.ring) + [fd]) == s.enqueued + [fd];
    }
    SameAccount(s, Apply(s, Process(fd)).value);
  }

  lemma SameAccount(s: System, t: System)
    requires Accounted(s) && t.popped == s.popped && t.served == s.served && t.dropped == s.dropped && t.workers == s.workers
    requires s.stopped ==> t.stopped
    ensures Accounted(t)
  {
    forall k | 0 <= k < |t.popped| ensures WasServed(t, k) || IsHeld(t, k) || WasDropped(t, k) {
      assert WasServed(s, k) || IsHeld(s, k) || WasDropped(s, k);
      if IsHeld(s, k) {
        var w :| Holds(s, w) && s.workers[w].got.index == k;
        assert Holds(t, w);
      }
    }
    forall k | IsHeld(t, k) ensures IsHeld(s, k) {
      var w :| Holds(t, w) && t.workers[w].got.index == k;
      assert Holds(s, w);
    }
  }

  lemma GrabClaims(s: System, w: nat)
    requires Inv(s) && Apply(s, Grab(w)).Some?
    ensures Claims(Apply(s, Grab(w)).value)
  {
    hide Accounted, Contents, Pop;
  }

  lemma GrabAccounts(s: System, w: nat)
    requires Inv(s) && Apply(s, Grab(w)).Some?
    ensures Accounted(Apply(s, Grab(w)).value)
  {
    hide Claims, Contents, Pop;
    var t := Apply(s, Grab(w)).value;
    forall k | 0 <= k < |t.popped| ensures WasServed(t, k) || IsHeld(t, k) || WasDropped(t, k) {
      if k == |s.popped| {
        assert Holds(t, w);
      } else if IsHeld(s, k) {
        var v :| Holds(s, v) && s.workers[v].got.index == k;
        assert Holds(t, v);
      } else {
        assert WasServed(s, k) || WasDropped(s, k);
      }
    }
    forall i | 0 <= i < |t.dropped| ensures !IsHeld(t, t.dropped[i].index) {
      assert Fresh(s, s.dropped[i]);
    }
  }

  lemma GrabKeeps(s: System, w: nat)
    requires Inv(s) && Apply(s, Grab(w)).Some?
    ensures Inv(Apply(s, Grab(w)).value)
  {
    GrabClaims(s, w);
    GrabAccounts(s, w);
    hide Contents, Pop, Claims, Accounted;
    if s.ring.head > s.ring.tail {
      PopRemovesFirst(s.ring);
      var sock := s.ring.queue[s.ring.tail % SIZE];
      assert s.popped + [sock] + Contents(Pop(s.ring)) == s.popped + ([sock] + Contents(Pop(s.ring)));
    }
  }

  lemma ReturnClaims(s: System, w: nat)
    requires Inv(s) && Apply(s, Return(w)).Some?
    ensures Claims(Apply(s, Return(w)).value)
  {
    hide Accounted, Contents;
  }

  lemma ReturnAccounts(s: System, w: nat)
    requires Inv(s) && Apply(s, Return(w)).Some?
    ensures Accounted(Apply(s, Return(w)).value)
  {
    hide Contents;
    var t := Apply(s, Return(w)).value;
    forall k | 0 <= k < |t.popped| ensures WasServed(t, k) || IsHeld(t, k) || WasDropped(t, k) {
      if WasServed(s, k) {
        var i :| 0 <= i < |s.served| && s.served[i].got.Socket? && s.served[i].got.index == k;
        assert t.served[i] == s.served[i];
      } else if WasDropped(s, k) {
        var i :| 0 <= i < |s.dropped| && s.dropped[i].Socket? && s.dropped[i].index == k;
        assert t.dropped[i] == s.dropped[i];
      } else {
        var v :| Holds(s, v) && s.workers[v].got.index == k;
        if v != w {
          assert Holds(t, v);
        } else if s.stopped {
          assert t.dropped[|s.dropped|].index == k;
        } else {
          assert t.served[|s.served|].got.index == k;
        }
      }
    }
    forall i | 0 <= i < |t.dropped|
      ensures Fresh(t, t.dropped[i]) && !WasServed(t, t.dropped[i].index) && !IsHeld(t, t.dropped[i].index)
    {
      StaysDropped(s, w, i);
    }
  }

  lemma StaysDropped(s: System, w: nat, i: nat)
    requires Inv(s) && Apply(s, Return(w)).Some? && i < |Apply(s, Return(w)).value.dropped|
    ensures var t := Apply(s, Return(w)).value;
            Fresh(t, t.dropped[i]) && !WasServed(t, t.dropped[i].index) && !IsHeld(t, t.dropped[i].index)
  {
    hide Contents;
    var t := Apply(s, Return(w)).value;
    var k := t.dropped[i].index;
    if i < |s.dropped| {
      assert t.dropped[i] == s.dropped[i];
      assert Fresh(s, s.dropped[i]) && !WasServed(s, k) && !IsHeld(s, k);
    } else {
      assert Holds(s, w) && k == s.workers[w].got.index;
    }
  }

  lemma ReturnKeeps(s: System, w: nat)
    requires Inv(s) && Apply(s, Return(w)).Some?
    ensures Inv(Apply(s, Return(w)).value)
  {
    ReturnClaims(s, w);
    ReturnAccounts(s, w);
    hide Claims, Accounted, Contents;
  }

  lemma StepKeeps(s: System, step: Step)
    requires Inv(s) && Apply(s, step).Some?
    ensures Inv(Apply(s, step).value)
  {
    match step
    case Process(fd) => ProcessKeeps(s, fd);
    case Grab(w) => GrabKeeps(s, w);
    case Return(w) => ReturnKeeps(s, w);
    case Stop => SameAccount(s, Apply(s, Stop).value);
  }

  /** A stop request that falls between the unlock of a call and its return drops exactly the
      socket that call has taken off. */
  lemma StopDrops(s: System, w: nat)
    requires Inv(s) && s.stopped && Holds(s, w)
    ensures var t := Apply(s, Return(w)).value;
            && t.dropped == s.dropped + [s.workers[w].got] && t.served == s.served && !IsHeld(t, s.workers[w].got.index)
            && t.workers == s.workers - {w}
  {
    StaysDropped(s, w, |s.dropped|);
  }

  /** Any interleaving: steps are tried in any order, blocked ones change nothing. */
  function Run(s: System, steps: seq<Step>): (r: System)
    requires Ok(s.ring)
    ensures Ok(r.ring)
    decreases |steps|
  {
    if steps == [] then s
    else
      var t := Apply(s, steps[0]);
      Run(if t.None? then s else t.value, steps[1..])
  }

  lemma {:induction false} RunKeeps(s: System, steps: seq<Step>)
    requires Inv(s)
    ensures Inv(Run(s, steps))
    decreases |steps|
  {
    hide Claims, Contents;
    if steps != [] {
      var t := Apply(s, steps[0]);
      if t.Some? {
        StepKeeps(s, steps[0]);
      }
      RunKeeps(if t.None? then s else t.value, steps[1..]);
    }
  }

  /** Over every interleaving of the producer, any number of workers and the stop request:
      the ring stays in bounds; the sockets taken off, followed by those still queued, are the
      sockets put on, in order; every call of `grab_work` that returned true handed out a
      socket that no other call handed out; and every socket taken off is handed out, about to
      be, or was dropped by a call that a stop request made return false. */
  lemma {:induction false} QueueIsFifo(ids: set<nat>, queue: seq<int>, steps: seq<Step>)
    requires |queue| == SIZE
    ensures var s := Run(Initial(ids, queue), steps);
            && 0 <= s.ring.tail <= SIZE && 0 <= s.ring.head - s.ring.tail <= SIZE
            && s.popped + Contents(s.ring) == s.enqueued
            && (forall i :: 0 <= i < |s.served| ==>
                  s.served[i].got.Socket? && s.served[i].got.index < |s.popped|
                  && s.enqueued[s.served[i].got.index] == s.served[i].got.sock)
            && (forall i, j :: 0 <= i < j < |s.served| ==> s.served[i].got.index != s.served[j].got.index)
            && (forall k :: 0 <= k < |s.popped| ==> WasServed(s, k) || IsHeld(s, k) || WasDropped(s, k))
            && (forall k :: WasDropped(s, k) ==> s.stopped && !WasServed(s, k) && !IsHeld(s, k))
  {
    StartsRight(ids, queue);
    RunKeeps(Initial(ids, queue), steps);
  }

  // ---------------------------------------------------------------- when threads wait, and service

  /** In every reachable state, said by the history alone: a running worker waits exactly while
      every socket ever put on has been taken off; the producer waits exactly while 20 sockets
      are waiting; neither waits after a stop request, and a call on its way out never waits. */
  lemma WhoWaits(s: System, w: nat, fd: int)
    requires Inv(s)
    ensures w in s.workers && s.workers[w] == Running ==>
              (Apply(s, Grab(w)).None? <==> |s.popped| == |s.enqueued| && !s.stopped)
    ensures Apply(s, Process(fd)).None? <==> |s.enqueued| - |s.popped| == 20 && !s.stopped
    ensures w in s.workers && s.workers[w].Leaving? ==> Apply(s, Return(w)).Some?
    ensures 0 <= |s.enqueued| - |s.popped| <= 20
  {
    hide Claims, Accounted;
    assert |s.popped + Contents(s.ring)| == |s.enqueued|;
  }

  /** What a step does to the history: the producer's socket goes to the end, and a worker takes
      the first one not taken off yet. */
  lemma StepHistory(s: System, w: nat, fd: int)
    requires Inv(s) && !s.stopped
    ensures |s.enqueued| - |s.popped| < 20 ==>
              var t := Apply(s, Process(fd));
              t.Some? && t.value == s.(ring := t.value.ring, enqueued := s.enqueued + [fd])
    ensures |s.popped| < |s.enqueued| && w in s.workers && s.workers[w] == Running ==>
              var t, n := Apply(s, Grab(w)), |s.popped|;
              t.Some? && t.value == s.(ring := t.value.ring, popped := s.popped + [s.enqueued[n]],
                                       workers := s.workers[w := Leaving(Socket(n, s.enqueued[n]))])
  {
    hide Claims, Accounted;
    assert |s.popped + Contents(s.ring)| == |s.enqueued|;
    if |s.popped| < |s.enqueued| {
      assert s.enqueued[|s.popped|] == Contents(s.ring)[0];
    }
  }

  function Puts(fds: seq<int>): (steps: seq<Step>) {
    seq(|fds|, i requires 0 <= i < |fds| => Process(fds[i]))
  }

  /** `n` rounds of a worker: take a socket off and come back with it. */
  function Rounds(w: nat, n: nat): (steps: seq<Step>) {
    if n == 0 then [] else [Grab(w), Return(w)] + Rounds(w, n - 1)
  }

  lemma {:induction false} RunFirst(s: System, step: Step, more: seq<Step>)
    requires Ok(s.ring)
    ensures Run(s, [step] + more) == var t := Apply(s, step); Run(if t.None? then s else t.value, more)
  {
    assert ([step] + more)[1..] == more;
  }

  /** Sockets that find room are all put on. */
  lemma {:induction false} AllPut(s: System, fds: seq<int>, more: seq<Step>)
    requires Inv(s) && !s.stopped && |s.enqueued| - |s.popped| + |fds| <= 20
    ensures var t := Run(s, Puts(fds));
            && Inv(t) && t == s.(ring := t.ring, enqueued := s.enqueued + fds)
            && Run(s, Puts(fds) + more) == Run(t, more)
    decreases |fds|
  {
    hide Inv, Apply;
    InvOk(s);
    if fds == [] {
      assert Puts(fds) + more == more && s.enqueued + fds == s.enqueued;
    } else {
      assert Puts(fds) == [Process(fds[0])] + Puts(fds[1..]);
      assert Puts(fds) + more == [Process(fds[0])] + (Puts(fds[1..]) + more);
      StepHistory(s, 0, fds[0]);
      var t := Apply(s, Process(fds[0])).value;
      StepKeeps(s, Process(fds[0]));
      RunFirst(s, Process(fds[0]), Puts(fds[1..]));
      RunFirst(s, Process(fds[0]), Puts(fds[1..]) + more);
      AllPut(t, fds[1..], more);
      assert s.enqueued + [fds[0]] + fds[1..] == s.enqueued + fds;
    }
  }

  lemma InvOk(s: System)
    requires Inv(s)
    ensures Ok(s.ring) && |s.popped| <= |s.enqueued|
  {
    hide Claims, Accounted;
    assert |s.popped + Contents(s.ring)| == |s.enqueued|;
  }

  /** One round serves the oldest waiting socket. */
  lemma OneRound(s: System, w: nat, more: seq<Step>) returns (t: System)
    requires Inv(s) && !s.stopped && w in s.workers && s.workers[w] == Running && |s.popped| < |s.enqueued|
    ensures var n := |s.popped|;
            && Inv(t) && t == s.(ring := t.ring, popped := s.popped + [s.enqueued[n]],
                                 served := s.served + [Served(w, Socket(n, s.enqueued[n]))])
            && Run(s, [Grab(w), Return(w)] + more) == Run(t, more)
  {
    hide Inv;
    InvOk(s);
    StepHistory(s, w, 0);
    StepKeeps(s, Grab(w));
    var u := Apply(s, Grab(w)).value;
    InvOk(u);
    StepKeeps(u, Return(w));
    t := Apply(u, Return(w)).value;
    assert t.workers == s.workers;
    assert [Grab(w), Return(w)] + more == [Grab(w)] + ([Return(w)] + more);
    RunFirst(s, Grab(w), [Return(w)] + more);
    RunFirst(u, Return(w), more);
  }

  function ServedAll(w: nat, socks: seq<int>, from: nat): (r: seq<Served>) {
    seq(|socks|, i requires 0 <= i < |socks| => Served(w, Socket(from + i, socks[i])))
  }

  lemma {:induction false} RoundsServe(s: System, w: nat, n: nat)
    requires Inv(s) && !s.stopped && w in s.workers && s.workers[w] == Running && |s.popped| + n <= |s.enqueued|
    ensures var t, m := Run(s, Rounds(w, n)), |s.popped|;
            && t == s.(ring := t.ring, popped := s.popped + s.enqueued[m..m + n],
                       served := s.served + ServedAll(w, s.enqueued[m..m + n], m))
    decreases n
  {
    hide Inv, Apply;
    InvOk(s);
    var m := |s.popped|;
    if n == 0 {
      assert s.enqueued[m..m] == [] && s.popped + [] == s.popped && s.served + [] == s.served;
    } else {
      var t := OneRound(s, w, Rounds(w, n - 1));
      RoundsServe(t, w, n - 1);
      var all, rest := s.enqueued[m..m + n], s.enqueued[m + 1..m + n];
      assert all == [s.enqueued[m]] + rest;
      assert ServedAll(w, all, m) == [Served(w, Socket(m, s.enqueued[m]))] + ServedAll(w, rest, m + 1);
      assert t.popped + rest == s.popped + all;
      assert t.served + ServedAll(w, rest, m + 1) == s.served + ServedAll(w, all, m);
    }
  }

  /** Service: from any reachable state without a stop in which no socket waits, up to 20 new
      sockets and as many rounds of one running worker serve exactly these sockets, in order. */
  lemma {:induction false} AllServed(s: System, w: nat, fds: seq<int>)
    requires Inv(s) && !s.stopped && w in s.workers && s.workers[w] == Running
    requires |s.popped| == |s.enqueued| && |fds| <= 20
    ensures var t := Run(s, Puts(fds) + Rounds(w, |fds|));
            && t.served == s.served + ServedAll(w, fds, |s.popped|)
            && t.enqueued == s.enqueued + fds && |t.popped| == |t.enqueued|
  {
    hide Inv, Run, Apply;
    InvOk(s);
    AllPut(s, fds, Rounds(w, |fds|));
    var u := Run(s, Puts(fds));
    RoundsServe(u, w, |fds|);
    assert u.enqueued[|s.popped|..|s.popped| + |fds|] == fds;
  }

  // ---------------------------------------------------------------- the C code

  class Queue {
    const queue: array<int>
    var head: int
    var tail: int

    constructor ()
      ensures fresh(queue) && queue.Length == SIZE && head == 0 && tail == 0
    {
      queue := new int[SIZE];
      head, tail := 0, 0;
    }

    function View(): (r: Ring)
      reads this, queue
    {
      Ring(queue[..], head, tail)
    }

    /** `grab_work` under the mutex: it waits while its loop condition holds, and otherwise is
        the step `Grab` of its worker. */
    method GrabWork(stopFlag: bool) returns (waits: bool, got: bool, sock: int)
      requires Ok(View())
      modifies this
      ensures Ok(View()) && (waits <==> old(Contents(View())) == [] && !stopFlag) && (got <==> old(Contents(View())) != [])
      ensures got ==> [sock] + Contents(View()) == old(Contents(View()))
      ensures !got ==> View() == old(View())
      ensures forall s: System, w: nat ::
                s.ring == old(View()) && s.stopped == stopFlag && w in s.workers && s.workers[w] == Running ==>
                  Apply(s, Grab(w)) ==
                  if waits then None
                  else Some(s.(ring := View(), popped := if got then s.popped + [sock] else s.popped,
                               workers := s.workers[w := Leaving(if got then Socket(|s.popped|, sock) else Nothing)]))
    {
      waits, got, sock := false, false, 0;
      if head == tail && !stopFlag {
        return true, false, 0;
      }
      if head > tail {
        ghost var r := View();
        got, sock := true, queue[tail % SIZE];
        tail := tail + 1;
        while tail > SIZE
          invariant Align(View()) == Pop(r) && 0 < tail
        {
          tail := tail - SIZE;
          head := head - SIZE;
        }
        PopRemovesFirst(r);
      }
    }

    /** `process_socket` under the mutex: it waits while its loop condition holds, and otherwise
        is the step `Process`. */
    method ProcessSocket(fd: int, stopFlag: bool) returns (waits: bool, put: bool)
      requires Ok(View())
      modifies this, queue
      ensures Ok(View()) && (waits <==> |old(Contents(View()))| == 20 && !stopFlag) && (put <==> |old(Contents(View()))| < 20)
      ensures put ==> Contents(View()) == old(Contents(View())) + [fd]
      ensures !put ==> View() == old(View())
      ensures forall s: System :: s.ring == old(View()) && s.stopped == stopFlag ==>
                Apply(s, Process(fd)) ==
                if waits then None
                else Some(s.(ring := View(), enqueued := if put then s.enqueued + [fd] else s.enqueued))
    {
      waits, put := false, false;
      if !stopFlag && head - tail >= SIZE {
        return true, false;
      }
      if head - tail < SIZE {
        PushAppends(View(), fd);
        queue[head % SIZE] := fd;
        head := head + 1;
        put := true;
      }
    }
  }
}
