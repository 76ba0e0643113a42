/** What holds in every run of the reactor, from the initial state, for every interleaving of
threads, every answer of the kernel and every allocation. */
module ReactorTheorems {
  import opened Bits
  import opened ConnectionSteps
  import opened Links
  import opened Reactor
  import L = EventLoops
  import R = Ring
  import E = Epoll

  ghost predicate Reachable(s: Sys) {
    exists ms: seq<Move> :: Reactor.Legal(Initial, ms) && Reactor.Run(Initial, ms) == s
  }

  lemma Reached(s: Sys)
    requires Reachable(s)
    ensures Inv(s)
  {
    var ms :| Reactor.Legal(Initial, ms) && Reactor.Run(Initial, ms) == s;
    InvRun(Initial, ms);
  }

  /** The scheduling laws hold in the composed system: no callback waits behind a loop thread that
      blocks unannounced, and both channels are run in order and emptied by each iteration. */
  lemma SchedulingHolds(s: Sys)
    requires Reachable(s)
    ensures s.loop.phase.Polling? && s.loop.pending != [] ==> s.loop.counter > 0 || s.loop.lock == L.Pushed
    ensures s.loop.foreignPosted == s.loop.foreignRun + s.loop.batch + s.loop.pending
    ensures s.loop.localPosted == s.loop.localDone + s.loop.queue
    ensures s.loop.phase.Polling? && s.loop.iterated ==> s.loop.batch == [] && s.loop.queue == []
  {
    Reached(s);
  }

  /** What waited on either channel while the loop thread handled events has run when it polls next. */
  lemma WaitingRunsBeforePolling(s: Sys, ms: seq<Move>)
    requires Reachable(s) && s.loop.phase.Events? && Reactor.Legal(s, ms)
    requires Reactor.Run(s, ms).loop.phase.Polling?
    ensures s.loop.foreignPosted <= Reactor.Run(s, ms).loop.foreignRun
    ensures s.loop.localPosted <= Reactor.Run(s, ms).loop.localDone
  {
    Reached(s);
    ServingRun(s, ms, s.loop.foreignPosted, s.loop.localPosted);
    L.Served(Reactor.Run(s, ms).loop, s.loop.foreignPosted, s.loop.localPosted);
  }

  lemma {:induction false} ServingRun(s: Sys, ms: seq<Move>, foreign: seq<Task>, local: seq<Task>)
    requires L.Serving(s.loop, foreign, local) && Reactor.Legal(s, ms)
    ensures L.Serving(Reactor.Run(s, ms).loop, foreign, local)
    decreases |ms|
  {
    if ms != [] {
      var m := ms[0];
      var l := L.Apply(s.loop, LoopMove(s, m));
      L.ServingStep(s.loop, LoopMove(s, m), foreign, local);
      if OnConn(m) && Out(s.link, ActOf(s, m)).Done? {
        L.ServingStep(l, L.Post(Out(s.link, ActOf(s, m)).posted), foreign, local);
      }
      ServingRun(Reactor.Apply(s, m), ms[1..], foreign, local);
    }
  }

  // ---------- the stream ----------

  /** End to end: until a force_close runs, and as long as no write ran on a full and aligned
      buffer, the bytes on the wire followed by the buffered bytes are the data of the writes that
      ran, in the order they ran, whatever partial counts the kernel returned. */
  lemma EndToEnd(s: Sys)
    requires Reachable(s)
    ensures !s.link.forced ==> |s.link.wire| + |s.link.conn.Queued()| == |LiveBytes(s.ran)|
    ensures !s.link.forced && !s.link.lossy ==> s.link.wire + s.link.conn.Queued() == LiveBytes(s.ran)
    ensures s.link.conn.state != Closed ==> forall x | x in s.ran :: x.live
  {
    Reached(s);
  }

  /** The run order takes local tasks in call order and foreign tasks in lock order, and copying
      writes run with the bytes they were called with. */
  lemma RunOrder(s: Sys)
    requires Reachable(s)
    ensures Tasks(s.ran, true) <= s.loop.localPosted
    ensures Tasks(s.ran, false) <= s.loop.foreignPosted
    ensures forall x | x in s.ran && x.t.Write? :: x.payload == x.t.data
  {
    Reached(s);
    BegunArePosted(s.loop);
  }

  lemma BegunArePosted(l: L.Loop<Task>)
    requires L.Fifo(l)
    ensures l.foreignRun <= l.foreignPosted && l.localDone + Current(l) <= l.localPosted
  {
    assert l.foreignPosted == l.foreignRun + (l.batch + l.pending);
    if Current(l) != [] {
      assert l.queue == [l.queue[0]] + l.queue[1..];
      assert l.localPosted == (l.localDone + [l.queue[0]]) + l.queue[1..];
    }
  }

  /** The tasks the loop thread is about to run: of its own queue, or of the swapped batch. */
  function Waiting(s: Sys, local: bool): seq<Task> {
    if local then (if s.loop.phase.Draining? then s.loop.queue else [])
    else (if s.loop.phase.Batch? then s.loop.batch else [])
  }

  predicate WriteIsNext(s: Sys, local: bool, payload: seq<byte>) {
    && s.health == Fine && Waiting(s, local) != []
    && IsWrite(Waiting(s, local)[0]) && PayloadOf(Waiting(s, local)[0], payload)
  }

  /** The state once the next write of the channel has run. */
  function NextWrite(s: Sys, local: bool, payload: seq<byte>, junk: R.Garbage): Sys
    requires WriteIsNext(s, local, payload) && s.link.conn.state != New
  {
    Reactor.Apply(s, if local then RunFront(payload, junk) else RunBatch(payload, junk))
  }

  lemma NextWriteLink(s: Sys, local: bool, payload: seq<byte>, junk: R.Garbage)
    requires WriteIsNext(s, local, payload) && s.link.conn.state != New
    ensures var a, s' := Ran(Waiting(s, local)[0], payload, junk), NextWrite(s, local, payload, junk);
            if Out(s.link, a).Done? then s'.health == Fine && s'.link == Links.Apply(s.link, a)
            else s'.health != Fine
  {
  }

  /** From any reachable state in which the stream is intact, the next write of either channel leaves
      it intact for every allocation exactly when the bytes fit and the buffer is not full and aligned. */
  lemma StreamBreaksExactly(s: Sys, local: bool, payload: seq<byte>)
    requires Reachable(s) && WriteIsNext(s, local, payload) && s.link.conn.state != Closed && Intact(s.link)
    ensures s.link.conn.state != New
    ensures (forall junk: R.Garbage :: KeepsStream(NextWrite(s, local, payload, junk)))
            <==> |s.link.conn.Queued()| + |payload| <= HALF && WriteAppends(s.link.conn, |payload|)
  {
    Reached(s);
    assert Waiting(s, local)[0] in Waiting(s, local);
    var c := s.link.conn;
    forall junk: R.Garbage
      ensures KeepsStream(NextWrite(s, local, payload, junk)) <==>
              |c.Queued()| + |payload| <= HALF && DoWrite(c, payload, junk).conn.Queued() == c.Queued() + payload
    {
      IntactAfter(s, local, payload, junk);
    }
    if |c.Queued()| + |payload| <= HALF {
      DoWriteAppendsExactly(c, payload);
    } else {
      assert !KeepsStream(NextWrite(s, local, payload, R.Holding([])));
    }
  }

  predicate KeepsStream(s: Sys) {
    s.health == Fine && Intact(s.link)
  }

  lemma IntactAfter(s: Sys, local: bool, payload: seq<byte>, junk: R.Garbage)
    requires WriteIsNext(s, local, payload) && Stream(s.link) && LifeCycle(s.link) && Intact(s.link)
    requires s.link.conn.state != Closed && s.link.conn.state != New
    ensures var c := s.link.conn;
            KeepsStream(NextWrite(s, local, payload, junk)) <==>
            |c.Queued()| + |payload| <= HALF && DoWrite(c, payload, junk).conn.Queued() == c.Queued() + payload
  {
    var a := Ran(Waiting(s, local)[0], payload, junk);
    NextWriteLink(s, local, payload, junk);
    if Out(s.link, a).Done? {
      IntactExactly(s.link, a);
    }
  }

  /** Every write of the run that went to the buffer appended its bytes there. */
  predicate EveryWriteAppends(s: Sys, ms: seq<Move>)
    requires Reactor.Legal(s, ms)
    decreases |ms|
  {
    ms == [] ||
    var s' := Reactor.Apply(s, ms[0]);
    && (OnConn(ms[0]) && LiveWrite(s.link, ActOf(s, ms[0])) && s'.health == Fine ==>
          s'.link.conn.Queued() == s.link.conn.Queued() + ActOf(s, ms[0]).payload)
    && EveryWriteAppends(s', ms[1..])
  }

  /** Over every run without a force_close, the stream ends intact exactly when it began intact and
      every write appended its bytes: a broken stream is never mended. */
  lemma IntactRun(s: Sys, ms: seq<Move>)
    requires Reachable(s) && Reactor.Legal(s, ms) && !Reactor.Run(s, ms).link.forced
    ensures Intact(Reactor.Run(s, ms).link) <==> Intact(s.link) && EveryWriteAppends(s, ms)
  {
    Reached(s);
    IntactFrom(s, ms);
  }

  lemma {:induction false} IntactFrom(s: Sys, ms: seq<Move>)
    requires Inv(s) && Reactor.Legal(s, ms) && !Reactor.Run(s, ms).link.forced
    ensures !s.link.forced
    ensures Intact(Reactor.Run(s, ms).link) <==> Intact(s.link) && EveryWriteAppends(s, ms)
    decreases |ms|
  {
    if ms != [] {
      InvStep(s, ms[0]);
      IntactFrom(Reactor.Apply(s, ms[0]), ms[1..]);
      if OnConn(ms[0]) && Out(s.link, ActOf(s, ms[0])).Done? {
        IntactExactly(s.link, ActOf(s, ms[0]));
      }
    }
  }

  // ---------- the life of the connection ----------

  /** The state never moves back, so Closed is absorbing. */
  lemma NeverBackwards(s: Sys, ms: seq<Move>)
    requires Reachable(s) && Reactor.Legal(s, ms)
    ensures Rank(Reactor.Run(s, ms).link.conn.state) >= Rank(s.link.conn.state)
  {
    Reached(s);
    RankRun(s, ms);
  }

  lemma {:induction false} RankRun(s: Sys, ms: seq<Move>)
    requires Inv(s) && Reactor.Legal(s, ms)
    ensures Rank(Reactor.Run(s, ms).link.conn.state) >= Rank(s.link.conn.state)
    decreases |ms|
  {
    if ms != [] {
      LinkStep(s, ms[0]);
      InvStep(s, ms[0]);
      RankRun(Reactor.Apply(s, ms[0]), ms[1..]);
    }
  }

  /** Failures and the peer's end of stream take effect within the iteration: when the loop polls
      again, a connection that failed is Closed, and one whose peer ended is Closed or Disconnecting. */
  lemma SettledBeforePolling(s: Sys)
    requires Reachable(s) && s.loop.phase.Polling? && s.loop.iterated
    ensures s.link.doomed ==> s.link.conn.state == Closed
    ensures s.link.closing ==> Rank(s.link.conn.state) >= 2
  {
    Reached(s);
  }

  /** The moves in which a handler meets a failure of the connection. */
  predicate Fails(m: Move) {
    m.ConnFailed? || (m.ConnRead? && m.n < 0) || (m.ConnWrite? && m.count <= 0)
  }

  /** Over every run: a failure met by a handler has closed the connection when the loop polls next;
      the peer's end of stream has, too, or it is Disconnecting, and reading is never asked for again. */
  lemma FailureCloses(s: Sys, m: Move, ms: seq<Move>)
    requires Reachable(s) && Reactor.Enabled(s, m) && Reactor.Legal(Reactor.Apply(s, m), ms)
    requires Reactor.Run(Reactor.Apply(s, m), ms).loop.phase.Polling?
    ensures var c := Reactor.Run(Reactor.Apply(s, m), ms).link.conn;
            && (Fails(m) ==> c.state == Closed)
            && (m == ConnRead(0) ==> Rank(c.state) >= 2 && E.IN !in c.source.interest)
  {
    if Fails(m) || m == ConnRead(0) {
      Reached(s);
      InvStep(s, m);
      var s' := Reactor.Apply(s, m);
      Noted(s, m);
      if s'.health == Fine {
        LastingRun(s', ms);
        InvRun(s', ms);
        ServingRun(s', ms, [], []);
      }
    }
  }

  lemma Noted(s: Sys, m: Move)
    requires Inv(s) && Reactor.Enabled(s, m) && (Fails(m) || m == ConnRead(0))
    ensures var s' := Reactor.Apply(s, m);
            && s'.loop.phase.Events? && s'.link.conn.state != New
            && (s'.health == Fine && Fails(m) ==> s'.link.doomed)
            && (s'.health == Fine && m == ConnRead(0) ==> s'.link.closing && E.IN !in s'.link.conn.source.interest)
  {
    var a := ActOf(s, m);
    NotedActed(s, L.Apply(s.loop, LoopMove(s, m)), a);
    if Out(s.link, a).Done? {
      RecordsExactly(s.link, a);
      if m == ConnRead(0) {
        AsksExactly(s.link, a);
      }
    }
  }

  lemma NotedActed(s: Sys, l: L.Loop<Task>, a: Act)
    requires Good(s.link) && Allowed(s.link, a) && L.CallbackRuns(l) && s.link.conn.state != New
    requires s.loop.phase.Events? && l.phase.Events?
    ensures var s' := Acted(s, l, a);
            && s'.loop.phase.Events? && s'.link.conn.state != New
            && (s'.health == Fine ==> Out(s.link, a).Done? && s'.link == Links.Apply(s.link, a))
  {
    if Out(s.link, a).Done? {
      LifeCycleStep(s.link, a);
    }
  }

  /** What a handler posted is not forgotten, and reading once given up stays so. */
  predicate Lasts(k: Link, k': Link) {
    && (k.doomed ==> k'.doomed) && (k.closing ==> k'.closing)
    && (E.IN !in k.conn.source.interest ==> E.IN !in k'.conn.source.interest)
  }

  lemma LastingAct(k: Link, a: Act)
    requires k.conn.state != New && Allowed(k, a) && Out(k, a).Done?
    ensures Lasts(k, Links.Apply(k, a))
  {
  }

  lemma {:induction false} LastingRun(s: Sys, ms: seq<Move>)
    requires Inv(s) && s.link.conn.state != New && Reactor.Legal(s, ms)
    ensures Lasts(s.link, Reactor.Run(s, ms).link)
    decreases |ms|
  {
    if ms != [] {
      InvStep(s, ms[0]);
      LinkStep(s, ms[0]);
      if OnConn(ms[0]) && Out(s.link, ActOf(s, ms[0])).Done? {
        LastingAct(s.link, ActOf(s, ms[0]));
      }
      LastingRun(Reactor.Apply(s, ms[0]), ms[1..]);
    }
  }

  /** Nothing blocks the drain: in every reachable state the task at the front can run. */
  lemma FrontCanRun(s: Sys, junk: R.Garbage) returns (payload: seq<byte>)
    requires Reachable(s) && s.health == Fine && s.loop.phase.Draining? && s.loop.queue != []
    ensures Reactor.Enabled(s, RunFront(payload, junk))
  {
    Reached(s);
    var t := s.loop.queue[0];
    assert t in s.loop.queue;
    payload := if t.Write? then t.data else [];
  }

  /** A move of the loop thread, or of the thread that holds its lock. */
  predicate OfLoop(m: Move) {
    match m
    case Sched(lm) => !lm.Push? && !lm.Stop? && !lm.PollFails?
    case Call(_) => false
    case Accept => false
    case _ => true
  }

  /** No deadlock: in every reachable state from which the loop thread has not left `run`, it can go on,
      or the poster that holds the lock it waits for can. */
  lemma NeverStuck(s: Sys, junk: R.Garbage) returns (m: Move)
    requires Reachable(s) && s.health == Fine && !s.loop.phase.Stopped?
    ensures OfLoop(m) && Reactor.Enabled(s, m)
  {
    Reached(s);
    match s.loop.phase
    case Polling => m := Sched(if s.loop.running then L.Poll(false, {}) else L.Leave);
    case Events(_, _) => m := NextEvent(s);
    case Batch => m := NextOfBatch(s, junk);
    case Draining =>
      if s.loop.queue == [] {
        m := Sched(L.QueueDone);
      } else {
        var payload := FrontCanRun(s, junk);
        m := RunFront(payload, junk);
      }
    case InTask => m := Sched(L.PopFront);
  }

  lemma NextOfBatch(s: Sys, junk: R.Garbage) returns (m: Move)
    requires Runnable(s) && s.health == Fine && s.loop.phase.Batch?
    ensures OfLoop(m) && Reactor.Enabled(s, m)
  {
    if s.loop.batch == [] {
      m := Sched(L.BatchDone);
    } else {
      var t := s.loop.batch[0];
      assert t in s.loop.batch;
      m := RunBatch(if t.Write? then t.data else [], junk);
    }
  }

  lemma NextEvent(s: Sys) returns (m: Move)
    requires Inv(s) && s.health == Fine && s.loop.phase.Events?
    ensures OfLoop(m) && Reactor.Enabled(s, m)
  {
    var ready := s.loop.phase.ready;
    if s.loop.phase.notify {
      m := Sched(L.DrainEventFd);
    } else if E.ERR in ready {
      m := ConnFailed;
    } else if E.IN in ready {
      m := ConnRead(1);
    } else if E.OUT in ready {
      m := ConnWrite(0);
    } else if E.HUP in ready {
      m := HangUp;
    } else {
      forall e: E.Event ensures e !in ready {
        assert e.IN? || e.OUT? || e.ERR? || e.HUP?;
      }
      assert ready == {};
      m := Sched(if s.loop.lock == L.Free then L.Swap else if s.loop.lock == L.Pushed then L.Notify else L.Unlock);
    }
  }

  /** A graceful close drops nothing: in a Closed state reached without a force_close, every
      accepted byte has reached the wire. */
  lemma GracefulCloseDropsNothing(s: Sys)
    requires Reachable(s) && s.link.conn.state == Closed && !s.link.forced
    ensures |s.link.wire| == |LiveBytes(s.ran)|
    ensures !s.link.lossy ==> s.link.wire == LiveBytes(s.ran)
  {
    Reached(s);
    EmptyIsNoBytes(s.link.conn);
    assert s.link.wire + [] == s.link.wire;
  }

  /** The closed callback is reached once when the connection closes and once more for each close
      task that runs after that, so it is reached at most once exactly when there is none. */
  lemma ClosedCallbackCount(s: Sys)
    requires Reachable(s)
    ensures s.link.closedCalls == (if s.link.conn.state == Closed then 1 else 0) + s.link.lateCloses
    ensures s.link.conn.state == Closed ==> (s.link.closedCalls == 1 <==> s.link.lateCloses == 0)
  {
    Reached(s);
  }

  // ---------- interest in writing ----------

  /** Until a force_close the kernel watches for writability exactly when the source asks for it, and
      after one the source does not ask. Unless a write of nothing ran or a force_close cut the buffer
      off, both agree and there are bytes to write; while receiving with no force_close in the task
      queue, bytes to write mean that the source asks. */
  lemma WriteInterest(s: Sys)
    requires Reachable(s)
    ensures if s.link.forced then !s.link.conn.WantsOut()
            else KernelWantsOut(s.link.conn) <==> s.link.conn.WantsOut()
    ensures !s.link.cutOff && !s.link.emptyWrite && KernelWantsOut(s.link.conn) ==>
              s.link.conn.WantsOut() && s.link.conn.Queued() != []
    ensures s.link.conn.state == Receiving && ForceClose !in s.loop.queue && s.link.conn.Queued() != [] ==>
              s.link.conn.WantsOut()
  {
    Reached(s);
    EmptyIsNoBytes(s.link.conn);
  }

  predicate Exposing(s: Sys, m: Move)
    requires Reactor.Enabled(s, m)
  {
    OnConn(m) && Exposes(s.link, ActOf(s, m))
  }

  predicate Covering(s: Sys, m: Move)
    requires Reactor.Enabled(s, m)
  {
    OnConn(m) && Covers(s.link, ActOf(s, m))
  }

  lemma ExposedMove(s: Sys, m: Move)
    requires Inv(s) && Reactor.Enabled(s, m)
    ensures Exposed(Reactor.Apply(s, m).link) <==> Exposing(s, m) || (Exposed(s.link) && !Covering(s, m))
  {
    if OnConn(m) {
      var a := ActOf(s, m);
      if Out(s.link, a).Done? {
        ExposedExactly(s.link, a);
      } else {
        FaultsExactly(s.link, a);
        EmptyIsNoBytes(s.link.conn);
      }
    }
  }

  /** No move of the run covers the connection. */
  predicate NoneCovers(s: Sys, ms: seq<Move>)
    requires Reactor.Legal(s, ms)
    decreases |ms|
  {
    ms == [] || (!Covering(s, ms[0]) && NoneCovers(Reactor.Apply(s, ms[0]), ms[1..]))
  }

  /** Some move of the run exposes the connection and none after it covers it. */
  predicate EndsExposed(s: Sys, ms: seq<Move>)
    requires Reactor.Legal(s, ms)
    decreases |ms|
  {
    ms != [] &&
    var s' := Reactor.Apply(s, ms[0]);
    (Exposing(s, ms[0]) && NoneCovers(s', ms[1..])) || EndsExposed(s', ms[1..])
  }

  /** Over every run, the kernel watches for writability with nothing to write exactly when an empty
      write met an empty buffer or a force_close ran while the kernel was watching, and since then no
      bytes were written, no error was handled and no end of stream was read after a force_close. */
  lemma InterestBreaksExactly(ms: seq<Move>)
    requires Reactor.Legal(Initial, ms)
    ensures var c := Reactor.Run(Initial, ms).link.conn;
            (KernelWantsOut(c) ==> c.Queued() != []) <==> !EndsExposed(Initial, ms)
  {
    ExposedRun(Initial, ms);
    EmptyIsNoBytes(Reactor.Run(Initial, ms).link.conn);
  }

  lemma {:induction false} ExposedRun(s: Sys, ms: seq<Move>)
    requires Inv(s) && Reactor.Legal(s, ms)
    ensures Exposed(Reactor.Run(s, ms).link) <==> EndsExposed(s, ms) || (Exposed(s.link) && NoneCovers(s, ms))
    decreases |ms|
  {
    if ms != [] {
      ExposedMove(s, ms[0]);
      InvStep(s, ms[0]);
      ExposedRun(Reactor.Apply(s, ms[0]), ms[1..]);
    }
  }

  /** Each successful write of the handler sends a prefix of the buffered bytes and shortens them. */
  lemma WriteProgress(s: Sys, count: int)
    requires Reactor.Enabled(s, ConnWrite(count)) && count > 0
    ensures var s' := Reactor.Apply(s, ConnWrite(count));
            && s'.health == Fine
            && |s'.link.conn.Queued()| == |s.link.conn.Queued()| - count
            && s'.link.wire == s.link.wire + s.link.conn.Queued()[..count]
  {
    EmptyIsNoBytes(s.link.conn);
    HandleWriteSends(s.link.conn, count);
    R.OfferedIsContents(s.link.conn.buffer.ring);
  }

  // ---------- where a run stops ----------

  /** A null buffer is met only if no write had run; the assertion of `handle_write` fails only after
      an empty write onto nothing or a force_close while the kernel was watching for writability; the
      limit of 2^31 bytes is never met by a single write. */
  predicate Explained(s: Sys) {
    match s.health
    case Fine => true
    case Crashed(NullBuffer) => s.link.writes == 0
    case Crashed(EmptyBuffer) => s.link.emptyWrite || s.link.cutOff
    case Crashed(BufferLimit) => s.link.conn.Queued() != []
  }

  lemma ExplainedStep(s: Sys, m: Move)
    requires Inv(s) && Reactor.Enabled(s, m)
    ensures Explained(Reactor.Apply(s, m))
  {
    if OnConn(m) {
      FaultsExactly(s.link, ActOf(s, m));
    }
  }

  lemma CrashExplained(s: Sys)
    requires Reachable(s)
    ensures Explained(s)
  {
    var ms :| Reactor.Legal(Initial, ms) && Reactor.Run(Initial, ms) == s;
    CrashesExplained(Initial, ms);
  }

  lemma {:induction false} CrashesExplained(s: Sys, ms: seq<Move>)
    requires Inv(s) && Explained(s) && Reactor.Legal(s, ms)
    ensures Explained(Reactor.Run(s, ms))
    decreases |ms|
  {
    if ms != [] {
      ExplainedStep(s, ms[0]);
      InvStep(s, ms[0]);
      CrashesExplained(Reactor.Apply(s, ms[0]), ms[1..]);
    }
  }

  /** A task meets the null buffer exactly when it is a force_close and no write has gone to the buffer
      before; it meets the limit exactly when it is a write that would go beyond it. */
  lemma TaskStopsExactly(s: Sys, m: Move)
    requires Reachable(s) && Reactor.Enabled(s, m)
    ensures Reactor.Apply(s, m).health == Crashed(NullBuffer) <==>
              OnConn(m) && Forces(ActOf(s, m)) && forall x | x in s.ran :: !TookBytes(x)
    ensures Reactor.Apply(s, m).health == Crashed(BufferLimit) <==>
              OnConn(m) && LiveWrite(s.link, ActOf(s, m))
              && |s.link.conn.Queued()| + |ActOf(s, m).payload| > HALF
  {
    Reached(s);
  }

  predicate Polls(m: Move) {
    m.Sched? && m.lm.Poll?
  }

  /** Moves up to the next poll, the first of which may be one. */
  predicate OneIteration(ms: seq<Move>) {
    forall i | 0 < i < |ms| :: !Polls(ms[i])
  }

  /** At a loop head, the coming iteration can fail the assertion of `handle_write` exactly when the
      kernel watches for writability and nothing is buffered. */
  lemma AssertionFailsExactly(s: Sys)
    requires Reachable(s) && s.health == Fine && s.loop.phase.Polling? && s.loop.running
    ensures (exists ms :: OneIteration(ms) && Reactor.Legal(s, ms)
                          && Reactor.Run(s, ms).health == Crashed(EmptyBuffer))
            <==> KernelWantsOut(s.link.conn) && s.link.conn.Queued() == []
  {
    Reached(s);
    EmptyIsNoBytes(s.link.conn);
    if Exposed(s.link) {
      FailingPoll(s);
    } else {
      forall ms | OneIteration(ms) && Reactor.Legal(s, ms)
        ensures Reactor.Run(s, ms).health != Crashed(EmptyBuffer)
      {
        if ms != [] {
          BackedStep(s, ms[0]);
          InvStep(s, ms[0]);
          BackedRun(Reactor.Apply(s, ms[0]), ms[1..]);
        }
      }
    }
  }

  lemma FailingPoll(s: Sys)
    requires Inv(s) && s.health == Fine && s.loop.phase.Polling? && s.loop.running && Exposed(s.link)
    ensures exists ms :: OneIteration(ms) && Reactor.Legal(s, ms) && Reactor.Run(s, ms).health == Crashed(EmptyBuffer)
  {
    var poll, write := Sched(L.Poll(false, {E.OUT})), ConnWrite(0);
    Reactor.RunExtend(s, [], poll);
    FailingWrite(Reactor.Apply(s, poll), write);
    Reactor.RunExtend(s, [] + [poll], write);
  }

  lemma FailingWrite(s: Sys, write: Move)
    requires s.health == Fine && s.loop.phase == L.Events(false, {E.OUT}) && write == ConnWrite(0)
    requires s.link.conn.state != New && s.link.conn.buffer.Buffer? && !s.link.conn.HasBytesToWrite()
    ensures Reactor.Enabled(s, write) && Reactor.Apply(s, write).health == Crashed(EmptyBuffer)
  {
  }

  /** A write readiness still to be handled finds bytes to write. */
  predicate Backed(s: Sys) {
    && (Ready(s.loop, E.OUT) ==> s.link.conn.HasBytesToWrite())
    && s.health != Crashed(EmptyBuffer)
  }

  lemma BackedStep(s: Sys, m: Move)
    requires Inv(s) && Backed(s) && Reactor.Enabled(s, m) && (Polls(m) ==> !Exposed(s.link))
    ensures Backed(Reactor.Apply(s, m))
  {
    if OnConn(m) {
      BackedActed(s, L.Apply(s.loop, LoopMove(s, m)), ActOf(s, m));
    } else {
      BackedSched(s, LoopMove(s, m));
    }
  }

  lemma BackedSched(s: Sys, lm: L.Move<Task>)
    requires Backed(s) && L.Enabled(s.loop, lm)
    requires lm.Poll? ==> Scheduling(s.link.conn, lm) && !Exposed(s.link)
    ensures Backed(s.(loop := L.Apply(s.loop, lm)))
  {
  }

  lemma BackedActed(s: Sys, l: L.Loop<Task>, a: Act)
    requires Backed(s) && LifeCycle(s.link) && Allowed(s.link, a) && L.CallbackRuns(l)
    requires a.Writable? ==> Ready(s.loop, E.OUT)
    requires Ready(l, E.OUT) ==> Ready(s.loop, E.OUT) && (a.Established? || a.Readable?)
    ensures Backed(Acted(s, l, a))
  {
  }

  lemma {:induction false} BackedRun(s: Sys, ms: seq<Move>)
    requires Inv(s) && Backed(s) && Reactor.Legal(s, ms) && forall m | m in ms :: !Polls(m)
    ensures Reactor.Run(s, ms).health != Crashed(EmptyBuffer)
    decreases |ms|
  {
    if ms != [] {
      BackedStep(s, ms[0]);
      InvStep(s, ms[0]);
      BackedRun(Reactor.Apply(s, ms[0]), ms[1..]);
    }
  }

  // ---------- the drain of the task queue ----------

  /** Moves left in the drain: two for each unit of measure, one for a task that has begun. */
  function Left(l: L.Loop<Task>): int {
    if l.phase.InTask? && l.queue != [] then 2 * Measure(l.queue[1..]) + 1 else 2 * Measure(l.queue)
  }

  predicate Drains(m: Move) {
    m.RunFront? || m == Sched(L.PopFront)
  }

  lemma DrainStep(s: Sys, m: Move)
    requires Reactor.Enabled(s, m) && Drains(m)
    ensures Left(s.loop) >= 1
    ensures Reactor.Apply(s, m).health == Fine ==> Left(Reactor.Apply(s, m).loop) < Left(s.loop)
    ensures Reactor.Apply(s, m).health == Fine ==>
              Reactor.Apply(s, m).loop.phase.Draining? || Reactor.Apply(s, m).loop.phase.InTask?
  {
    if m.RunFront? {
      var t, rest := s.loop.queue[0], s.loop.queue[1..];
      var a := ActOf(s, m);
      if Out(s.link, a).Done? {
        var posted := Out(s.link, a).posted;
        assert posted == [] || (IsWrite(t) && posted == [ForceClose]);
        assert (s.loop.queue + posted)[1..] == rest + posted;
        MeasureAppend(rest, posted);
        assert Measure(posted) < Weight(t);
      }
    }
  }

  /** The drain terminates: while user callbacks post nothing, no run of it is longer than twice the
      measure of the queue, which counts 2 for a write and 1 for any other task. */
  lemma {:induction false} DrainTerminates(s: Sys, ms: seq<Move>)
    requires s.loop.phase.Draining? || s.loop.phase.InTask?
    requires Reactor.Legal(s, ms) && forall m | m in ms :: Drains(m)
    ensures |ms| <= Left(s.loop)
    decreases |ms|
  {
    if ms != [] {
      DrainStep(s, ms[0]);
      var s' := Reactor.Apply(s, ms[0]);
      if s'.health == Fine {
        DrainTerminates(s', ms[1..]);
      } else {
        assert |ms| == 1;
      }
    }
  }

  // ---------- bytes a graceful close leaves behind ----------

  /** Disconnecting, with bytes buffered and nobody waiting for the descriptor to become writable. */
  predicate Stranded(s: Sys) {
    && s.link.conn.state == Disconnecting
    && s.link.conn.HasBytesToWrite()
    && !s.link.conn.WantsOut()
    && !KernelWantsOut(s.link.conn)
    && !Ready(s.loop, E.OUT)
  }

  /** In Disconnecting the handler stops waiting after any successful write: the bytes are stranded
      exactly when the kernel took fewer than it was offered. */
  lemma PartialWriteStrands(s: Sys, count: int)
    requires Inv(s) && s.link.conn.state == Disconnecting && Reactor.Enabled(s, ConnWrite(count)) && count > 0
    ensures Stranded(Reactor.Apply(s, ConnWrite(count))) <==> count < |s.link.conn.Queued()|
  {
    EmptyIsNoBytes(s.link.conn);
    LastWriteOfClose(s.link, count);
    assert Reactor.Apply(s, ConnWrite(count)).link == Links.Apply(s.link, Writable(count));
  }

  lemma LastWriteOfClose(k: Link, count: int)
    requires Good(k) && Allowed(k, Writable(count)) && count > 0 && k.conn.state == Disconnecting
    requires k.conn.HasBytesToWrite()
    ensures var c := Links.Apply(k, Writable(count)).conn;
            && c.state == Disconnecting && !c.WantsOut() && !KernelWantsOut(c)
            && (c.HasBytesToWrite() <==> count < |k.conn.Queued()|)
  {
    HandleWriteSends(k.conn, count);
    EmptyIsNoBytes(HandleWrite(k.conn, count).conn);
    MirrorStep(k, Writable(count));
  }

  lemma StrandedActed(s: Sys, l: L.Loop<Task>, a: Act)
    requires Stranded(s) && Allowed(s.link, a) && L.CallbackRuns(l) && !Ready(l, E.OUT) && !a.Writable?
    requires a.Ran? ==> !IsWrite(a.t) && !a.t.ForceClose?
    ensures Stranded(Acted(s, l, a))
    ensures Acted(s, l, a).link.wire == s.link.wire
    ensures Acted(s, l, a).link.conn.Queued() == s.link.conn.Queued()
  {
  }

  /** Stranded bytes stay where they are until a write or a force_close runs. */
  lemma StrandedStep(s: Sys, m: Move)
    requires Stranded(s) && Reactor.Enabled(s, m)
    requires OnConn(m) && ActOf(s, m).Ran? ==> !IsWrite(ActOf(s, m).t) && !ActOf(s, m).t.ForceClose?
    ensures Stranded(Reactor.Apply(s, m))
    ensures Reactor.Apply(s, m).link.wire == s.link.wire
    ensures Reactor.Apply(s, m).link.conn.Queued() == s.link.conn.Queued()
  {
    if OnConn(m) {
      StrandedActed(s, L.Apply(s.loop, LoopMove(s, m)), ActOf(s, m));
    }
  }
}
