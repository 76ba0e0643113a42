/** Reachable states in which the code departs from what its callers would expect. */
module Departures {
  import opened Bits
  import opened ConnectionSteps
  import opened Links
  import opened Reactor
  import opened ReactorTheorems
  import L = EventLoops
  import R = Ring
  import E = Epoll

  /** One more move from a reachable state. */
  lemma Go(s: Sys, m: Move) returns (s': Sys)
    requires Reachable(s) && Reactor.Enabled(s, m)
    ensures Reachable(s') && s' == Reactor.Apply(s, m)
  {
    var ms :| Reactor.Legal(Initial, ms) && Reactor.Run(Initial, ms) == s;
    Reactor.RunExtend(Initial, ms, m);
    s' := Reactor.Apply(s, m);
  }

  /** A move of the loop alone. */
  lemma GoSched(s: Sys, lm: L.Move<Task>) returns (s': Sys)
    requires Reachable(s) && s.health == Fine && L.Enabled(s.loop, lm) && Scheduling(s.link.conn, lm)
    ensures Reachable(s') && s' == s.(loop := L.Apply(s.loop, lm))
  {
    s' := Go(s, Sched(lm));
  }

  /** About to poll, with nothing waiting. */
  predicate Idle(s: Sys) {
    && s.health == Fine && s.loop.phase.Polling? && s.loop.running && s.loop.lock == L.Free
    && s.loop.pending == [] && s.loop.batch == [] && s.loop.queue == []
  }

  /** Events handled, with only `q` in the task queue. */
  predicate Handled(s: Sys, q: seq<Task>) {
    && s.health == Fine && s.loop.phase == L.Events(false, {}) && s.loop.running && s.loop.lock == L.Free
    && s.loop.pending == [] && s.loop.batch == [] && s.loop.queue == q
  }

  /** In the drain with only `q` in the task queue. */
  predicate Drain(s: Sys, q: seq<Task>) {
    && s.health == Fine && s.loop.phase.Draining? && s.loop.running && s.loop.lock == L.Free
    && s.loop.pending == [] && s.loop.batch == [] && s.loop.queue == q
  }

  lemma Wake(s: Sys) returns (s': Sys)
    requires Reachable(s) && Idle(s)
    ensures Reachable(s') && Handled(s', []) && s'.link == s.link
  {
    s' := GoSched(s, L.Poll(false, {}));
  }

  lemma Settle(s: Sys, q: seq<Task>) returns (s': Sys)
    requires Reachable(s) && Handled(s, q)
    ensures Reachable(s') && Drain(s', q) && s'.link == s.link
  {
    s' := GoSched(s, L.Swap);
    s' := GoSched(s', L.BatchDone);
  }

  lemma CallTask(s: Sys, t: Task) returns (s': Sys)
    requires Reachable(s) && Idle(s) && Postable(s.link.conn, t) && (IsWrite(t) ==> !s.link.conn.IsClosed())
    ensures Reachable(s') && Drain(s', [t]) && s'.link == s.link
  {
    s' := Wake(s);
    s' := Go(s', Call(t));
    s' := Settle(s', [t]);
  }

  lemma Begin(s: Sys, t: Task, payload: seq<byte>, junk: R.Garbage) returns (s': Sys)
    requires Reachable(s) && Drain(s, [t]) && Allowed(s.link, Ran(t, payload, junk))
    requires Out(s.link, Ran(t, payload, junk)).Done? && Out(s.link, Ran(t, payload, junk)).posted == []
    ensures Reachable(s') && s'.link == Links.Apply(s.link, Ran(t, payload, junk))
    ensures s'.health == Fine && s'.loop == s.loop.(phase := L.InTask)
  {
    BeginEffect(s, payload, junk);
    s' := Go(s, RunFront(payload, junk));
  }

  lemma BeginEffect(s: Sys, payload: seq<byte>, junk: R.Garbage)
    requires s.health == Fine && s.loop.phase.Draining? && s.loop.queue != []
    requires Allowed(s.link, Ran(s.loop.queue[0], payload, junk))
    requires Out(s.link, Ran(s.loop.queue[0], payload, junk)).Done?
    requires Out(s.link, Ran(s.loop.queue[0], payload, junk)).posted == []
    ensures Reactor.Enabled(s, RunFront(payload, junk))
    ensures var s' := Reactor.Apply(s, RunFront(payload, junk));
            && s'.health == Fine && s'.loop == s.loop.(phase := L.InTask)
            && s'.link == Links.Apply(s.link, Ran(s.loop.queue[0], payload, junk))
  {
    assert s.loop.queue + [] == s.loop.queue && s.loop.localPosted + [] == s.loop.localPosted;
  }

  lemma Perform(s: Sys, t: Task, payload: seq<byte>, junk: R.Garbage) returns (s': Sys)
    requires Reachable(s) && Drain(s, [t]) && Allowed(s.link, Ran(t, payload, junk))
    requires Out(s.link, Ran(t, payload, junk)).Done? && Out(s.link, Ran(t, payload, junk)).posted == []
    ensures Reachable(s') && Idle(s') && s'.link == Links.Apply(s.link, Ran(t, payload, junk))
  {
    s' := Begin(s, t, payload, junk);
    s' := GoSched(s', L.PopFront);
    s' := GoSched(s', L.QueueDone);
  }

  /** The loop thread calls, and its next drain runs the task. */
  lemma Do(s: Sys, t: Task, payload: seq<byte>, junk: R.Garbage) returns (s': Sys)
    requires Reachable(s) && Idle(s) && Postable(s.link.conn, t) && (IsWrite(t) ==> !s.link.conn.IsClosed())
    requires Allowed(s.link, Ran(t, payload, junk))
    requires Out(s.link, Ran(t, payload, junk)).Done? && Out(s.link, Ran(t, payload, junk)).posted == []
    ensures Reachable(s') && Idle(s') && s'.link == Links.Apply(s.link, Ran(t, payload, junk))
  {
    s' := CallTask(s, t);
    s' := Perform(s', t, payload, junk);
  }

  lemma Open() returns (s: Sys)
    ensures Reachable(s) && Idle(s) && s.link == NewLink.(conn := Establish(NewConn))
  {
    var none: seq<Move> := [];
    assert Reactor.Legal(Initial, none) && Reactor.Run(Initial, none) == Initial;
    s := Wake(Initial);
    s := Establishing(s);
    s := Settle(s, []);
    s := GoSched(s, L.QueueDone);
  }

  lemma Establishing(s: Sys) returns (s': Sys)
    requires Reachable(s) && Handled(s, []) && s.link == NewLink
    ensures Reachable(s') && Handled(s', []) && s'.link == NewLink.(conn := Establish(NewConn))
  {
    s' := Go(s, Accept);
  }

  const ZEROS: R.Garbage := _ => 0

  /** An open connection whose first write has run and is still buffered. */
  lemma AfterFirstWrite(data: seq<byte>) returns (s: Sys)
    requires 0 < |data| < HALF
    ensures Reachable(s) && Idle(s) && s.link.conn.state == Receiving && !s.link.forced && !s.link.emptyWrite
    ensures s.link.wire == [] && s.link.accepted == data && s.link.conn.Queued() == data
    ensures KernelWantsOut(s.link.conn) && s.link.conn.source.kernel == E.Present({E.IN, E.OUT})
    ensures s.link.conn == DoWrite(Establish(NewConn), data, ZEROS).conn
  {
    s := Open();
    DoWriteQueues(s.link.conn, data, ZEROS);
    s := Do(s, Write(data), data, ZEROS);
    assert s.link.conn.source.kernel.mask == {E.IN, E.OUT};
  }

  /** A first write of power-of-two length followed by any second write before a byte is sent: the
      stream is broken although no force_close ran. */
  lemma SecondWriteLost(data: seq<byte>, more: seq<byte>) returns (s: Sys)
    requires PowerOfTwo(|data|) && more != [] && |data| + |more| < HALF
    ensures Reachable(s) && !s.link.forced && s.link.conn.state == Receiving
    ensures s.link.accepted == data + more && s.link.wire + s.link.conn.Queued() != s.link.accepted
  {
    s := AfterFirstWrite(data);
    FirstWriteFillsBuffer(Establish(NewConn), data, ZEROS);
    s := LoseWrite(s, more);
  }

  lemma LoseWrite(s: Sys, more: seq<byte>) returns (s': Sys)
    requires Reachable(s) && Idle(s) && s.link.conn.state == Receiving && !s.link.forced && s.link.wire == []
    requires more != [] && |s.link.conn.Queued()| + |more| < HALF && !WriteAppends(s.link.conn, |more|)
    requires s.link.accepted == s.link.conn.Queued()
    ensures Reachable(s') && !s'.link.forced && s'.link.conn.state == Receiving
    ensures s'.link.accepted == s.link.accepted + more
    ensures s'.link.wire + s'.link.conn.Queued() != s'.link.accepted
  {
    var junk := R.PutForgets(s.link.conn.buffer.ring, more);
    s' := Do(s, Write(more), more, junk);
    assert s'.link.wire + s'.link.conn.Queued() == s'.link.conn.Queued();
  }

  /** force_close on a connection that never wrote dereferences a null buffer. */
  lemma ForceCloseBeforeWrite() returns (s: Sys)
    ensures Reachable(s) && s.health == Crashed(NullBuffer)
  {
    s := Open();
    s := CallTask(s, ForceClose);
    s := Go(s, RunFront([], ZEROS));
  }

  /** Readiness to write with an empty buffer meets the assertion of `handle_write`. */
  lemma WriteNothing(s: Sys) returns (s': Sys)
    requires Reachable(s) && Idle(s) && KernelWantsOut(s.link.conn) && s.link.conn.state != New
    requires s.link.conn.buffer.Buffer? && s.link.conn.Queued() == []
    ensures Reachable(s') && s'.health == Crashed(EmptyBuffer) && s'.link == s.link
  {
    EmptyIsNoBytes(s.link.conn);
    s' := GoSched(s, L.Poll(false, {E.OUT}));
    s' := Go(s', ConnWrite(0));
  }

  /** An empty shared write arms the writing handler on an empty buffer. */
  lemma EmptyWriteAsserts() returns (s: Sys)
    ensures Reachable(s) && s.health == Crashed(EmptyBuffer) && !s.link.forced
  {
    s := Open();
    DoWriteQueues(s.link.conn, [], ZEROS);
    s := Do(s, WriteShared(0), [], ZEROS);
    s := WriteNothing(s);
  }

  /** After a force_close the kernel still reports the descriptor writable. */
  lemma WritableAfterForceClose() returns (s: Sys)
    ensures Reachable(s) && s.health == Crashed(EmptyBuffer) && !s.link.emptyWrite
  {
    s := AfterFirstWrite([7]);
    s := Do(s, ForceClose, [], ZEROS);
    s := WriteNothing(s);
  }

  /** Two close tasks reach the closed callback twice. */
  lemma ClosedCallbackTwice() returns (s: Sys)
    ensures Reachable(s) && s.health == Fine && s.link.closedCalls == 2
  {
    s := Open();
    s := Do(s, Close, [], ZEROS);
    s := Do(s, Close, [], ZEROS);
  }

  /** A graceful close with a partial write leaves bytes behind, with every queue empty. */
  lemma GracefulCloseStrands() returns (s: Sys)
    ensures Reachable(s) && Idle(s) && Stranded(s)
  {
    s := AfterFirstWrite([1, 2, 3]);
    EmptyIsNoBytes(s.link.conn);
    s := Do(s, Close, [], ZEROS);
    s := SendOne(s);
    s := Settle(s, [Close]);
    StrandedClose(s.link.conn);
    s := Perform(s, Close, [], ZEROS);
  }

  lemma SendOne(s: Sys) returns (s': Sys)
    requires Reachable(s) && Idle(s) && s.link.conn.state == Disconnecting && KernelWantsOut(s.link.conn)
    requires |s.link.conn.Queued()| > 1
    ensures Reachable(s') && Handled(s', [Close]) && Stranded(s')
  {
    s' := GoSched(s, L.Poll(false, {E.OUT}));
    s' := SendOneByte(s');
  }

  lemma SendOneByte(s: Sys) returns (s': Sys)
    requires Reachable(s) && s.health == Fine && s.loop.phase == L.Events(false, {E.OUT}) && s.loop.running
    requires s.loop.lock == L.Free && s.loop.pending == [] && s.loop.batch == [] && s.loop.queue == []
    requires s.link.conn.state == Disconnecting && |s.link.conn.Queued()| > 1
    ensures Reachable(s') && Handled(s', [Close]) && Stranded(s')
  {
    Reached(s);
    EmptyIsNoBytes(s.link.conn);
    PartialWriteStrands(s, 1);
    s' := Go(s, ConnWrite(1));
    SentOne(s);
  }

  lemma SentOne(s: Sys)
    requires Reactor.Enabled(s, ConnWrite(1)) && s.loop.phase == L.Events(false, {E.OUT})
    requires s.link.conn.state == Disconnecting && s.link.conn.HasBytesToWrite()
    ensures var s' := Reactor.Apply(s, ConnWrite(1));
            s'.health == Fine && s'.loop.phase == L.Events(false, {}) && s'.loop.running == s.loop.running
            && s'.loop.lock == s.loop.lock && s'.loop.pending == s.loop.pending && s'.loop.batch == s.loop.batch
            && s'.loop.queue == s.loop.queue + [Close]
  {
  }

  lemma StrandedClose(c: Conn)
    requires c.Valid() && c.HasBytesToWrite() && c.state == Disconnecting
    ensures CloseTask(c) == Done(c, [], 0)
  {
  }
}
