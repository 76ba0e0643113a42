/** When a connection listens, when it closes, and what closes it, in every run of the reactor. */
module Closing {
  import opened Bits
  import opened ConnectionSteps
  import opened Links
  import opened Reactor
  import opened ReactorTheorems
  import L = EventLoops
  import E = Epoll

  // ---------- listening ----------

  /** The move gives up reading: the end of the stream, an error event, or a force_close. */
  predicate GivesUpReading(s: Sys, m: Move)
    requires Reactor.Enabled(s, m)
  {
    OnConn(m) && Deafens(ActOf(s, m)) && Out(s.link, ActOf(s, m)).Done?
  }

  predicate NoneGivesUpReading(s: Sys, ms: seq<Move>)
    requires Reactor.Legal(s, ms)
    decreases |ms|
  {
    ms == [] || (!GivesUpReading(s, ms[0]) && NoneGivesUpReading(Reactor.Apply(s, ms[0]), ms[1..]))
  }

  predicate Listens(c: Conn) {
    E.IN in c.source.interest
  }

  /** Over every run from the start: a connection asks for readability exactly from its establishment
      to its end of stream, an error event or a force_close. */
  lemma ListensExactly(ms: seq<Move>)
    requires Reactor.Legal(Initial, ms)
    ensures var c := Reactor.Run(Initial, ms).link.conn;
            Listens(c) <==> c.state != New && NoneGivesUpReading(Initial, ms)
  {
    ListensRun(Initial, ms);
    InvRun(Initial, ms);
  }

  lemma {:induction false} ListensRun(s: Sys, ms: seq<Move>)
    requires Inv(s) && Reactor.Legal(s, ms)
    ensures var c, c' := s.link.conn, Reactor.Run(s, ms).link.conn;
            c'.state == New || Listens(c') <==> (c.state == New || Listens(c)) && NoneGivesUpReading(s, ms)
    decreases |ms|
  {
    if ms != [] {
      ListensMove(s, ms[0]);
      InvStep(s, ms[0]);
      ListensRun(Reactor.Apply(s, ms[0]), ms[1..]);
    }
  }

  lemma ListensMove(s: Sys, m: Move)
    requires Inv(s) && Reactor.Enabled(s, m)
    ensures var c, c' := s.link.conn, Reactor.Apply(s, m).link.conn;
            c'.state == New || Listens(c') <==> (c.state == New || Listens(c)) && !GivesUpReading(s, m)
  {
    if OnConn(m) && Out(s.link, ActOf(s, m)).Done? {
      AsksExactly(s.link, ActOf(s, m));
      StateExactly(s.link, ActOf(s, m));
    }
  }

  // ---------- closed exactly by close and force_close ----------

  lemma {:induction false} HasRunOnChannel(ran: seq<Exec>, t: Task)
    ensures HasRun(ran, t) <==> t in Tasks(ran, true) || t in Tasks(ran, false)
    decreases |ran|
  {
    if ran != [] {
      var front, x := ran[..|ran| - 1], ran[|ran| - 1];
      assert ran == front + [x];
      HasRunExtend(front, x, t);
      HasRunOnChannel(front, t);
    }
  }

  /** In every reachable state a connection is past Receiving exactly when a close or a force_close has
      run, and its stream was cut exactly when a force_close has. */
  lemma ClosedByTasksOnly(s: Sys)
    requires Reachable(s)
    ensures Rank(s.link.conn.state) >= 2 <==> HasRun(s.ran, Close) || HasRun(s.ran, ForceClose)
    ensures s.link.forced <==> HasRun(s.ran, ForceClose)
  {
    Reached(s);
  }

  /** A close or force_close that waited, on either channel, while the loop thread handled events has
      taken effect when it polls next. */
  lemma AskedToClose(s: Sys, ms: seq<Move>)
    requires Reachable(s) && s.loop.phase.Events? && Reactor.Legal(s, ms)
    requires Reactor.Run(s, ms).loop.phase.Polling?
    ensures var state := Reactor.Run(s, ms).link.conn.state;
            && (ForceClose in s.loop.localPosted + s.loop.foreignPosted ==> state == Closed)
            && (Close in s.loop.localPosted + s.loop.foreignPosted ==> Rank(state) >= 2)
  {
    var s' := Reactor.Run(s, ms);
    WaitingRunsBeforePolling(s, ms);
    Reached(s);
    InvRun(s, ms);
    HasRunOnChannel(s'.ran, Close);
    HasRunOnChannel(s'.ran, ForceClose);
  }

  /** The move makes a handler post a force_close or a close. */
  predicate Ends(s: Sys, m: Move)
    requires Reactor.Enabled(s, m)
  {
    OnConn(m) && (Links.Fails(ActOf(s, m)) || Winds(s.link, ActOf(s, m)))
  }

  predicate IsClose(t: Task) {
    t.Close? || t.ForceClose?
  }

  /** Some thread calls close or force_close. */
  predicate Asks(m: Move) {
    (m.Call? && IsClose(m.t)) || (m.Sched? && m.lm.Push? && IsClose(m.lm.t))
  }

  predicate NoneCloses(s: Sys, ms: seq<Move>)
    requires Reactor.Legal(s, ms)
    decreases |ms|
  {
    ms == [] || (!Asks(ms[0]) && !Ends(s, ms[0]) && NoneCloses(Reactor.Apply(s, ms[0]), ms[1..]))
  }

  /** Open, with no close or force_close waiting. */
  predicate Undisturbed(s: Sys) {
    && Rank(s.link.conn.state) <= 1
    && (forall t | t in s.loop.pending :: !IsClose(t))
    && (forall t | t in s.loop.batch :: !IsClose(t))
    && (forall t | t in s.loop.queue :: !IsClose(t))
  }

  lemma UndisturbedActed(s: Sys, l: L.Loop<Task>, a: Act)
    requires Undisturbed(s) && Good(s.link) && Allowed(s.link, a) && L.CallbackRuns(l)
    requires l.pending == s.loop.pending && l.queue == s.loop.queue && forall t | t in l.batch :: t in s.loop.batch
    requires !Links.Fails(a) && !Winds(s.link, a) && (a.Ran? ==> !IsClose(a.t))
    ensures Undisturbed(Acted(s, l, a))
  {
    if Out(s.link, a).Done? {
      PostsExactly(s.link, a);
      StateExactly(s.link, a);
      assert Acted(s, l, a).loop.queue == l.queue + [];
    }
  }

  lemma UndisturbedSched(s: Sys, lm: L.Move<Task>)
    requires Undisturbed(s) && L.Enabled(s.loop, lm) && !lm.TakeBatch?
    requires (lm.Post? ==> forall t | t in lm.ts :: !IsClose(t)) && (lm.Push? ==> !IsClose(lm.t))
    ensures Undisturbed(s.(loop := L.Apply(s.loop, lm)))
  {
  }

  lemma UndisturbedStep(s: Sys, m: Move)
    requires Undisturbed(s) && Good(s.link) && Reactor.Enabled(s, m) && !Asks(m) && !Ends(s, m)
    ensures Undisturbed(Reactor.Apply(s, m))
  {
    if OnConn(m) {
      UndisturbedActed(s, L.Apply(s.loop, LoopMove(s, m)), ActOf(s, m));
    } else {
      UndisturbedSched(s, LoopMove(s, m));
    }
  }

  /** Over every run: an open connection with no close waiting stays open unless close or force_close is
      called, reading or writing fails, an error is reported, or the stream ends. So data alone, read or
      sent, never closes a connection. */
  lemma StaysOpen(s: Sys, ms: seq<Move>)
    requires Reachable(s) && Undisturbed(s) && Reactor.Legal(s, ms) && NoneCloses(s, ms)
    ensures Undisturbed(Reactor.Run(s, ms))
  {
    Reached(s);
    OpenRun(s, ms);
  }

  lemma {:induction false} OpenRun(s: Sys, ms: seq<Move>)
    requires Inv(s) && Undisturbed(s) && Reactor.Legal(s, ms) && NoneCloses(s, ms)
    ensures Undisturbed(Reactor.Run(s, ms))
    decreases |ms|
  {
    if ms != [] {
      UndisturbedStep(s, ms[0]);
      InvStep(s, ms[0]);
      OpenRun(Reactor.Apply(s, ms[0]), ms[1..]);
    }
  }

  // ---------- a graceful close ----------

  /** At every loop head after an iteration, a connection past Receiving is Closed exactly when nothing
      is buffered: short of a force_close, exactly when every accepted byte has been sent. */
  lemma ClosedExactlyWhenSent(s: Sys)
    requires Reachable(s) && s.loop.phase.Polling? && s.loop.iterated && Rank(s.link.conn.state) >= 2
    ensures s.link.conn.state == Closed <==> s.link.conn.Queued() == []
    ensures !s.link.forced ==> (s.link.conn.state == Closed <==> |s.link.wire| == |LiveBytes(s.ran)|)
  {
    Reached(s);
    EmptyIsNoBytes(s.link.conn);
  }

  /** Over every run: once a closing connection has sent all it had buffered, it is Closed whenever the
      loop polls, unless a write that was still on its way has added bytes. */
  lemma FlushCloses(s: Sys, ms: seq<Move>)
    requires Reachable(s) && s.link.conn.state == Disconnecting
    requires Reactor.Enabled(s, ConnWrite(|s.link.conn.Queued()|)) && s.link.conn.Queued() != []
    requires var s' := Reactor.Apply(s, ConnWrite(|s.link.conn.Queued()|));
             Reactor.Legal(s', ms) && Reactor.Run(s', ms).loop.phase.Polling?
    ensures var s'' := Reactor.Run(Reactor.Apply(s, ConnWrite(|s.link.conn.Queued()|)), ms);
            s''.link.conn.state == Closed || |LiveBytes(s''.ran)| > |LiveBytes(s.ran)|
  {
    var m := ConnWrite(|s.link.conn.Queued()|);
    var s' := Reactor.Apply(s, m);
    Reached(s);
    InvStep(s, m);
    LinkStep(s, m);
    InvRun(s', ms);
    RankRun(s', ms);
    WireGrows(s', ms);
    WriteProgress(s, |s.link.conn.Queued()|);
    SentInEvents(s, |s.link.conn.Queued()|);
    ServingRun(s', ms, [], []);
    SentSoClosed(s, Reactor.Run(s', ms));
  }

  lemma SentSoClosed(s: Sys, s': Sys)
    requires Inv(s) && Inv(s') && s'.loop.phase.Polling? && s'.loop.iterated && Rank(s'.link.conn.state) >= 2
    requires !s.link.forced && |s'.link.wire| >= |s.link.wire| + |s.link.conn.Queued()|
    ensures s'.link.conn.state == Closed || |LiveBytes(s'.ran)| > |LiveBytes(s.ran)|
  {
    EmptyIsNoBytes(s'.link.conn);
  }

  lemma SentInEvents(s: Sys, count: int)
    requires Reactor.Enabled(s, ConnWrite(count)) && count > 0
    ensures Reactor.Apply(s, ConnWrite(count)).loop.phase.Events?
    ensures Reactor.Apply(s, ConnWrite(count)).ran == s.ran
  {
  }

  lemma {:induction false} WireGrows(s: Sys, ms: seq<Move>)
    requires Inv(s) && Reactor.Legal(s, ms)
    ensures |Reactor.Run(s, ms).link.wire| >= |s.link.wire|
    decreases |ms|
  {
    if ms != [] {
      InvStep(s, ms[0]);
      WireGrows(Reactor.Apply(s, ms[0]), ms[1..]);
    }
  }
}
