/** One event loop serving one connection: the scheduling of src/EventLoop.cpp and the handlers and
tasks of src/Connection.cpp as one transition system, and what holds in every run of it.

Every source of choice is a parameter of a move: which thread acts, what the kernel answers, what
user callbacks post, what fresh memory holds.
*/
module Reactor {
  import opened Bits
  import opened ConnectionSteps
  import opened Links
  import L = EventLoops
  import R = Ring
  import E = Epoll

  datatype Health = Fine | Crashed(fault: Fault)

  /** A task that has run: with which bytes, on which channel, and whether the connection was open. */
  datatype Exec = Exec(t: Task, payload: seq<byte>, local: bool, live: bool)

  /** `ran` is a history. */
  datatype Sys = Sys(loop: L.Loop<Task>, link: Link, health: Health, ran: seq<Exec>)

  const Initial: Sys := Sys(L.NewLoop(), NewLink, Fine, [])

  datatype Move =
    | Call(t: Task)
    | Sched(lm: L.Move<Task>)
    | Accept
    | ConnFailed
    | ConnRead(n: int)
    | ConnWrite(count: int)
    | HangUp
    | RunBatch(payload: seq<byte>, junk: R.Garbage)
    | RunFront(payload: seq<byte>, junk: R.Garbage)

  /** User code holds a connection only once it is established; a copying write is not empty. */
  predicate Postable(c: Conn, t: Task) {
    && (t.Other? || c.state != New)
    && (t.Write? ==> 0 < |t.data| < HALF)
  }

  /** The moves of the loop that touch no connection. Readiness reported by the kernel is asked
      for, or an error or hang-up of a registered descriptor. */
  predicate Scheduling(c: Conn, lm: L.Move<Task>) {
    match lm
    case Post(_) => false
    case Handled(_) => false
    case TakeBatch => false
    case BeginFront => false
    case Push(t) => Postable(c, t)
    case Poll(_, ready) =>
      ready == {} || (c.source.kernel.Present? && ready <= c.source.kernel.mask + {E.ERR, E.HUP})
    case _ => true
  }

  predicate Ready(l: L.Loop<Task>, e: E.Event) {
    l.phase.Events? && e in l.phase.ready
  }

  /** The errors go first, then reading, then writing. */
  predicate Enabled(s: Sys, m: Move) {
    s.health == Fine &&
    match m
    case Call(t) => L.CallbackRuns(s.loop) && Postable(s.link.conn, t) && (IsWrite(t) ==> !s.link.conn.IsClosed())
    case Sched(lm) => L.Enabled(s.loop, lm) && Scheduling(s.link.conn, lm)
    case Accept => s.loop.phase.Events? && Allowed(s.link, Established)
    case ConnFailed => Ready(s.loop, E.ERR) && Allowed(s.link, Failed)
    case ConnRead(n) => Ready(s.loop, E.IN) && !Ready(s.loop, E.ERR) && Allowed(s.link, Readable(n))
    case ConnWrite(count) =>
      Ready(s.loop, E.OUT) && !Ready(s.loop, E.ERR) && !Ready(s.loop, E.IN) && Allowed(s.link, Writable(count))
    case HangUp => Ready(s.loop, E.HUP) && !Ready(s.loop, E.ERR)
    case RunBatch(payload, junk) =>
      L.Enabled(s.loop, L.TakeBatch) && Allowed(s.link, Ran(s.loop.batch[0], payload, junk))
    case RunFront(payload, junk) =>
      L.Enabled(s.loop, L.BeginFront) && Allowed(s.link, Ran(s.loop.queue[0], payload, junk))
  }

  /** What the move does to the loop before any connection code runs. */
  function LoopMove(s: Sys, m: Move): (lm: L.Move<Task>)
    requires Enabled(s, m)
    ensures L.Enabled(s.loop, lm)
  {
    match m
    case Call(t) => L.Post([t])
    case Sched(lm) => lm
    case Accept => L.Handled(s.loop.phase.ready)
    case ConnFailed => L.Handled({})
    case ConnRead(_) => L.Handled(s.loop.phase.ready - {E.IN})
    case ConnWrite(_) => L.Handled(s.loop.phase.ready - {E.OUT})
    case HangUp => L.Handled(s.loop.phase.ready - {E.HUP})
    case RunBatch(_, _) => L.TakeBatch
    case RunFront(_, _) => L.BeginFront
  }

  predicate OnConn(m: Move) {
    !m.Call? && !m.Sched? && !m.HangUp?
  }

  /** What the move does to the connection. */
  function ActOf(s: Sys, m: Move): (a: Act)
    requires Enabled(s, m) && OnConn(m)
    ensures Allowed(s.link, a)
  {
    match m
    case Accept => Established
    case ConnFailed => Failed
    case ConnRead(n) => Readable(n)
    case ConnWrite(count) => Writable(count)
    case RunBatch(payload, junk) => Ran(s.loop.batch[0], payload, junk)
    case RunFront(payload, junk) => Ran(s.loop.queue[0], payload, junk)
  }

  /** Act on the connection; what the act posts goes to the back of the task queue of `l`. */
  function Acted(s: Sys, l: L.Loop<Task>, a: Act): Sys
    requires Allowed(s.link, a) && L.CallbackRuns(l)
  {
    match Out(s.link, a)
    case Faulted(f) => s.(health := Crashed(f))
    case Done(_, posted, _) =>
      Sys(L.Apply(l, L.Post(posted)), Links.Apply(s.link, a), Fine,
          if a.Ran? then s.ran + [Exec(a.t, a.payload, l.phase.InTask?, s.link.conn.state != Closed)] else s.ran)
  }

  function Apply(s: Sys, m: Move): Sys
    requires Enabled(s, m)
  {
    var l := L.Apply(s.loop, LoopMove(s, m));
    if OnConn(m) then Acted(s, l, ActOf(s, m)) else s.(loop := l)
  }

  // ---------- the order of the handlers ----------

  /** The callbacks that `register_event` sets. */
  const CALLBACKS: E.Mask := {E.ERR, E.IN, E.OUT}

  function EventOf(m: Move): seq<E.Event> {
    match m
    case ConnFailed => [E.ERR]
    case ConnRead(_) => [E.IN]
    case ConnWrite(_) => [E.OUT]
    case _ => []
  }

  function StillToCall(l: L.Loop<Task>): seq<E.Event> {
    if l.phase.Events? then E.Dispatch(l.phase.ready, CALLBACKS) else []
  }

  /** While events are handled, the moves on the connection are the callbacks of `handle_events`, in
      its order; every other move leaves what is still to be called alone. */
  lemma HandlersInOrder(s: Sys, m: Move)
    requires Enabled(s, m) && s.loop.phase.Events?
    ensures Apply(s, m).health == Fine ==> StillToCall(s.loop) == EventOf(m) + StillToCall(Apply(s, m).loop)
  {
    LoopMoveCalls(s, m);
    var l := L.Apply(s.loop, LoopMove(s, m));
    if OnConn(m) && Out(s.link, ActOf(s, m)).Done? {
      assert Apply(s, m).loop.phase == l.phase;
    }
  }

  lemma LoopMoveCalls(s: Sys, m: Move)
    requires Enabled(s, m) && s.loop.phase.Events?
    ensures StillToCall(s.loop) == EventOf(m) + StillToCall(L.Apply(s.loop, LoopMove(s, m)))
  {
    var lm := LoopMove(s, m);
    if lm.Handled? && !m.Sched? {
      DispatchTakes(s.loop.phase.ready);
    } else {
      OthersCallNothing(s.loop, lm);
    }
  }

  lemma OthersCallNothing(l: L.Loop<Task>, lm: L.Move<Task>)
    requires L.Enabled(l, lm) && l.phase.Events? && !lm.Handled?
    ensures StillToCall(L.Apply(l, lm)) == StillToCall(l)
  {
  }

  lemma DispatchTakes(ready: E.Mask)
    ensures E.Dispatch({}, CALLBACKS) == []
    ensures E.ERR in ready ==> E.Dispatch(ready, CALLBACKS) == [E.ERR]
    ensures E.ERR !in ready && E.IN in ready ==>
              E.Dispatch(ready, CALLBACKS) == [E.IN] + E.Dispatch(ready - {E.IN}, CALLBACKS)
    ensures E.ERR !in ready && E.IN !in ready && E.OUT in ready ==>
              E.Dispatch(ready, CALLBACKS) == [E.OUT] + E.Dispatch(ready - {E.OUT}, CALLBACKS)
    ensures E.Dispatch(ready - {E.HUP}, CALLBACKS) == E.Dispatch(ready, CALLBACKS)
  {
  }

  // ---------- runs ----------

  predicate Legal(s: Sys, ms: seq<Move>)
    decreases |ms|
  {
    ms == [] || (Enabled(s, ms[0]) && Legal(Apply(s, ms[0]), ms[1..]))
  }

  function Run(s: Sys, ms: seq<Move>): Sys
    requires Legal(s, ms)
    decreases |ms|
  {
    if ms == [] then s else Run(Apply(s, ms[0]), ms[1..])
  }

  lemma {:induction false} RunExtend(s: Sys, ms: seq<Move>, m: Move)
    requires Legal(s, ms) && Enabled(Run(s, ms), m)
    ensures Legal(s, ms + [m]) && Run(s, ms + [m]) == Apply(Run(s, ms), m)
    decreases |ms|
  {
    if ms == [] {
      assert [] + [m] == [m] && [m][1..] == [];
    } else {
      assert (ms + [m])[1..] == ms[1..] + [m];
      RunExtend(Apply(s, ms[0]), ms[1..], m);
    }
  }

  // ---------- the scheduling ----------

  ghost predicate Scheduled(s: Sys) {
    L.Fifo(s.loop) && L.Awake(s.loop)
  }

  lemma ScheduledStep(s: Sys, m: Move)
    requires Scheduled(s) && Enabled(s, m)
    ensures Scheduled(Apply(s, m))
  {
    LoopStep(s.loop, LoopMove(s, m));
    if OnConn(m) && Out(s.link, ActOf(s, m)).Done? {
      LoopStep(L.Apply(s.loop, LoopMove(s, m)), L.Post(Out(s.link, ActOf(s, m)).posted));
    }
  }

  lemma LoopStep(l: L.Loop<Task>, lm: L.Move<Task>)
    requires L.Fifo(l) && L.Awake(l) && L.Enabled(l, lm)
    ensures L.Fifo(L.Apply(l, lm)) && L.Awake(L.Apply(l, lm))
  {
    L.FifoStep(l, lm);
    L.AwakeStep(l, lm);
  }

  // ---------- the connection ----------

  /** No move takes the connection back to an earlier state. */
  lemma LinkStep(s: Sys, m: Move)
    requires Good(s.link) && Enabled(s, m)
    ensures Good(Apply(s, m).link)
    ensures Rank(Apply(s, m).link.conn.state) >= Rank(s.link.conn.state)
  {
    if OnConn(m) && Out(s.link, ActOf(s, m)).Done? {
      GoodStep(s.link, ActOf(s, m));
      LifeCycleStep(s.link, ActOf(s, m));
    }
  }

  // ---------- readiness and the queues together ----------

  /** A write readiness still to be handled was asked for with bytes to write. */
  predicate WritableIsBacked(s: Sys) {
    Ready(s.loop, E.OUT) ==>
      && s.link.conn.buffer.Buffer?
      && (!s.link.cutOff && !s.link.emptyWrite ==> s.link.conn.HasBytesToWrite())
  }

  /** A force_close that a handler posted waits in the task queue until the connection is Closed,
      and once it has begun to run the connection is. */
  predicate DoomIsQueued(s: Sys) {
    && (s.link.doomed && s.link.conn.state != Closed ==> ForceClose in s.loop.queue)
    && (s.loop.phase.InTask? ==> s.loop.queue != [] && (s.loop.queue[0] == ForceClose ==> s.link.conn.state == Closed))
  }

  lemma WritableActed(s: Sys, l: L.Loop<Task>, a: Act)
    requires WritableIsBacked(s) && LifeCycle(s.link) && Allowed(s.link, a) && L.CallbackRuns(l)
    requires Ready(l, E.OUT) ==> Ready(s.loop, E.OUT) && (a.Established? || a.Readable?)
    ensures WritableIsBacked(Acted(s, l, a))
  {
  }

  lemma WritableStep(s: Sys, m: Move)
    requires WritableIsBacked(s) && Good(s.link) && Enabled(s, m)
    ensures WritableIsBacked(Apply(s, m))
  {
    if OnConn(m) {
      WritableActed(s, L.Apply(s.loop, LoopMove(s, m)), ActOf(s, m));
    }
  }

  lemma DoomActed(s: Sys, l: L.Loop<Task>, a: Act)
    requires DoomIsQueued(s) && Good(s.link) && Allowed(s.link, a) && L.CallbackRuns(l)
    requires l.queue == s.loop.queue
    requires l.phase.InTask? ==> l.queue != [] && a.Ran? && a.t == l.queue[0]
    ensures DoomIsQueued(Acted(s, l, a))
  {
    if Out(s.link, a).Done? {
      LifeCycleStep(s.link, a);
    }
  }

  lemma DoomStep(s: Sys, m: Move)
    requires DoomIsQueued(s) && Good(s.link) && Enabled(s, m)
    ensures DoomIsQueued(Apply(s, m))
  {
    if OnConn(m) {
      DoomActed(s, L.Apply(s.loop, LoopMove(s, m)), ActOf(s, m));
    } else {
      WaitingStays(s.loop, LoopMove(s, m), ForceClose);
    }
  }

  /** A waiting task leaves the task queue only when it is popped. */
  lemma WaitingStays(l: L.Loop<Task>, lm: L.Move<Task>, t: Task)
    requires L.Enabled(l, lm) && !lm.BeginFront? && !lm.TakeBatch?
    ensures t in l.queue && !(lm.PopFront? && l.queue[0] == t) ==> t in L.Apply(l, lm).queue
    ensures var l' := L.Apply(l, lm);
            l'.phase.InTask? ==> l.phase.InTask? && (l.queue != [] ==> l'.queue != [] && l'.queue[0] == l.queue[0])
  {
    if lm.PopFront? {
      assert l.queue == [l.queue[0]] + l.queue[1..];
    }
  }

  /** The same for a close that a handler posted, until the connection is at least Disconnecting. */
  predicate CloseIsQueued(s: Sys) {
    && (s.link.closing && Rank(s.link.conn.state) < 2 ==> Close in s.loop.queue)
    && (s.loop.phase.InTask? ==> s.loop.queue != [] && (s.loop.queue[0] == Close ==> Rank(s.link.conn.state) >= 2))
  }

  lemma CloseActed(s: Sys, l: L.Loop<Task>, a: Act)
    requires CloseIsQueued(s) && Good(s.link) && Allowed(s.link, a) && L.CallbackRuns(l)
    requires l.queue == s.loop.queue
    requires l.phase.InTask? ==> l.queue != [] && a.Ran? && a.t == l.queue[0]
    ensures CloseIsQueued(Acted(s, l, a))
  {
    if Out(s.link, a).Done? {
      LifeCycleStep(s.link, a);
    }
  }

  lemma CloseStep(s: Sys, m: Move)
    requires CloseIsQueued(s) && Good(s.link) && Enabled(s, m)
    ensures CloseIsQueued(Apply(s, m))
  {
    if OnConn(m) {
      CloseActed(s, L.Apply(s.loop, LoopMove(s, m)), ActOf(s, m));
    } else {
      WaitingStays(s.loop, LoopMove(s, m), Close);
    }
  }

  /** Every waiting task can run: tasks on the connection wait only once it is established. */
  predicate Runnable(s: Sys) {
    && (forall t | t in s.loop.pending :: Postable(s.link.conn, t))
    && (forall t | t in s.loop.batch :: Postable(s.link.conn, t))
    && (forall t | t in s.loop.queue :: Postable(s.link.conn, t))
    && (s.loop.phase.Events? && s.loop.phase.ready != {} ==> s.link.conn.state != New)
  }

  lemma PostedAreCloses(k: Link, a: Act)
    requires Allowed(k, a) && Out(k, a).Done?
    ensures forall t | t in Out(k, a).posted :: (t == Close || t == ForceClose) && k.conn.state != New
  {
  }

  lemma RunnableActed(s: Sys, l: L.Loop<Task>, a: Act)
    requires Runnable(s) && Good(s.link) && Allowed(s.link, a) && L.CallbackRuns(l)
    requires l.queue == s.loop.queue && l.pending == s.loop.pending
    requires forall t | t in l.batch :: t in s.loop.batch
    requires l.phase.Events? ==> s.loop.phase.Events? && l.phase.ready <= s.loop.phase.ready
    ensures Runnable(Acted(s, l, a))
  {
    if Out(s.link, a).Done? {
      PostedAreCloses(s.link, a);
      LifeCycleStep(s.link, a);
      var s' := Acted(s, l, a);
      assert forall t | Postable(s.link.conn, t) :: Postable(s'.link.conn, t);
      assert s'.loop.queue == s.loop.queue + Out(s.link, a).posted;
    }
  }

  lemma RunnableStep(s: Sys, m: Move)
    requires Runnable(s) && Good(s.link) && Enabled(s, m)
    ensures Runnable(Apply(s, m))
  {
    if OnConn(m) {
      RunnableActed(s, L.Apply(s.loop, LoopMove(s, m)), ActOf(s, m));
    } else {
      RunnableSched(s, LoopMove(s, m));
    }
  }

  lemma RunnableSched(s: Sys, lm: L.Move<Task>)
    requires Runnable(s) && Good(s.link) && L.Enabled(s.loop, lm) && !lm.TakeBatch?
    requires lm.Post? ==> forall t | t in lm.ts :: Postable(s.link.conn, t)
    requires lm.Push? || lm.Poll? ==> Scheduling(s.link.conn, lm)
    ensures Runnable(s.(loop := L.Apply(s.loop, lm)))
  {
  }

  // ---------- what has run ----------

  function Tasks(ran: seq<Exec>, local: bool): seq<Task> {
    if ran == [] then []
    else
      var x := ran[|ran| - 1];
      Tasks(ran[..|ran| - 1], local) + (if x.local == local then [x.t] else [])
  }

  /** A write that ran while the connection was open. */
  predicate TookBytes(x: Exec) {
    IsWrite(x.t) && x.live
  }

  /** The data of the writes that ran while the connection was open, in the order they ran. */
  function LiveBytes(ran: seq<Exec>): seq<byte> {
    if ran == [] then []
    else
      var x := ran[|ran| - 1];
      LiveBytes(ran[..|ran| - 1]) + (if TookBytes(x) then x.payload else [])
  }

  /** The task the loop thread is inside of. */
  function Current(l: L.Loop<Task>): seq<Task> {
    if l.phase.InTask? && l.queue != [] then [l.queue[0]] else []
  }

  /** The run order merges the two post orders, and the accepted bytes follow it. */
  predicate Traced(ran: seq<Exec>, l: L.Loop<Task>, accepted: seq<byte>) {
    && Tasks(ran, false) == l.foreignRun
    && Tasks(ran, true) == l.localDone + Current(l)
    && LiveBytes(ran) == accepted
  }

  /** Copying writes ran with the bytes they were given; on an open connection every write went to the
      buffer; and the count of those is that of the record. */
  predicate Faithful(s: Sys) {
    && (forall x | x in s.ran :: PayloadOf(x.t, x.payload) && (s.link.conn.state != Closed ==> x.live))
    && (s.link.writes == 0 <==> forall x | x in s.ran :: !TookBytes(x))
  }

  lemma FaithfulStep(s: Sys, m: Move)
    requires Faithful(s) && Good(s.link) && Enabled(s, m)
    ensures Faithful(Apply(s, m))
  {
    if OnConn(m) {
      FaithfulActed(s, L.Apply(s.loop, LoopMove(s, m)), ActOf(s, m));
    }
  }

  lemma FaithfulActed(s: Sys, l: L.Loop<Task>, a: Act)
    requires Faithful(s) && Good(s.link) && Allowed(s.link, a) && L.CallbackRuns(l)
    ensures Faithful(Acted(s, l, a))
  {
    if Out(s.link, a).Done? {
      LifeCycleStep(s.link, a);
      WritesCounted(s.link, a);
      if a.Ran? {
        var x := Exec(a.t, a.payload, l.phase.InTask?, s.link.conn.state != Closed);
        assert Acted(s, l, a).ran == s.ran + [x];
        assert x in s.ran + [x];
        assert forall y | y in s.ran :: y in s.ran + [x];
      }
    }
  }

  lemma WritesCounted(k: Link, a: Act)
    requires Allowed(k, a) && Out(k, a).Done?
    ensures Links.Apply(k, a).writes == if LiveWrite(k, a) then k.writes + 1 else k.writes
  {
  }

  lemma TraceAppend(ran: seq<Exec>, x: Exec)
    ensures forall local :: Tasks(ran + [x], local) == Tasks(ran, local) + (if x.local == local then [x.t] else [])
    ensures LiveBytes(ran + [x]) == LiveBytes(ran) + (if TookBytes(x) then x.payload else [])
  {
    assert (ran + [x])[..|ran|] == ran;
  }

  /** Beginning task `x` on its channel, and then posting, extends the trace by `x`. */
  lemma TracedBegin(ran: seq<Exec>, l: L.Loop<Task>, l': L.Loop<Task>, accepted: seq<byte>, x: Exec)
    requires Traced(ran, l, accepted) && Current(l) == [] && l'.localDone == l.localDone
    requires l'.foreignRun == if x.local then l.foreignRun else l.foreignRun + [x.t]
    requires Current(l') == if x.local then [x.t] else []
    ensures Traced(ran + [x], l', if TookBytes(x) then accepted + x.payload else accepted)
  {
    TraceAppend(ran, x);
  }

  lemma AcceptedBytes(k: Link, a: Act)
    requires Allowed(k, a) && Out(k, a).Done?
    ensures Links.Apply(k, a).accepted == if LiveWrite(k, a) then k.accepted + a.payload else k.accepted
  {
  }

  lemma TracedActed(s: Sys, l: L.Loop<Task>, a: Act)
    requires Traced(s.ran, s.loop, s.link.accepted) && Allowed(s.link, a) && L.CallbackRuns(l)
    requires Current(s.loop) == [] && l.localDone == s.loop.localDone
    requires l.foreignRun == if a.Ran? && !l.phase.InTask? then s.loop.foreignRun + [a.t] else s.loop.foreignRun
    requires Current(l) == if a.Ran? && l.phase.InTask? then [a.t] else []
    requires l.phase.InTask? ==> l.queue != []
    ensures var s' := Acted(s, l, a); Traced(s'.ran, s'.loop, s'.link.accepted)
  {
    if Out(s.link, a).Done? {
      AcceptedBytes(s.link, a);
      var l' := L.Apply(l, L.Post(Out(s.link, a).posted));
      PostKeepsCurrent(l, Out(s.link, a).posted);
      if a.Ran? {
        var x := Exec(a.t, a.payload, l.phase.InTask?, s.link.conn.state != Closed);
        TracedBegin(s.ran, s.loop, l', s.link.accepted, x);
      }
    }
  }

  lemma PostKeepsCurrent(l: L.Loop<Task>, posted: seq<Task>)
    requires L.CallbackRuns(l) && (l.phase.InTask? ==> l.queue != [])
    ensures Current(L.Apply(l, L.Post(posted))) == Current(l)
  {
  }

  lemma TracedStep(s: Sys, m: Move)
    requires Traced(s.ran, s.loop, s.link.accepted) && DoomIsQueued(s) && Enabled(s, m)
    ensures var s' := Apply(s, m); Traced(s'.ran, s'.loop, s'.link.accepted)
  {
    if OnConn(m) {
      TracedActed(s, L.Apply(s.loop, LoopMove(s, m)), ActOf(s, m));
    } else {
      LoopTrace(s.loop, LoopMove(s, m));
    }
  }

  /** Moves that start no task leave the record of begun tasks alone. */
  lemma LoopTrace(l: L.Loop<Task>, lm: L.Move<Task>)
    requires L.Enabled(l, lm) && !lm.TakeBatch? && !lm.BeginFront? && (l.phase.InTask? ==> l.queue != [])
    ensures L.Apply(l, lm).foreignRun == l.foreignRun
    ensures L.Apply(l, lm).localDone + Current(L.Apply(l, lm)) == l.localDone + Current(l)
  {
  }

  // ---------- what closes a connection ----------

  ghost predicate HasRun(ran: seq<Exec>, t: Task) {
    exists x | x in ran :: x.t == t
  }

  /** A force_close has run exactly if the record says so; the connection is past Receiving exactly if
      a close or a force_close has run. */
  ghost predicate ClosedByTasks(s: Sys) {
    && (s.link.forced <==> HasRun(s.ran, ForceClose))
    && (Rank(s.link.conn.state) >= 2 <==> HasRun(s.ran, Close) || HasRun(s.ran, ForceClose))
  }

  lemma HasRunExtend(ran: seq<Exec>, x: Exec, t: Task)
    ensures HasRun(ran + [x], t) <==> HasRun(ran, t) || x.t == t
  {
    assert x in ran + [x];
    if HasRun(ran, t) {
      var y :| y in ran && y.t == t;
      assert y in ran + [x];
    }
  }

  lemma ClosedByActed(s: Sys, l: L.Loop<Task>, a: Act)
    requires ClosedByTasks(s) && Good(s.link) && Allowed(s.link, a) && L.CallbackRuns(l)
    ensures ClosedByTasks(Acted(s, l, a))
  {
    if Out(s.link, a).Done? {
      StateExactly(s.link, a);
      if a.Ran? {
        var x := Exec(a.t, a.payload, l.phase.InTask?, s.link.conn.state != Closed);
        HasRunExtend(s.ran, x, Close);
        HasRunExtend(s.ran, x, ForceClose);
      }
    }
  }

  lemma ClosedByStep(s: Sys, m: Move)
    requires ClosedByTasks(s) && Good(s.link) && Enabled(s, m)
    ensures ClosedByTasks(Apply(s, m))
  {
    if OnConn(m) {
      ClosedByActed(s, L.Apply(s.loop, LoopMove(s, m)), ActOf(s, m));
    }
  }

  /** The task queue without the task the loop thread is inside of. */
  function Behind(l: L.Loop<Task>): seq<Task> {
    if l.phase.InTask? && l.queue != [] then l.queue[1..] else l.queue
  }

  /** A connection that is closing with nothing buffered has a close still to run. */
  predicate FlushedIsClosing(s: Sys) {
    s.link.conn.state == Disconnecting && !s.link.conn.HasBytesToWrite() ==> Close in Behind(s.loop)
  }

  lemma FlushedAct(k: Link, a: Act)
    requires Good(k) && Allowed(k, a) && Out(k, a).Done?
    requires Links.Apply(k, a).conn.state == Disconnecting && !Links.Apply(k, a).conn.HasBytesToWrite()
    ensures !Closes(a)
    ensures Out(k, a).posted == [Close] || (k.conn.state == Disconnecting && !k.conn.HasBytesToWrite())
  {
    if LiveWrite(k, a) {
      DoWriteQueues(k.conn, a.payload, a.junk);
      EmptyIsNoBytes(k.conn);
      EmptyIsNoBytes(Links.Apply(k, a).conn);
    }
  }

  lemma FlushedActed(s: Sys, l: L.Loop<Task>, a: Act)
    requires FlushedIsClosing(s) && Good(s.link) && Allowed(s.link, a) && L.CallbackRuns(l)
    requires l.queue == Behind(s.loop) && (l.phase.InTask? ==> l.queue != [] && a.Ran? && a.t == l.queue[0])
    ensures FlushedIsClosing(Acted(s, l, a))
  {
    var s' := Acted(s, l, a);
    if Out(s.link, a).Done? && s'.link.conn.state == Disconnecting && !s'.link.conn.HasBytesToWrite() {
      FlushedAct(s.link, a);
      BehindGrows(l, Out(s.link, a).posted, a);
    }
  }

  lemma BehindGrows(l: L.Loop<Task>, posted: seq<Task>, a: Act)
    requires L.CallbackRuns(l) && (l.phase.InTask? ==> l.queue != [] && a.Ran? && a.t == l.queue[0])
    ensures forall t | t in posted :: t in Behind(L.Apply(l, L.Post(posted)))
    ensures forall t | t in l.queue && !(a.Ran? && a.t == t) :: t in Behind(L.Apply(l, L.Post(posted)))
  {
    if l.phase.InTask? {
      assert l.queue == [l.queue[0]] + l.queue[1..];
      assert (l.queue + posted)[1..] == l.queue[1..] + posted;
    }
  }

  lemma BehindStays(l: L.Loop<Task>, lm: L.Move<Task>, t: Task)
    requires L.Enabled(l, lm) && !lm.BeginFront? && !lm.TakeBatch? && (l.phase.InTask? ==> l.queue != [])
    requires t in Behind(l)
    ensures t in Behind(L.Apply(l, lm))
  {
    if lm.Post? && l.phase.InTask? {
      assert (l.queue + lm.ts)[1..] == l.queue[1..] + lm.ts;
    }
  }

  lemma FlushedStep(s: Sys, m: Move)
    requires FlushedIsClosing(s) && DoomIsQueued(s) && Good(s.link) && Enabled(s, m)
    ensures FlushedIsClosing(Apply(s, m))
  {
    if OnConn(m) {
      FlushedActed(s, L.Apply(s.loop, LoopMove(s, m)), ActOf(s, m));
    } else if Close in Behind(s.loop) {
      BehindStays(s.loop, LoopMove(s, m), Close);
    }
  }

  // ---------- every run ----------

  ghost predicate Inv(s: Sys) {
    Scheduled(s) && Good(s.link) && WritableIsBacked(s) && DoomIsQueued(s) && CloseIsQueued(s)
    && Runnable(s)
    && Traced(s.ran, s.loop, s.link.accepted) && Faithful(s) && ClosedByTasks(s) && FlushedIsClosing(s)
  }

  lemma InvStep(s: Sys, m: Move)
    requires Inv(s) && Enabled(s, m)
    ensures Inv(Apply(s, m))
  {
    ScheduledStep(s, m);
    LinkStep(s, m);
    WritableStep(s, m);
    DoomStep(s, m);
    CloseStep(s, m);
    RunnableStep(s, m);
    TracedStep(s, m);
    FaithfulStep(s, m);
    ClosedByStep(s, m);
    FlushedStep(s, m);
  }

  lemma {:induction false} InvRun(s: Sys, ms: seq<Move>)
    requires Inv(s) && Legal(s, ms)
    ensures Inv(Run(s, ms))
    decreases |ms|
  {
    if ms != [] {
      InvStep(s, ms[0]);
      InvRun(Apply(s, ms[0]), ms[1..]);
    }
  }
}
