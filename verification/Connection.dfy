/** What each handler and posted task of src/Connection.cpp does to one connection, as functions on values. */
module ConnectionSteps {
  import opened Bits
  import R = Ring
  import E = Epoll

  datatype State = New | Receiving | Disconnecting | Closed

  function Rank(s: State): nat {
    match s
    case New => 0
    case Receiving => 1
    case Disconnecting => 2
    case Closed => 3
  }

  datatype OutBuffer = NoBuffer | Buffer(ring: R.Ring)

  /** A posted callback. A shared write reads its buffer when it runs, a copying write carries its bytes. */
  datatype Task = Write(data: seq<byte>) | WriteShared(handle: int) | Close | ForceClose | Other

  predicate IsWrite(t: Task) {
    t.Write? || t.WriteShared?
  }

  /** Where a step is not followed further: a null buffer dereferenced or the assertion of
      `handle_write`, which end the process, or a buffer asked to hold more than 2^31 bytes, where
      the model stops. */
  datatype Fault = NullBuffer | EmptyBuffer | BufferLimit

  /** `listed` says whether the loop's connection map still holds the connection. */
  datatype Conn = Conn(state: State, buffer: OutBuffer, source: E.Source, listed: bool) {

    predicate Valid() {
      buffer.Buffer? ==> buffer.ring.Valid()
    }

    function Queued(): seq<byte>
      requires Valid()
    {
      if buffer.NoBuffer? then [] else buffer.ring.Contents()
    }

    predicate HasBytesToWrite() {
      buffer.Buffer? && !buffer.ring.Empty()
    }

    predicate WantsOut() {
      E.OUT in source.interest
    }

    predicate IsClosed() {
      state == Closed || state == Disconnecting
    }
  }

  type ValidConn = c: Conn | c.Valid() witness NewConn

  const NewConn: Conn := Conn(New, NoBuffer, E.NewSource, false)

  /** The connection after a step, the tasks the step posted on the loop thread, and how often it
      reached the closed callback. */
  datatype Outcome = Done(conn: Conn, posted: seq<Task>, closedCalls: nat) | Faulted(fault: Fault)

  lemma EmptyIsNoBytes(c: Conn)
    requires c.Valid()
    ensures c.HasBytesToWrite() <==> c.Queued() != []
  {
  }

  /** `register_event`, then the entry in the connection map. */
  function Establish(c: Conn): Conn {
    c.(state := Receiving, source := E.Enable(E.NewSource, {E.IN}), listed := true)
  }

  /** The buffer a write puts into: created with the length of the first write. */
  function Target(c: Conn, n: uint32, junk: R.Garbage): (r: R.Ring)
    requires c.Valid()
    ensures r.Valid() && r.Contents() == c.Queued()
  {
    if c.buffer.NoBuffer? then R.NewRing(n, junk) else c.buffer.ring
  }

  function DoWrite(c: Conn, data: seq<byte>, junk: R.Garbage): (o: Outcome)
    requires c.Valid() && |data| < WORD
    ensures o.Done? <==> c.state == Closed || |c.Queued()| + |data| <= HALF
    ensures o.Done? ==> o.conn.Valid()
  {
    if c.state == Closed then Done(c, [ForceClose], 0)
    else if |c.Queued()| + |data| > HALF then Faulted(BufferLimit)
    else
      var r := Target(c, |data|, junk);
      R.PutStores(r, data, junk);
      Done(c.(buffer := Buffer(R.Put(r, data, junk).ring), source := E.Enable(c.source, {E.OUT})), [], 0)
  }

  function CloseTask(c: Conn): Outcome {
    if !c.HasBytesToWrite() then Done(c.(state := Closed, listed := false), [], 1)
    else Done(c.(state := Disconnecting), [], 0)
  }

  function ForceCloseTask(c: Conn): Outcome {
    if c.buffer.NoBuffer? then Faulted(NullBuffer)
    else
      Done(c.(state := Closed, buffer := Buffer(R.Clear(c.buffer.ring)),
              source := E.SetInterest(c.source, {}), listed := false),
           [], if c.listed then 1 else 0)
  }

  function RunTask(c: Conn, t: Task, payload: seq<byte>, junk: R.Garbage): (o: Outcome)
    requires c.Valid() && |payload| < WORD
    ensures o.Done? ==> o.conn.Valid()
  {
    match t
    case Write(_) => DoWrite(c, payload, junk)
    case WriteShared(_) => DoWrite(c, payload, junk)
    case Close => CloseTask(c)
    case ForceClose => ForceCloseTask(c)
    case Other => Done(c, [], 0)
  }

  /** `handle_write` with the kernel's answer `count` to the offered bytes. */
  function HandleWrite(c: Conn, count: int): (o: Outcome)
    requires c.Valid() && count <= |c.Queued()|
    ensures o.Done? <==> c.HasBytesToWrite()
    ensures o.Done? ==> o.conn.Valid()
  {
    if c.buffer.NoBuffer? then Faulted(NullBuffer)
    else if c.buffer.ring.Empty() then Faulted(EmptyBuffer)
    else if count <= 0 then Done(c, [ForceClose], 0)
    else
      R.AcceptDropsPrefix(c.buffer.ring, count);
      var sent := c.(buffer := Buffer(R.Accept(c.buffer.ring, count)));
      if c.state == Disconnecting then Done(sent.(source := E.Disable(c.source, {E.OUT})), [Close], 0)
      else if sent.buffer.ring.Empty() then Done(sent.(source := E.Disable(c.source, {E.OUT})), [], 0)
      else Done(sent, [], 0)
  }

  /** The bytes that reached the wire in that call. */
  function Sent(c: Conn, count: int): seq<byte>
    requires c.Valid() && count <= |c.Queued()|
  {
    if count <= 0 || c.buffer.NoBuffer? then []
    else
      R.OfferedIsContents(c.buffer.ring);
      R.Offered(c.buffer.ring)[..count]
  }

  /** The reading callback with the result of read(2). */
  function HandleRead(c: Conn, n: int): Outcome {
    if n < 0 then Done(c, [ForceClose], 0)
    else if n == 0 then Done(c.(source := E.Disable(c.source, {E.IN})), [Close], 0)
    else Done(c, [], 0)
  }

  /** The error callback, then `disable_all`. */
  function HandleError(c: Conn): Outcome {
    Done(c.(source := E.DisableAll(c.source)), [ForceClose], 0)
  }

  // ---------- what a step does to the outgoing bytes ----------

  /** A write appends its bytes, unless the buffer is full and aligned when it runs. */
  predicate WriteAppends(c: Conn, n: nat)
    requires c.Valid()
  {
    c.buffer.Buffer? ==> R.PutAppends(c.buffer.ring, n)
  }

  lemma DoWriteQueues(c: Conn, data: seq<byte>, junk: R.Garbage)
    requires c.Valid() && |data| < WORD && c.state != Closed && |c.Queued()| + |data| <= HALF
    ensures var c' := DoWrite(c, data, junk).conn;
            c'.Valid() && |c'.Queued()| == |c.Queued()| + |data| && c.Queued() <= c'.Queued()
            && (WriteAppends(c, |data|) ==> c'.Queued() == c.Queued() + data)
  {
    var r := Target(c, |data|, junk);
    R.PutStores(r, data, junk);
    R.InitialCapacityFits(|data|);
    R.IndexFacts(r);
  }

  /** On any live connection with a buffer, the write appends for every allocation exactly when
      the buffer is not full and aligned (or the write is empty). */
  lemma DoWriteAppendsExactly(c: Conn, data: seq<byte>)
    requires c.Valid() && c.state != Closed && |c.Queued()| + |data| <= HALF
    ensures (forall junk: R.Garbage :: DoWrite(c, data, junk).conn.Queued() == c.Queued() + data)
            <==> WriteAppends(c, |data|)
  {
    if WriteAppends(c, |data|) {
      forall junk: R.Garbage ensures DoWrite(c, data, junk).conn.Queued() == c.Queued() + data {
        DoWriteQueues(c, data, junk);
      }
    } else {
      var junk := R.PutForgets(c.buffer.ring, data);
      assert DoWrite(c, data, junk).conn.Queued() != c.Queued() + data;
    }
  }

  /** A first write of power-of-two length leaves the buffer full and aligned, so the next
      non-empty write before any byte is sent is lost. */
  lemma FirstWriteFillsBuffer(c: Conn, data: seq<byte>, junk: R.Garbage)
    requires c.buffer.NoBuffer? && c.state != Closed && PowerOfTwo(|data|) && |data| <= HALF
    ensures var c' := DoWrite(c, data, junk).conn;
            c'.Valid() && forall n: nat | n > 0 :: !WriteAppends(c', n)
  {
    R.FirstPutFills(data, junk);
  }

  lemma HandleWriteSends(c: Conn, count: int)
    requires c.Valid() && count <= |c.Queued()| && c.HasBytesToWrite()
    ensures var c' := HandleWrite(c, count).conn;
            c'.Valid() && Sent(c, count) + c'.Queued() == c.Queued()
            && (count > 0 ==> |c'.Queued()| < |c.Queued()|)
  {
    R.OfferedIsContents(c.buffer.ring);
    if count > 0 {
      R.AcceptDropsPrefix(c.buffer.ring, count);
      assert c.Queued()[..count] + c.Queued()[count..] == c.Queued();
    }
  }

  // ---------- what a task posts ----------

  /** A write may post one force_close; every other task posts nothing of its own. */
  function Weight(t: Task): nat {
    if IsWrite(t) then 2 else 1
  }

  function Measure(q: seq<Task>): nat {
    if q == [] then 0 else Weight(q[0]) + Measure(q[1..])
  }

  lemma {:induction false} MeasureAppend(p: seq<Task>, q: seq<Task>)
    ensures Measure(p + q) == Measure(p) + Measure(q)
  {
    if p == [] {
      assert p + q == q;
    } else {
      assert (p + q)[1..] == p[1..] + q;
      MeasureAppend(p[1..], q);
    }
  }

  lemma TaskPosts(c: Conn, t: Task, payload: seq<byte>, junk: R.Garbage)
    requires c.Valid() && |payload| < WORD && RunTask(c, t, payload, junk).Done?
    ensures var posted := RunTask(c, t, payload, junk).posted;
            (forall p | p in posted :: p == ForceClose) && Measure(posted) < Weight(t)
  {
  }

  // ---------- a sequence of tasks ----------

  /** What the task writes, with `shared` the bytes of the shared buffers. */
  function Payload(t: Task, shared: int -> seq<byte>): seq<byte> {
    match t
    case Write(data) => data
    case WriteShared(h) => shared(h)
    case _ => []
  }

  predicate Sized(ts: seq<Task>, shared: int -> seq<byte>) {
    forall t | t in ts :: |Payload(t, shared)| < WORD
  }

  /** Two steps one after the other. */
  function Then(first: Outcome, second: Outcome): Outcome {
    if first.Faulted? then first
    else if second.Faulted? then second
    else Done(second.conn, first.posted + second.posted, first.closedCalls + second.closedCalls)
  }

  /** The tasks one after the other, each with what the memory it allocates holds. */
  function RunTasks(c: Conn, ts: seq<Task>, shared: int -> seq<byte>, junks: seq<R.Garbage>): (o: Outcome)
    requires c.Valid() && Sized(ts, shared) && |junks| == |ts|
    ensures o.Done? ==> o.conn.Valid()
    decreases |ts|
  {
    if ts == [] then Done(c, [], 0)
    else
      var k := |ts| - 1;
      var o := RunTasks(c, ts[..k], shared, junks[..k]);
      if o.Faulted? then o else Then(o, RunTask(o.conn, ts[k], Payload(ts[k], shared), junks[k]))
  }

  lemma RunTasksExtend(c: Conn, ts: seq<Task>, t: Task, shared: int -> seq<byte>, junks: seq<R.Garbage>, junk: R.Garbage)
    requires c.Valid() && Sized(ts, shared) && |junks| == |ts| && |Payload(t, shared)| < WORD
    requires RunTasks(c, ts, shared, junks).Done?
    ensures Sized(ts + [t], shared)
    ensures var o := RunTasks(c, ts, shared, junks);
            RunTasks(c, ts + [t], shared, junks + [junk]) == Then(o, RunTask(o.conn, t, Payload(t, shared), junk))
  {
    assert (ts + [t])[..|ts|] == ts && (junks + [junk])[..|ts|] == junks;
  }
}
