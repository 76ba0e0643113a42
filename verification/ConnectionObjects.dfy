/** The connection and the loop as objects updated in place: src/Connection.cpp and the posting and
draining of src/EventLoop.cpp. Every method is proved equal to its function on `Conn` values. */
module ConnectionObjects {
  import opened Bits
  import opened CircularBuffers
  import S = ConnectionSteps
  import R = Ring
  import E = Epoll
  import L = EventLoops

  class EventLoop {
    const epoll: E.EpollTable
    var pending: seq<S.Task>
    var taskQueue: seq<S.Task>
    var counter: nat
    var connections: set<int>

    constructor ()
      ensures fresh(epoll) && epoll.table == map[]
      ensures pending == [] && taskQueue == [] && counter == 0 && connections == {}
    {
      epoll := new E.EpollTable();
      pending, taskQueue, counter, connections := [], [], 0, {};
    }

    /** What concerns neither the task queue nor this descriptor stays as it is. */
    twostate predicate OthersKept(fd: int)
      reads this, epoll
    {
      && pending == old(pending) && counter == old(counter)
      && connections - {fd} == old(connections) - {fd}
      && epoll.table - {fd} == old(epoll.table) - {fd}
    }

    /** A post from the loop thread goes to the task queue, any other to the pending callbacks,
        which it announces. */
    method PostCallback(t: S.Task, onLoopThread: bool)
      modifies this`pending, this`taskQueue, this`counter
      ensures onLoopThread ==> taskQueue == old(taskQueue) + [t] && pending == old(pending) && counter == old(counter)
      ensures !onLoopThread ==>
                pending == old(pending) + [t] && taskQueue == old(taskQueue) && counter == L.Bump(old(counter))
    {
      if onLoopThread {
        taskQueue := taskQueue + [t];
      } else {
        pending := pending + [t];
        counter := L.Bump(counter);
      }
    }

    method SwapPending() returns (callbacks: seq<S.Task>)
      modifies this`pending
      ensures callbacks == old(pending) && pending == []
    {
      callbacks, pending := pending, [];
    }

    /** The drain of the task queue. It ends for every queue: a task may append a force_close, but
        only a write does, and only one. It runs the tasks that waited in order, then those, and the
        connection is what the steps of these tasks make of it. */
    method Drain(conn: Connection, shared: int -> seq<byte>)
      returns (ran: seq<S.Task>, calls: nat, fault: bool, ghost extra: seq<S.Task>, ghost junks: seq<R.Garbage>)
      requires conn.loop == this && conn.Valid() && conn.source != null && S.Sized(taskQueue, shared)
      modifies conn.Footprint()
      ensures ran + taskQueue == old(taskQueue) + extra
      ensures forall t | t in extra :: t == S.ForceClose
      ensures !fault ==>
                && taskQueue == [] && conn.Valid() && conn.source != null && |junks| == |ran| && S.Sized(ran, shared)
                && S.RunTasks(old(conn.View()), ran, shared, junks) == S.Done(conn.View(), extra, calls)
      ensures fault ==>
                && taskQueue != [] && |junks| == |ran| + 1 && S.Sized(ran + [taskQueue[0]], shared)
                && S.RunTasks(old(conn.View()), ran + [taskQueue[0]], shared, junks).Faulted?
      ensures OthersKept(conn.fd)
    {
      ran, calls, fault, extra, junks := [], 0, false, [], [];
      ghost var c0, was := conn.View(), taskQueue;
      while taskQueue != []
        invariant conn.Valid() && conn.source != null && conn.loop == this && !fault
        invariant fresh(conn.Footprint() - old(conn.Footprint()))
        invariant Drained(c0, was, ran, taskQueue, extra, shared, junks)
        invariant OthersKept(conn.fd)
        invariant S.RunTasks(c0, ran, shared, junks) == S.Done(conn.View(), extra, calls)
        decreases S.Measure(taskQueue)
      {
        ghost var q := taskQueue;
        var t, more := taskQueue[0], 0;
        ghost var posted, junk;
        fault, more, posted, junk := conn.RunTask(t, shared);
        DrainStep(c0, was, ran, q, extra, shared, junks, junk);
        junks := junks + [junk];
        if fault {
          return;
        }
        extra := extra + posted;
        ran := ran + [t];
        calls := calls + more;
        taskQueue := taskQueue[1..];
      }
    }

    static lemma StillSized(q: seq<S.Task>, posted: seq<S.Task>, shared: int -> seq<byte>)
      requires S.Sized(q, shared) && q != [] && forall p | p in posted :: p == S.ForceClose
      ensures S.Sized((q + posted)[1..], shared)
    {
      assert (q + posted)[1..] == q[1..] + posted;
    }

    /** What the drain has done so far, of the tasks `was` on the connection `c0`. */
    static ghost predicate Drained(c0: S.Conn, was: seq<S.Task>, ran: seq<S.Task>, q: seq<S.Task>,
                                   extra: seq<S.Task>, shared: int -> seq<byte>, junks: seq<R.Garbage>)
    {
      && c0.Valid() && S.Sized(ran, shared) && S.Sized(q, shared) && |junks| == |ran|
      && ran + q == was + extra && (forall t | t in extra :: t == S.ForceClose)
      && S.RunTasks(c0, ran, shared, junks).Done? && S.RunTasks(c0, ran, shared, junks).posted == extra
    }

    static lemma DrainStep(c0: S.Conn, was: seq<S.Task>, ran: seq<S.Task>, q: seq<S.Task>, extra: seq<S.Task>,
                           shared: int -> seq<byte>, junks: seq<R.Garbage>, junk: R.Garbage)
      requires Drained(c0, was, ran, q, extra, shared, junks) && q != []
      ensures S.Sized(ran + [q[0]], shared)
      ensures var before := S.RunTasks(c0, ran, shared, junks);
              var o := S.RunTask(before.conn, q[0], S.Payload(q[0], shared), junk);
              && S.RunTasks(c0, ran + [q[0]], shared, junks + [junk]) == S.Then(before, o)
              && (o.Done? ==>
                    && Drained(c0, was, ran + [q[0]], (q + o.posted)[1..], extra + o.posted, shared, junks + [junk])
                    && S.Measure((q + o.posted)[1..]) < S.Measure(q))
    {
      var before := S.RunTasks(c0, ran, shared, junks);
      var o := S.RunTask(before.conn, q[0], S.Payload(q[0], shared), junk);
      S.RunTasksExtend(c0, ran, q[0], shared, junks, junk);
      if o.Done? {
        S.TaskPosts(before.conn, q[0], S.Payload(q[0], shared), junk);
        DrainOrder(ran, q, o.posted, was, extra);
        StillSized(q, o.posted, shared);
      }
    }

    static lemma DrainOrder(ran: seq<S.Task>, q: seq<S.Task>, posted: seq<S.Task>, was: seq<S.Task>, extra: seq<S.Task>)
      requires ran + q == was + extra && q != [] && S.Measure(posted) < S.Weight(q[0])
      ensures (ran + [q[0]]) + (q + posted)[1..] == was + (extra + posted)
      ensures S.Measure((q + posted)[1..]) < S.Measure(q)
    {
      assert q == [q[0]] + q[1..];
      assert (q + posted)[1..] == q[1..] + posted;
      assert (ran + [q[0]]) + (q[1..] + posted) == (ran + q) + posted;
      S.MeasureAppend(q[1..], posted);
    }
  }

  class Connection {
    const fd: int
    const loop: EventLoop
    var state: S.State
    var buffer: CircularBuffer?
    var source: E.EventSource?

    ghost function Footprint(): set<object?>
      reads this, buffer
    {
      {this, loop, loop.epoll}
      + (if source == null then {} else {source})
      + (if buffer == null then {} else {buffer, buffer.data})
    }

    ghost predicate Valid()
      reads Footprint()
    {
      && (source != null ==> source.fd == fd && source.loop == loop.epoll)
      && (buffer != null ==> buffer.View().Valid())
    }

    ghost function View(): S.Conn
      requires Valid()
      reads Footprint()
    {
      S.Conn(
        state,
        if buffer == null then S.NoBuffer else S.Buffer(buffer.View()),
        if source == null then E.NewSource else source.View(),
        fd in loop.connections)
    }

    constructor (fd: int, loop: EventLoop)
      ensures this.fd == fd && this.loop == loop && Valid()
      ensures state == S.New && buffer == null && source == null
    {
      this.fd := fd;
      this.loop := loop;
      state, buffer, source := S.New, null, null;
    }

    /** `on_new_connection` for a descriptor the kernel table does not know. */
    method Register()
      requires Valid() && source == null && fd !in loop.epoll.table
      modifies Footprint()
      ensures Valid() && source != null && fresh(Footprint() - old(Footprint()))
      ensures View() == S.Establish(old(View())) && loop.taskQueue == old(loop.taskQueue)
      ensures loop.OthersKept(fd)
    {
      source := new E.EventSource(fd, loop.epoll);
      source.EnableOps({E.IN});
      state := S.Receiving;
      loop.connections := loop.connections + {fd};
    }

    predicate IsClosed()
      reads this
    {
      state == S.Closed || state == S.Disconnecting
    }

    /** The copying `write`: refused on a closing connection, else posted with the bytes. The buffer
        made for the copy asserts that its capacity, taken as an `int`, is positive. */
    method Write(data: seq<byte>, onLoopThread: bool) returns (ok: bool)
      requires !IsClosed() ==> 0 < |data| < HALF
      modifies loop`pending, loop`taskQueue, loop`counter
      ensures ok == !IsClosed()
      ensures loop.taskQueue == old(loop.taskQueue) + (if ok && onLoopThread then [S.Write(data)] else [])
      ensures loop.pending == old(loop.pending) + (if ok && !onLoopThread then [S.Write(data)] else [])
      ensures loop.counter == if ok && !onLoopThread then L.Bump(old(loop.counter)) else old(loop.counter)
    {
      ok := !IsClosed();
      if ok {
        loop.PostCallback(S.Write(data), onLoopThread);
      }
    }

    method DoWrite(data: seq<byte>) returns (ghost junk: R.Garbage)
      requires Valid() && source != null && |data| < WORD
      requires state == S.Closed || |View().Queued()| + |data| <= HALF
      modifies Footprint()
      ensures Valid() && source == old(source) && fresh(Footprint() - old(Footprint()))
      ensures var o := S.DoWrite(old(View()), data, junk);
              o.Done? && View() == o.conn && loop.taskQueue == old(loop.taskQueue) + o.posted
      ensures loop.OthersKept(fd)
    {
      if state == S.Closed {
        junk := _ => 0;
        loop.PostCallback(S.ForceClose, true);
      } else {
        junk := WriteOpen(data);
      }
    }

    method WriteOpen(data: seq<byte>) returns (ghost junk: R.Garbage)
      requires Valid() && source != null && |data| < WORD
      requires state != S.Closed && |View().Queued()| + |data| <= HALF
      modifies this`buffer, source, loop.epoll, buffer, if buffer == null then {} else {buffer.data}
      ensures Valid() && source == old(source) && fresh(Footprint() - old(Footprint()))
      ensures View() == S.DoWrite(old(View()), data, junk).conn
      ensures loop.OthersKept(fd)
    {
      junk := Enqueue(data);
      AskForWriting();
    }

    method AskForWriting()
      requires Valid() && source != null
      modifies source, loop.epoll
      ensures Valid() && source == old(source) && Footprint() == old(Footprint())
      ensures View() == old(View()).(source := E.Enable(old(View()).source, {E.OUT}))
      ensures loop.OthersKept(fd)
    {
      source.EnableOps({E.OUT});
    }

    /** The buffer, created with the length of the first write, takes the bytes. */
    method Enqueue(data: seq<byte>) returns (ghost junk: R.Garbage)
      requires Valid() && |data| < WORD && |View().Queued()| + |data| <= HALF
      modifies this`buffer, buffer, if buffer == null then {} else {buffer.data}
      ensures Valid() && buffer != null && fresh(Footprint() - old(Footprint()))
      ensures R.Put(S.Target(old(View()), |data|, junk), data, junk) == R.Done(buffer.View())
      ensures View() == old(View()).(buffer := S.Buffer(buffer.View()))
    {
      if buffer == null {
        buffer := new CircularBuffer(|data|);
        junk := R.Holding(buffer.data[..]);
        FitsNewBuffer(data, junk);
        ghost var unused := buffer.Put(data);
      } else {
        ghost var r := buffer.View();
        R.PutStores(r, data, _ => 0);
        junk := buffer.Put(data);
        R.PutStores(r, data, junk);
      }
    }

    /** A buffer created for `data` takes it without being replaced. */
    static lemma FitsNewBuffer(data: seq<byte>, junk: R.Garbage)
      requires |data| <= HALF
      ensures var r := R.NewRing(|data|, junk);
              |data| <= r.Remaining() && forall other: R.Garbage :: R.Put(r, data, other) == R.Done(R.Store(r, data))
      ensures R.Store(R.NewRing(|data|, junk), data).Valid()
    {
      R.InitialCapacityFits(|data|);
      R.IndexFacts(R.NewRing(|data|, junk));
      R.StoreAppends(R.NewRing(|data|, junk), data);
    }

    /** The task of `close`; `calls` is how often it reaches the closed callback. */
    method CloseNow() returns (calls: nat)
      requires Valid()
      modifies this`state, loop`connections
      ensures Valid() && source == old(source) && buffer == old(buffer)
      ensures S.CloseTask(old(View())) == S.Done(View(), [], calls)
      ensures loop.OthersKept(fd)
    {
      if buffer == null || buffer.Empty() {
        state := S.Closed;
        calls := 1;
        loop.connections := loop.connections - {fd};
      } else {
        state := S.Disconnecting;
        calls := 0;
      }
    }

    /** The task of `force_close`. */
    method ForceCloseNow() returns (calls: nat)
      requires Valid() && source != null && buffer != null
      modifies this`state, loop`connections, buffer, source
      ensures Valid() && source == old(source) && buffer == old(buffer) && buffer.data == old(buffer.data)
      ensures S.ForceCloseTask(old(View())) == S.Done(View(), [], calls)
      ensures loop.OthersKept(fd)
    {
      state := S.Closed;
      buffer.Clear();
      source.SetInterestOps({});
      calls := 0;
      if fd in loop.connections {
        calls := 1;
        loop.connections := loop.connections - {fd};
      }
    }

    /** One posted callback, unless its step is not followed further. */
    method RunTask(t: S.Task, shared: int -> seq<byte>)
      returns (fault: bool, calls: nat, ghost posted: seq<S.Task>, ghost junk: R.Garbage)
      requires Valid() && source != null && |S.Payload(t, shared)| < WORD
      modifies Footprint()
      ensures Valid() && source == old(source) && fresh(Footprint() - old(Footprint()))
      ensures fault <==> S.RunTask(old(View()), t, S.Payload(t, shared), junk).Faulted?
      ensures !fault ==> S.RunTask(old(View()), t, S.Payload(t, shared), junk) == S.Done(View(), posted, calls)
      ensures loop.taskQueue == old(loop.taskQueue) + posted && (fault ==> posted == [])
      ensures loop.OthersKept(fd)
    {
      fault, calls, posted, junk := false, 0, [], _ => 0;
      match t
      case Write(data) =>
        fault, posted, junk := RunWrite(data);
      case WriteShared(h) =>
        fault, posted, junk := RunWrite(shared(h));
      case Close =>
        calls := CloseNow();
      case ForceClose =>
        if buffer == null {
          fault := true;
        } else {
          calls := ForceCloseNow();
        }
      case Other =>
    }

    method RunWrite(data: seq<byte>) returns (fault: bool, ghost posted: seq<S.Task>, ghost junk: R.Garbage)
      requires Valid() && source != null && |data| < WORD
      modifies Footprint()
      ensures Valid() && source == old(source) && fresh(Footprint() - old(Footprint()))
      ensures fault <==> S.DoWrite(old(View()), data, junk).Faulted?
      ensures !fault ==> S.DoWrite(old(View()), data, junk) == S.Done(View(), posted, 0)
      ensures loop.taskQueue == old(loop.taskQueue) + posted && (fault ==> posted == [])
      ensures loop.OthersKept(fd)
    {
      posted, junk := [], _ => 0;
      fault := state != S.Closed && (if buffer == null then 0 else buffer.BufferLen()) + |data| > HALF;
      if !fault {
        posted := if state == S.Closed then [S.ForceClose] else [];
        junk := DoWrite(data);
      }
    }

    /** `handle_write` with the kernel's answer to the offered bytes. */
    method HandleWrite(count: int) returns (offered: seq<byte>)
      requires Valid() && source != null && buffer != null && !buffer.Empty()
      requires count <= buffer.BufferLen() && count <= R.MAX_RW_COUNT
      modifies Footprint()
      ensures Valid() && source == old(source) && buffer == old(buffer) && buffer.data == old(buffer.data)
      ensures offered == old(View().Queued())
      ensures var o := S.HandleWrite(old(View()), count);
              o.Done? && View() == o.conn && loop.taskQueue == old(loop.taskQueue) + o.posted
      ensures loop.OthersKept(fd)
    {
      var total;
      offered, total := buffer.WriteToFd(count);
      if total <= 0 {
        loop.PostCallback(S.ForceClose, true);
      } else if state == S.Disconnecting {
        source.DisableOps({E.OUT});
        loop.PostCallback(S.Close, true);
      } else if buffer.Empty() {
        source.DisableOps({E.OUT});
      }
    }

    /** The reading callback with the result of read(2). */
    method HandleRead(n: int)
      requires Valid() && source != null
      modifies source, loop.epoll, loop`pending, loop`taskQueue, loop`counter
      ensures Valid() && source == old(source) && buffer == old(buffer)
      ensures View() == S.HandleRead(old(View()), n).conn
      ensures loop.taskQueue == old(loop.taskQueue) + S.HandleRead(old(View()), n).posted
      ensures loop.OthersKept(fd)
    {
      if n < 0 {
        loop.PostCallback(S.ForceClose, true);
      } else if n == 0 {
        source.DisableOps({E.IN});
        loop.PostCallback(S.Close, true);
      }
    }

    /** The error branch of `handle_events`. */
    method HandleError()
      requires Valid() && source != null
      modifies source, loop.epoll, loop`pending, loop`taskQueue, loop`counter
      ensures Valid() && source == old(source) && buffer == old(buffer)
      ensures View() == S.HandleError(old(View())).conn
      ensures loop.taskQueue == old(loop.taskQueue) + S.HandleError(old(View())).posted
      ensures loop.OthersKept(fd)
    {
      loop.PostCallback(S.ForceClose, true);
      source.DisableEverything();
    }
  }
}
