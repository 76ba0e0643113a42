/** One connection with the record of what went through it: every handler and task of
src/Connection.cpp, in any order, with any answer of the kernel and any contents of fresh memory.

The fields of `Link` other than `conn` are histories that no step reads.
*/
module Links {
  import opened Bits
  import opened ConnectionSteps
  import R = Ring
  import E = Epoll

  datatype Link = Link(
    conn: ValidConn,
    wire: seq<byte>,      // every byte the kernel took
    accepted: seq<byte>,  // the data of every write run before Closed
    writes: nat,          // how many such writes there were
    forced: bool,         // a force_close has run
    doomed: bool,         // a handler has posted a force_close
    closing: bool,        // a handler has posted a close
    lossy: bool,          // a write ran on a full and aligned buffer
    emptyWrite: bool,     // a write of no bytes ran before Closed with nothing buffered
    cutOff: bool,         // a force_close ran while the kernel watched for writability
    closedCalls: nat,     // times the closed callback was reached
    lateCloses: nat)      // close tasks run when already Closed

  const NewLink: Link := Link(NewConn, [], [], 0, false, false, false, false, false, false, 0, 0)

  datatype Act =
    | Established
    | Failed
    | Readable(n: int)
    | Writable(count: int)
    | Ran(t: Task, payload: seq<byte>, junk: R.Garbage)

  /** A copying write carries its bytes; a shared one reads them now; other tasks take none. */
  predicate PayloadOf(t: Task, payload: seq<byte>) {
    match t
    case Write(data) => payload == data && |data| < HALF
    case WriteShared(_) => |payload| < HALF
    case _ => payload == []
  }

  predicate Allowed(k: Link, a: Act) {
    match a
    case Established => k.conn.state == New
    case Failed => k.conn.state != New
    case Readable(_) => k.conn.state != New
    case Writable(count) => k.conn.state != New && count <= |k.conn.Queued()| && count <= R.MAX_RW_COUNT
    case Ran(t, payload, _) => PayloadOf(t, payload) && (t.Other? || k.conn.state != New)
  }

  function Out(k: Link, a: Act): (o: Outcome)
    requires Allowed(k, a)
    ensures o.Done? ==> o.conn.Valid()
  {
    match a
    case Established => Done(Establish(k.conn), [], 0)
    case Failed => HandleError(k.conn)
    case Readable(n) => HandleRead(k.conn, n)
    case Writable(count) => HandleWrite(k.conn, count)
    case Ran(t, payload, junk) => RunTask(k.conn, t, payload, junk)
  }

  /** A write that still goes to the buffer. */
  predicate LiveWrite(k: Link, a: Act) {
    a.Ran? && IsWrite(a.t) && k.conn.state != Closed
  }

  predicate Forces(a: Act) {
    a.Ran? && a.t.ForceClose?
  }

  predicate KernelWantsOut(c: Conn) {
    c.source.kernel.Present? && E.OUT in c.source.kernel.mask
  }

  /** An empty write that finds nothing buffered. */
  predicate WritesNothing(k: Link, a: Act) {
    LiveWrite(k, a) && a.payload == [] && !k.conn.HasBytesToWrite()
  }

  /** A force_close that runs while the kernel watches for writability. */
  predicate CutsOff(k: Link, a: Act) {
    Forces(a) && KernelWantsOut(k.conn)
  }

  function Apply(k: Link, a: Act): (k': Link)
    requires Allowed(k, a) && Out(k, a).Done?
  {
    var o, live := Out(k, a), LiveWrite(k, a);
    Link(
      o.conn,
      if a.Writable? then k.wire + Sent(k.conn, a.count) else k.wire,
      if live then k.accepted + a.payload else k.accepted,
      if live then k.writes + 1 else k.writes,
      k.forced || Forces(a),
      k.doomed || ForceClose in o.posted,
      k.closing || Close in o.posted,
      k.lossy || (live && !WriteAppends(k.conn, |a.payload|)),
      k.emptyWrite || WritesNothing(k, a),
      k.cutOff || CutsOff(k, a),
      k.closedCalls + o.closedCalls,
      if a.Ran? && a.t.Close? && k.conn.state == Closed then k.lateCloses + 1 else k.lateCloses)
  }

  // ---------- life cycle ----------

  /** Closed means nothing left to write; the connection is listed exactly while it is open; a
      buffer exists exactly once a write has run; the closed callback is reached once on closing
      and once more for every close task after that. */
  predicate LifeCycle(k: Link) {
    && (k.conn.state == Closed ==> !k.conn.HasBytesToWrite())
    && (k.conn.listed <==> k.conn.state == Receiving || k.conn.state == Disconnecting)
    && (k.forced ==> k.conn.state == Closed)
    && (k.conn.state == New ==> k.conn == NewConn)
    && (k.conn.buffer.NoBuffer? <==> k.writes == 0)
    && k.closedCalls == (if k.conn.state == Closed then 1 else 0) + k.lateCloses
  }

  lemma LifeCycleStep(k: Link, a: Act)
    requires LifeCycle(k) && Allowed(k, a) && Out(k, a).Done?
    ensures LifeCycle(Apply(k, a))
    ensures Rank(Apply(k, a).conn.state) >= Rank(k.conn.state)
  {
  }

  // ---------- the byte stream ----------

  /** Until a force_close: sent plus queued is what was accepted, in length always, and byte for
      byte as long as no write ran on a full and aligned buffer. */
  predicate Stream(k: Link) {
    !k.forced ==>
      && |k.wire| + |k.conn.Queued()| == |k.accepted|
      && (!k.lossy ==> Intact(k))
  }

  lemma StreamStep(k: Link, a: Act)
    requires Stream(k) && LifeCycle(k) && Allowed(k, a) && Out(k, a).Done?
    ensures Stream(Apply(k, a))
  {
    if LiveWrite(k, a) {
      DoWriteQueues(k.conn, a.payload, a.junk);
      Associate(k.wire, k.conn.Queued(), a.payload);
    } else if a.Writable? {
      HandleWriteSends(k.conn, a.count);
      Associate(k.wire, Sent(k.conn, a.count), Apply(k, a).conn.Queued());
    } else if Forces(a) {
      assert Apply(k, a).forced;
    } else {
      assert Apply(k, a).conn.Queued() == k.conn.Queued();
    }
  }

  predicate Intact(k: Link) {
    k.wire + k.conn.Queued() == k.accepted
  }

  /** Short of a force_close, a step leaves the stream intact exactly when it was and a write that
      ran has appended its bytes. So a broken stream stays broken. */
  lemma IntactExactly(k: Link, a: Act)
    requires Stream(k) && LifeCycle(k) && Allowed(k, a) && Out(k, a).Done? && !Forces(a)
    ensures Intact(Apply(k, a)) <==>
              Intact(k) && (LiveWrite(k, a) ==> Apply(k, a).conn.Queued() == k.conn.Queued() + a.payload)
  {
    if LiveWrite(k, a) {
      DoWriteQueues(k.conn, a.payload, a.junk);
      SamePrefix(k.wire, k.conn.Queued(), k.accepted, a.payload, Apply(k, a).conn.Queued());
    } else if a.Writable? {
      HandleWriteSends(k.conn, a.count);
      Associate(k.wire, Sent(k.conn, a.count), Apply(k, a).conn.Queued());
    } else {
      assert Apply(k, a).conn.Queued() == k.conn.Queued();
    }
  }

  lemma SamePrefix(w: seq<byte>, q: seq<byte>, d: seq<byte>, p: seq<byte>, q': seq<byte>)
    requires q <= q' && |w| + |q| == |d|
    ensures w + q' == d + p <==> w + q == d && q' == q + p
  {
    assert w + q' == (w + q) + q'[|q|..];
    if w + q' == d + p {
      assert (w + q')[..|d|] == w + q && (w + q')[|d|..] == q'[|q|..];
      assert q' == q + q'[|q|..];
    }
  }

  // ---------- interest in writing ----------

  /** The kernel mirrors the interest set until a force_close. */
  predicate Mirror(k: Link) {
    && E.Sound(k.conn.source)
    && (!k.forced ==> k.conn.source.Mirrored())
  }

  lemma MirrorStep(k: Link, a: Act)
    requires Mirror(k) && LifeCycle(k) && Allowed(k, a) && Out(k, a).Done?
    ensures Mirror(Apply(k, a))
  {
    var src := k.conn.source;
    match a
    case Established => E.ApplyRestoresMirror(E.NewSource, E.EnableOp({E.IN}));
    case Failed => E.ApplyRestoresMirror(src, E.DisableAllOp);
    case Readable(n) => E.ApplyRestoresMirror(src, E.DisableOp({E.IN}));
    case Writable(count) => E.ApplyRestoresMirror(src, E.DisableOp({E.OUT}));
    case Ran(t, _, _) =>
      E.ApplyRestoresMirror(src, E.EnableOp({E.OUT}));
      E.SoundStep(src, E.SetOp({}));
  }

  /** Interest in writing means bytes to write, unless a write of nothing ran or a force_close cut the
      buffer off; after a force_close the source asks for nothing; and while receiving, unless a
      force_close is on its way, bytes to write mean interest in writing. */
  predicate Interest(k: Link) {
    && (k.conn.WantsOut() || KernelWantsOut(k.conn) ==> k.conn.buffer.Buffer?)
    && (k.cutOff ==> k.forced)
    && (k.forced ==> !k.conn.WantsOut() && (KernelWantsOut(k.conn) ==> k.cutOff))
    && (!k.emptyWrite && k.conn.WantsOut() ==> k.conn.HasBytesToWrite())
    && (k.conn.state == Receiving && !k.doomed && k.conn.HasBytesToWrite() ==> k.conn.WantsOut())
  }

  lemma InterestStep(k: Link, a: Act)
    requires Interest(k) && LifeCycle(k) && Allowed(k, a) && Out(k, a).Done?
    ensures Interest(Apply(k, a))
  {
    if LiveWrite(k, a) {
      DoWriteQueues(k.conn, a.payload, a.junk);
      EmptyIsNoBytes(k.conn);
      EmptyIsNoBytes(Apply(k, a).conn);
    }
  }

  predicate Good(k: Link) {
    LifeCycle(k) && Stream(k) && Mirror(k) && Interest(k)
  }

  lemma GoodStep(k: Link, a: Act)
    requires Good(k) && Allowed(k, a) && Out(k, a).Done?
    ensures Good(Apply(k, a))
  {
    LifeCycleStep(k, a);
    StreamStep(k, a);
    MirrorStep(k, a);
    InterestStep(k, a);
  }

  // ---------- what each act decides ----------

  /** A failure of the connection: an error event, a failed read, a write that failed or took nothing. */
  predicate Fails(a: Act) {
    a.Failed? || (a.Readable? && a.n < 0) || (a.Writable? && a.count <= 0)
  }

  /** The peer's end of stream, or bytes sent on a connection that is closing. */
  predicate Winds(k: Link, a: Act) {
    (a.Readable? && a.n == 0) || (a.Writable? && a.count > 0 && k.conn.state == Disconnecting)
  }

  predicate Closes(a: Act) {
    a.Ran? && a.t.Close?
  }

  /** A force_close is posted exactly by a failure and by a write run on a Closed connection, a close
      exactly by the end of the stream and by bytes sent while closing; nothing else is ever posted. */
  lemma PostsExactly(k: Link, a: Act)
    requires Allowed(k, a) && Out(k, a).Done?
    ensures var p := Out(k, a).posted;
            && |p| <= 1
            && (p == [ForceClose] <==> Fails(a) || (a.Ran? && IsWrite(a.t) && k.conn.state == Closed))
            && (p == [Close] <==> Winds(k, a))
            && (p != [] ==> p == [ForceClose] || p == [Close])
  {
  }

  /** A close task closes a connection exactly when nothing is buffered, and a force_close always does;
      otherwise a close makes it Disconnecting; nothing else changes the state of an established one. */
  lemma StateExactly(k: Link, a: Act)
    requires Good(k) && Allowed(k, a) && Out(k, a).Done?
    ensures var c := Apply(k, a).conn;
            && (c.state == Closed <==> k.conn.state == Closed || Forces(a) || (Closes(a) && k.conn.Queued() == []))
            && (c.state == Disconnecting <==>
                  c.state != Closed && (k.conn.state == Disconnecting || Closes(a)))
            && (c.state == New <==> k.conn.state == New && !a.Established?)
  {
    EmptyIsNoBytes(k.conn);
  }

  /** The handler stops asking for writability when it has sent everything, or anything while closing. */
  predicate StopsAsking(k: Link, a: Act)
    requires Allowed(k, a)
  {
    a.Writable? && a.count > 0 && (k.conn.state == Disconnecting || a.count == |k.conn.Queued()|)
  }

  /** An error event or a force_close ends every interest. */
  predicate Silences(a: Act) {
    a.Failed? || Forces(a)
  }

  predicate Deafens(a: Act) {
    Silences(a) || (a.Readable? && a.n == 0)
  }

  /** The interest after a step, bit by bit. The kernel follows, except that a force_close leaves the
      kernel's entry as it is. */
  lemma AsksExactly(k: Link, a: Act)
    requires Good(k) && Allowed(k, a) && Out(k, a).Done?
    ensures var src, src' := k.conn.source, Apply(k, a).conn.source;
            && (E.IN in src'.interest <==> a.Established? || (E.IN in src.interest && !Deafens(a)))
            && (E.OUT in src'.interest <==>
                  LiveWrite(k, a) || (E.OUT in src.interest && !Silences(a) && !StopsAsking(k, a)))
            && (forall e | e in src'.interest :: e in src.interest || e in {E.IN, E.OUT})
            && (if Forces(a) then src'.kernel == src.kernel else !k.forced ==> src'.Mirrored())
  {
    MirrorStep(k, a);
    if a.Writable? {
      HandleWriteSends(k.conn, a.count);
      EmptyIsNoBytes(k.conn);
      EmptyIsNoBytes(Apply(k, a).conn);
      if a.count > 0 {
        R.AcceptDropsPrefix(k.conn.buffer.ring, a.count);
      }
    }
  }

  // ---------- watched with nothing to write ----------

  /** The kernel may report the descriptor writable, and the handler would find nothing to write. */
  predicate Exposed(k: Link) {
    KernelWantsOut(k.conn) && !k.conn.HasBytesToWrite()
  }

  predicate Exposes(k: Link, a: Act) {
    WritesNothing(k, a) || CutsOff(k, a)
  }

  /** A write of bytes, an error event, and the peer's end of stream after a force_close. */
  predicate Covers(k: Link, a: Act) {
    (LiveWrite(k, a) && a.payload != []) || a.Failed? || (a.Readable? && a.n == 0 && k.forced)
  }

  /** A step leaves the connection exposed exactly when it is an empty write onto nothing, or a
      force_close while the kernel watches for writability, or the connection was exposed and the
      step is none of those that end it. */
  lemma ExposedExactly(k: Link, a: Act)
    requires Good(k) && Allowed(k, a) && Out(k, a).Done?
    ensures Exposed(Apply(k, a)) <==> Exposes(k, a) || (Exposed(k) && !Covers(k, a))
  {
    MirrorStep(k, a);
    InterestStep(k, a);
    if LiveWrite(k, a) {
      DoWriteQueues(k.conn, a.payload, a.junk);
      EmptyIsNoBytes(k.conn);
      EmptyIsNoBytes(Apply(k, a).conn);
    }
  }

  /** A force_close exposes the connection exactly when the kernel watched for writability. */
  lemma ForceCloseExposes(k: Link, a: Act)
    requires Good(k) && Allowed(k, a) && Out(k, a).Done? && Forces(a)
    ensures Exposed(Apply(k, a)) <==> KernelWantsOut(k.conn)
  {
    ExposedExactly(k, a);
  }

  /** Where interest in writing means bytes to write, a step other than a force_close keeps it so
      exactly when it is not an empty write onto nothing. */
  lemma InterestKeptExactly(k: Link, a: Act)
    requires Good(k) && !k.forced && Allowed(k, a) && Out(k, a).Done? && !Forces(a)
    requires k.conn.WantsOut() ==> k.conn.HasBytesToWrite()
    ensures (Apply(k, a).conn.WantsOut() ==> Apply(k, a).conn.HasBytesToWrite()) <==> !WritesNothing(k, a)
  {
    ExposedExactly(k, a);
    MirrorStep(k, a);
  }

  // ---------- failures and the end of the stream ----------

  /** What a handler has posted is on record exactly when it did so: a force_close for a failure or a
      write on a Closed connection, a close for the end of the stream or bytes sent while closing. */
  lemma RecordsExactly(k: Link, a: Act)
    requires Allowed(k, a) && Out(k, a).Done?
    ensures Apply(k, a).doomed <==> k.doomed || Fails(a) || (a.Ran? && IsWrite(a.t) && k.conn.state == Closed)
    ensures Apply(k, a).closing <==> k.closing || Winds(k, a)
  {
    PostsExactly(k, a);
  }

  // ---------- where a step is not followed further ----------

  /** A step is not followed further exactly when: a force_close runs before any write has created the
      buffer, a writable event finds nothing to write, or a write would exceed 2^31 queued bytes. */
  lemma FaultsExactly(k: Link, a: Act)
    requires Good(k) && Allowed(k, a)
    ensures Out(k, a).Faulted? <==>
              || (Forces(a) && k.writes == 0)
              || (a.Writable? && !k.conn.HasBytesToWrite())
              || (LiveWrite(k, a) && |k.conn.Queued()| + |a.payload| > HALF)
  {
  }
}
