/** The double-buffered echo session of benchmark/asio/pingpong/server.cpp.cpp.

Handlers run one at a time on the session's strand. Between them the kernel may write anything into
the buffer of an outstanding read and may send any part of the buffer of an outstanding write, taking
the bytes as they are in memory at that moment.
*/
module Sessions {
  import opened Bits

  /** The two buffers are told apart by a bool; `readSide` is the one `read_data_` points to. */
  datatype Write = NoWrite | Writing(side: bool, length: nat, sent: nat)

  datatype Core = Core(
    left: seq<byte>,
    right: seq<byte>,
    readSide: bool,
    readLength: nat,
    unsent: int,
    ops: int,
    started: bool,
    reading: bool,   // a read into the buffer of `readTarget` is outstanding
    readTarget: bool,
    write: Write,    // the outstanding write
    destroys: nat)   // times `destroy` was posted

  function Buffer(c: Core, side: bool): seq<byte> {
    if side then c.right else c.left
  }

  /** Both buffers have the block size of the session. */
  type Valid = c: Core | |c.left| == |c.right| witness Fresh([], [])

  function Fresh(a: seq<byte>, b: seq<byte>): Core {
    Core(a, b, false, 0, 0, 0, false, false, false, NoWrite, 0)
  }

  function Finish(c: Core): Core {
    if c.ops == 0 then c.(destroys := c.destroys + 1) else c
  }

  function Start(c: Core, optionSet: bool): Core {
    if optionSet then c.(started := true, ops := c.ops + 1, reading := true, readTarget := c.readSide)
    else c.(started := true, destroys := c.destroys + 1)
  }

  /** Swap the buffers, write out the one just filled and read into the other. */
  function Exchange(c: Core): Core {
    c.(ops := c.ops + 2, readSide := !c.readSide, write := Writing(c.readSide, c.readLength, 0),
       reading := true, readTarget := !c.readSide)
  }

  function EchoOne(c: Core): Core {
    if c.unsent == 1 then Exchange(c) else c
  }

  function HandleRead(c: Core, err: bool, length: nat): Core {
    var c1 := c.(ops := c.ops - 1, reading := false);
    if err then Finish(c1)
    else
      var c2 := c1.(readLength := length, unsent := c.unsent + 1);
      Finish(EchoOne(c2))
  }

  function HandleWrite(c: Core, err: bool): Core {
    var c1 := c.(ops := c.ops - 1, write := NoWrite);
    if err then Finish(c1)
    else
      var c2 := c1.(unsent := c.unsent - 1);
      Finish(EchoOne(c2))
  }

  // ---------- the session and the kernel ----------

  /** `received`, `handed` and `echoed` are the bytes of completed reads, the bytes given to
      async_write, and the bytes the kernel sent; `failed` and `deaf` say that a write or a read ended
      in an error, `optioned` that the session began with its socket option set. */
  datatype Sys = Sys(
    core: Valid,
    received: seq<byte>,
    handed: seq<byte>,
    echoed: seq<byte>,
    failed: bool,
    deaf: bool,
    optioned: bool)

  datatype Move =
    | Begin(optionSet: bool)
    | Scribble(bytes: seq<byte>)
    | Send(n: nat)
    | ReadDone(err: bool, length: nat)
    | WriteDone(err: bool)

  predicate Enabled(s: Sys, m: Move) {
    match m
    case Begin(_) => !s.core.started
    case Scribble(bytes) => s.core.reading && |bytes| == |Buffer(s.core, s.core.readTarget)|
    case Send(n) =>
      s.core.write.Writing? && s.core.write.sent + n <= s.core.write.length <= |Buffer(s.core, s.core.write.side)|
    case ReadDone(_, length) => s.core.reading && length <= |Buffer(s.core, s.core.readTarget)|
    case WriteDone(err) => s.core.write.Writing? && (!err ==> s.core.write.sent == s.core.write.length)
  }

  /** What the handler hands to async_write, if it starts one. */
  function Handed(before: Core, after: Core): seq<byte> {
    if after.write.Writing? && after.readSide != before.readSide && after.write.length <= |Buffer(after, after.write.side)|
    then Buffer(after, after.write.side)[..after.write.length]
    else []
  }

  function Apply(s: Sys, m: Move): Sys
    requires Enabled(s, m)
  {
    var c := s.core;
    match m
    case Begin(optionSet) => s.(core := Start(c, optionSet), optioned := optionSet)
    case Scribble(bytes) => s.(core := if c.readTarget then c.(right := bytes) else c.(left := bytes))
    case Send(n) =>
      s.(core := c.(write := c.write.(sent := c.write.sent + n)),
         echoed := s.echoed + Buffer(c, c.write.side)[c.write.sent..c.write.sent + n])
    case ReadDone(err, length) =>
      var c' := HandleRead(c, err, length);
      s.(core := c', received := s.received + (if err then [] else Buffer(c, c.readTarget)[..length]),
         handed := s.handed + Handed(c, c'), deaf := s.deaf || err)
    case WriteDone(err) =>
      var c' := HandleWrite(c, err);
      s.(core := c', handed := s.handed + Handed(c, c'), failed := s.failed || err)
  }

  // ---------- what every move keeps ----------

  /** The counters: `op_count_` counts the outstanding operations, `unsent_count_` stays within 0..2,
      and `destroy` has been posted exactly when the session was started and nothing is outstanding. */
  predicate Counted(s: Sys) {
    var c := s.core;
    && c.ops == (if c.reading then 1 else 0) + (if c.write.Writing? then 1 else 0)
    && 0 <= c.unsent <= 2
    && (c.unsent == 0 <==> c.write.NoWrite? && !s.failed)
    && (c.write.Writing? ==> !s.failed)
    && (c.reading ==> c.unsent <= 1)
    && (!c.started ==> c.ops == 0 && c.unsent == 0)
    && c.destroys == if c.started && c.ops == 0 then 1 else 0
  }

  /** What is outstanding: a read unless it was given up or both buffers are to be sent, a write
      whenever a buffer is to be sent and no write has failed. */
  predicate Busy(s: Sys) {
    && (s.optioned ==> s.core.started)
    && (s.core.reading <==> s.optioned && !s.deaf && s.core.unsent < 2)
    && (s.core.write.Writing? <==> !s.failed && s.core.unsent > 0)
    && (s.core.unsent > 0 || s.failed || s.deaf ==> s.optioned)
    && (s.failed ==> s.core.unsent > 0)
    && (s.deaf ==> s.core.unsent < 2)
  }

  /** The buffers: a read goes to the read side, a write comes from the other side. */
  predicate Apart(s: Sys) {
    var c := s.core;
    && (c.reading ==> c.readTarget == c.readSide)
    && (c.write.Writing? ==> c.write.side != c.readSide && c.write.sent <= c.write.length <= |Buffer(c, c.write.side)|)
    && c.readLength <= |Buffer(c, c.readSide)|
  }

  function Waiting(c: Core): seq<byte> {
    if c.unsent == 2 && c.readLength <= |Buffer(c, c.readSide)| then Buffer(c, c.readSide)[..c.readLength] else []
  }

  function Unsent(c: Core): seq<byte> {
    if c.write.Writing? && c.write.sent <= c.write.length <= |Buffer(c, c.write.side)|
    then Buffer(c, c.write.side)[c.write.sent..c.write.length]
    else []
  }

  /** The stream: what was received is what was handed over, then what waits in the read buffer; what
      was handed over is what was echoed, then what the outstanding write still has to send. */
  predicate Echo(s: Sys) {
    && s.received == s.handed + Waiting(s.core)
    && (if s.failed then s.echoed <= s.handed else s.handed == s.echoed + Unsent(s.core))
  }

  predicate Inv(s: Sys) {
    Counted(s) && Busy(s) && Apart(s) && Echo(s)
  }

  lemma CountedStep(s: Sys, m: Move)
    requires Counted(s) && Enabled(s, m)
    ensures Counted(Apply(s, m))
  {
  }

  lemma BusyStep(s: Sys, m: Move)
    requires Counted(s) && Busy(s) && Enabled(s, m)
    ensures Busy(Apply(s, m))
  {
  }

  lemma ApartStep(s: Sys, m: Move)
    requires Counted(s) && Apart(s) && Enabled(s, m)
    ensures Apart(Apply(s, m))
  {
  }

  lemma EchoSend(s: Sys, n: nat)
    requires Inv(s) && Enabled(s, Send(n))
    ensures Echo(Apply(s, Send(n)))
  {
    var b, w := Buffer(s.core, s.core.write.side), s.core.write;
    SplitSlice(s.echoed, b, w.sent, w.sent + n, w.length);
    var c' := Apply(s, Send(n)).core;
    assert Waiting(c') == Waiting(s.core);
    assert Unsent(c') == b[w.sent + n..w.length];
  }

  lemma SplitSlice(e: seq<byte>, b: seq<byte>, i: nat, j: nat, k: nat)
    requires i <= j <= k <= |b|
    ensures (e + b[i..j]) + b[j..k] == e + b[i..k]
  {
    assert b[i..j] + b[j..k] == b[i..k];
  }

  /** What the kernel writes goes to the read buffer, which holds nothing that is still needed. */
  lemma EchoScribble(s: Sys, bytes: seq<byte>)
    requires Inv(s) && Enabled(s, Scribble(bytes))
    ensures Echo(Apply(s, Scribble(bytes)))
  {
  }

  lemma EchoRead(s: Sys, err: bool, length: nat)
    requires Inv(s) && Enabled(s, ReadDone(err, length))
    ensures Echo(Apply(s, ReadDone(err, length)))
  {
    if !err && s.core.unsent == 0 {
      assert Unsent(s.core) == [] && Waiting(s.core) == [];
    }
  }

  lemma EchoWrite(s: Sys, err: bool)
    requires Inv(s) && Enabled(s, WriteDone(err))
    ensures Echo(Apply(s, WriteDone(err)))
  {
    if !err {
      assert Unsent(s.core) == [];
      assert s.echoed + [] == s.echoed;
    }
  }

  lemma EchoStep(s: Sys, m: Move)
    requires Inv(s) && Enabled(s, m)
    ensures Echo(Apply(s, m))
  {
    match m
    case Begin(_) =>
    case Scribble(bytes) => EchoScribble(s, bytes);
    case Send(n) => EchoSend(s, n);
    case ReadDone(err, length) => EchoRead(s, err, length);
    case WriteDone(err) => EchoWrite(s, err);
  }

  lemma InvStep(s: Sys, m: Move)
    requires Inv(s) && Enabled(s, m)
    ensures Inv(Apply(s, m))
  {
    CountedStep(s, m);
    BusyStep(s, m);
    ApartStep(s, m);
    EchoStep(s, m);
  }

  // ---------- every run ----------

  function Initial(a: seq<byte>, b: seq<byte>): Sys
    requires |a| == |b|
  {
    Sys(Fresh(a, b), [], [], [], false, false, false)
  }

  predicate Legal(s: Sys, ms: seq<Move>)
    decreases |ms|
  {
    ms == [] || (Enabled(s, ms[0]) && Legal(Apply(s, ms[0]), ms[1..]))
  }

  function Run(s: Sys, ms: seq<Move>): Sys
    requires Legal(s, ms)
    decreases |ms|
  {
    if ms == [] then s else Run(Apply(s, ms[0]), ms[1..])
  }

  lemma {:induction false} InvRun(s: Sys, ms: seq<Move>)
    requires Inv(s) && Legal(s, ms)
    ensures Inv(Run(s, ms))
    decreases |ms|
  {
    if ms != [] {
      InvStep(s, ms[0]);
      InvRun(Apply(s, ms[0]), ms[1..]);
    }
  }

  /** In every interleaving, with or without errors: what was sent is a prefix of what was handed to
      writes, which is a prefix of what was read, and all of it unless a second buffer waits; when
      nothing is unsent, everything was sent back;
      and no buffer is at once an outstanding read's target and an outstanding write's source. */
  lemma LosslessEcho(a: seq<byte>, b: seq<byte>, ms: seq<Move>)
    requires |a| == |b| && Legal(Initial(a, b), ms)
    ensures var s := Run(Initial(a, b), ms);
            && s.echoed <= s.handed <= s.received
            && (s.core.unsent <= 1 ==> s.handed == s.received)
            && (s.core.unsent == 0 ==> s.echoed == s.received)
            && (s.core.reading && s.core.write.Writing? ==> s.core.readTarget != s.core.write.side)
  {
    InvRun(Initial(a, b), ms);
  }

  /** In every run `op_count_` is the number of outstanding operations, `unsent_count_` stays in 0..2,
      and `destroy` is posted at most once, exactly when nothing is outstanding any more; then no
      handler can run again. */
  lemma Lifetime(a: seq<byte>, b: seq<byte>, ms: seq<Move>)
    requires |a| == |b| && Legal(Initial(a, b), ms)
    ensures var s := Run(Initial(a, b), ms);
            && s.core.ops == (if s.core.reading then 1 else 0) + (if s.core.write.Writing? then 1 else 0)
            && 0 <= s.core.unsent <= 2
            && s.core.destroys <= 1
            && (s.core.destroys == 1 <==> s.core.started && !s.core.reading && s.core.write.NoWrite?)
            && (s.core.destroys == 1 ==> forall m :: !Enabled(s, m))
  {
    InvRun(Initial(a, b), ms);
  }

  /** In every run of a session that began with its option set: a read is outstanding exactly as long
      as no read has failed and a buffer is free for it, a write exactly as long as no write has failed
      and a buffer waits for it. So a healthy session always has one of both outstanding. */
  lemma KeepsEchoing(a: seq<byte>, b: seq<byte>, ms: seq<Move>)
    requires |a| == |b| && Legal(Initial(a, b), ms) && Run(Initial(a, b), ms).optioned
    ensures var s := Run(Initial(a, b), ms);
            && (s.core.reading <==> !s.deaf && s.core.unsent < 2)
            && (s.core.write.Writing? <==> !s.failed && s.core.unsent > 0)
  {
    InvRun(Initial(a, b), ms);
  }

  /** `destroy` is posted exactly when the option could not be set, or a read failed with nothing left
      to send, or a write failed with no read to wait for: never while the session is healthy. */
  lemma DestroyedExactly(a: seq<byte>, b: seq<byte>, ms: seq<Move>)
    requires |a| == |b| && Legal(Initial(a, b), ms) && Run(Initial(a, b), ms).core.started
    ensures var s := Run(Initial(a, b), ms);
            s.core.destroys == 1 <==>
            || !s.optioned
            || (s.deaf && (s.failed || s.core.unsent == 0))
            || (s.failed && s.core.unsent == 2)
  {
    InvRun(Initial(a, b), ms);
  }

  // ---------- the object ----------

  /** `reading`, `readTarget`, `writing`, `writeSource`, `writeLength` and `sent` are the operations
      outstanding in the kernel, `destroys` the posts to the io_service. */
  class Session {
    const left: array<byte>
    const right: array<byte>
    var readData: array<byte>
    var writeData: array<byte>
    var readLength: nat
    var unsentCount: int
    var opCount: int
    var started: bool
    var reading: bool
    var readTarget: array<byte>
    var writing: bool
    var writeSource: array<byte>
    var writeLength: nat
    var sent: nat
    var destroys: nat

    ghost predicate Valid()
      reads this
    {
      && left != right && left.Length == right.Length
      && (readData == left || readData == right) && (writeData == left || writeData == right)
      && readData != writeData
      && (readTarget == left || readTarget == right) && (writeSource == left || writeSource == right)
    }

    ghost function View(): Core
      reads this, left, right
    {
      Core(left[..], right[..], readData == right, readLength, unsentCount, opCount, started, reading, readTarget == right,
           if writing then Writing(writeSource == right, writeLength, sent) else NoWrite, destroys)
    }

    constructor (blockSize: nat)
      ensures Valid() && View() == Fresh(left[..], right[..])
    {
      var a, b := new byte[blockSize], new byte[blockSize];
      left, right := a, b;
      readData, writeData, readTarget, writeSource := a, b, a, b;
      readLength, unsentCount, opCount, sent, writeLength, destroys := 0, 0, 0, 0, 0, 0;
      started, reading, writing := false, false, false;
    }

    method Begin(optionSet: bool)
      requires Valid() && !started
      modifies this
      ensures Valid() && View() == Start(old(View()), optionSet)
    {
      started := true;
      if optionSet {
        opCount := opCount + 1;
        reading, readTarget := true, readData;
      } else {
        destroys := destroys + 1;
      }
    }

    /** The common part of the handlers: with one buffer to send, swap the pointers, then start a
        write and a read. */
    method EchoIfOne()
      requires Valid()
      modifies this
      ensures Valid() && View() == EchoOne(old(View()))
    {
      if unsentCount == 1 {
        opCount := opCount + 2;
        readData, writeData := writeData, readData;
        writing, writeSource, writeLength, sent := true, writeData, readLength, 0;
        reading, readTarget := true, readData;
      }
    }

    method OnRead(err: bool, length: nat)
      requires Valid()
      modifies this
      ensures Valid() && View() == HandleRead(old(View()), err, length)
    {
      opCount, reading := opCount - 1, false;
      if !err {
        GotBytes(length);
        EchoIfOne();
      }
      DestroyIfDone();
    }

    method GotBytes(length: nat)
      requires Valid()
      modifies this`readLength, this`unsentCount
      ensures Valid() && View() == old(View()).(readLength := length, unsent := old(View()).unsent + 1)
    {
      readLength := length;
      unsentCount := unsentCount + 1;
    }

    method DestroyIfDone()
      requires Valid()
      modifies this`destroys
      ensures Valid() && View() == Finish(old(View()))
    {
      if opCount == 0 {
        destroys := destroys + 1;
      }
    }

    method OnWrite(err: bool)
      requires Valid()
      modifies this
      ensures Valid() && View() == HandleWrite(old(View()), err)
    {
      opCount, writing := opCount - 1, false;
      if !err {
        unsentCount := unsentCount - 1;
        EchoIfOne();
      }
      DestroyIfDone();
    }
  }
}
