/** The positioned byte buffer of src/ByteBuffer.cpp and mutiplex/ByteBuffer.h.

`Buf` is the buffer as a value: one block of memory whose first four bytes hold the capacity in
network order, and the three cursors. The asserts of the source are preconditions here.
*/
module ByteBuffers {
  import opened Bits

  function Header(n: nat): (h: seq<byte>)
    requires n < HALF
    ensures |h| == 4
  {
    [(n / 0x100_0000) as byte, (n / 0x1_0000 % 0x100) as byte, (n / 0x100 % 0x100) as byte, (n % 0x100) as byte]
  }

  datatype Buf = Buf(mem: seq<byte>, limit: int, mark: int, position: int) {

    /** Decoded from the header at every call. */
    function Capacity(): int
      requires |mem| >= 4
    {
      mem[0] as int * 0x100_0000 + mem[1] as int * 0x1_0000 + mem[2] as int * 0x100 + mem[3] as int
    }

    predicate Valid() {
      && |mem| >= 4 && |mem| == Capacity() + 4 && Capacity() < HALF
      && 0 <= position <= limit <= Capacity()
      && (mark == -1 || 0 <= mark <= position)
    }

    function Remaining(): int {
      limit - position
    }
  }

  lemma Digits(n: nat)
    ensures n == n / 0x100_0000 * 0x100_0000 + n / 0x1_0000 % 0x100 * 0x1_0000 + n / 0x100 % 0x100 * 0x100 + n % 0x100
  {
    var a := n / 0x100;
    var b := a / 0x100;
    assert b == n / 0x1_0000 && b / 0x100 == n / 0x100_0000;
    assert n == 0x100 * a + n % 0x100;
    assert a == 0x100 * b + a % 0x100;
    assert b == 0x100 * (b / 0x100) + b % 0x100;
  }

  lemma HeaderDecodes(n: nat, rest: seq<byte>)
    requires n < HALF
    ensures Buf(Header(n) + rest, 0, 0, 0).Capacity() == n
  {
    Digits(n);
    var m := Header(n) + rest;
    assert m[0] == Header(n)[0] && m[1] == Header(n)[1] && m[2] == Header(n)[2] && m[3] == Header(n)[3];
  }

  function NewBuf(capacity: nat, raw: seq<byte>): (b: Buf)
    requires 0 < capacity < HALF && |raw| == capacity
    ensures b.Valid() && b.Capacity() == capacity
  {
    HeaderDecodes(capacity, raw);
    Buf(Header(capacity) + raw, capacity, -1, 0)
  }

  function SetPosition(b: Buf, p: int): Buf
    requires 0 <= p <= b.limit
  {
    b.(position := p, mark := if b.mark > p then -1 else b.mark)
  }

  function SetLimit(b: Buf, limit: int): Buf
    requires b.Valid() && 0 <= limit <= b.Capacity()
  {
    b.(limit := limit, position := if b.position > limit then limit else b.position,
       mark := if b.mark > limit then -1 else b.mark)
  }

  function SetMark(b: Buf): Buf {
    b.(mark := b.position)
  }

  function Reset(b: Buf): Buf
    requires b.mark >= 0
  {
    b.(position := b.mark)
  }

  function Clear(b: Buf): Buf
    requires b.Valid()
  {
    b.(position := 0, limit := b.Capacity(), mark := -1)
  }

  function Flip(b: Buf): Buf {
    b.(limit := b.position, position := 0, mark := -1)
  }

  function Rewind(b: Buf): Buf {
    b.(position := 0, mark := -1)
  }

  function Skip(b: Buf, n: int): Buf
    requires b.Remaining() >= n
  {
    b.(position := b.position + n)
  }

  function Put(b: Buf, src: seq<byte>): Buf
    requires b.Valid() && |src| <= b.Remaining()
  {
    b.(mem := Splice(b.mem, 4 + b.position, src), position := b.position + |src|)
  }

  function Taken(b: Buf, len: nat): nat
    requires b.Valid()
  {
    Min(len, b.Remaining())
  }

  function Get(b: Buf, len: nat): (r: (seq<byte>, Buf))
    requires b.Valid()
  {
    var at, n := 4 + b.position, Taken(b, len);
    (b.mem[at..at + n], b.(position := b.position + n))
  }

  // ---------- every run ----------

  datatype Op =
    | PositionOp(p: int) | LimitOp(l: int) | MarkOp | ResetOp | ClearOp | FlipOp | RewindOp
    | SkipOp(n: nat) | PutOp(src: seq<byte>) | GetOp(len: nat)

  /** The asserts of the source. */
  predicate Permitted(b: Buf, o: Op)
    requires b.Valid()
  {
    match o
    case PositionOp(p) => 0 <= p <= b.limit
    case LimitOp(l) => 0 <= l <= b.Capacity()
    case ResetOp => b.mark >= 0
    case SkipOp(n) => b.Remaining() >= n
    case PutOp(src) => |src| <= b.Remaining()
    case _ => true
  }

  function Apply(b: Buf, o: Op): Buf
    requires b.Valid() && Permitted(b, o)
  {
    match o
    case PositionOp(p) => SetPosition(b, p)
    case LimitOp(l) => SetLimit(b, l)
    case MarkOp => SetMark(b)
    case ResetOp => Reset(b)
    case ClearOp => Clear(b)
    case FlipOp => Flip(b)
    case RewindOp => Rewind(b)
    case SkipOp(n) => Skip(b, n)
    case PutOp(src) => Put(b, src)
    case GetOp(len) => Get(b, len).1
  }

  /** Every operation keeps the cursors in order and the header as it is. */
  lemma ApplyKeeps(b: Buf, o: Op)
    requires b.Valid() && Permitted(b, o)
    ensures Apply(b, o).Valid() && Apply(b, o).mem[..4] == b.mem[..4]
    ensures Apply(b, o).Capacity() == b.Capacity()
  {
  }

  predicate Legal(b: Buf, os: seq<Op>)
    requires b.Valid()
    decreases |os|
  {
    os == [] || (Permitted(b, os[0]) && (ApplyKeeps(b, os[0]); Legal(Apply(b, os[0]), os[1..])))
  }

  function Run(b: Buf, os: seq<Op>): Buf
    requires b.Valid() && Legal(b, os)
    decreases |os|
  {
    if os == [] then b else ApplyKeeps(b, os[0]); Run(Apply(b, os[0]), os[1..])
  }

  lemma {:induction false} RunKeeps(b: Buf, os: seq<Op>)
    requires b.Valid() && Legal(b, os)
    ensures Run(b, os).Valid() && Run(b, os).mem[..4] == b.mem[..4]
    decreases |os|
  {
    if os != [] {
      ApplyKeeps(b, os[0]);
      RunKeeps(Apply(b, os[0]), os[1..]);
    }
  }

  /** `skip` asserts nothing about negative counts: it keeps the cursors in order exactly when it does
      not pass the start of the buffer or the mark. */
  lemma SkipKeepsExactly(b: Buf, n: int)
    requires b.Valid() && n <= b.Remaining()
    ensures Skip(b, n).Valid() <==> b.position + n >= (if b.mark == -1 then 0 else b.mark)
  {
  }

  // ---------- the round trip ----------

  function Joined(chunks: seq<seq<byte>>): seq<byte> {
    if chunks == [] then [] else chunks[0] + Joined(chunks[1..])
  }

  function Total(ns: seq<nat>): nat {
    if ns == [] then 0 else ns[0] + Total(ns[1..])
  }

  function PutAll(b: Buf, chunks: seq<seq<byte>>): Buf
    requires b.Valid() && |Joined(chunks)| <= b.Remaining()
    decreases |chunks|
  {
    if chunks == [] then b
    else
      ApplyKeeps(b, PutOp(chunks[0]));
      PutAll(Put(b, chunks[0]), chunks[1..])
  }

  function GetAll(b: Buf, ns: seq<nat>): seq<byte>
    requires b.Valid()
    decreases |ns|
  {
    if ns == [] then []
    else
      ApplyKeeps(b, GetOp(ns[0]));
      Get(b, ns[0]).0 + GetAll(Get(b, ns[0]).1, ns[1..])
  }

  /** Any chunking of a put lays the same bytes down from the position on. */
  lemma {:induction false} PutAllIsPut(b: Buf, chunks: seq<seq<byte>>)
    requires b.Valid() && |Joined(chunks)| <= b.Remaining()
    ensures PutAll(b, chunks) == Put(b, Joined(chunks))
    decreases |chunks|
  {
    if chunks != [] {
      ApplyKeeps(b, PutOp(chunks[0]));
      PutAllIsPut(Put(b, chunks[0]), chunks[1..]);
      PutTwice(b, chunks[0], Joined(chunks[1..]));
    }
  }

  lemma PutTwice(b: Buf, x: seq<byte>, y: seq<byte>)
    requires b.Valid() && |x| + |y| <= b.Remaining()
    ensures Put(b, x).Valid() && Put(Put(b, x), y) == Put(b, x + y)
  {
    ApplyKeeps(b, PutOp(x));
    SpliceTwice(b.mem, 4 + b.position, x, y);
  }

  lemma SpliceTwice(m: seq<byte>, at: nat, x: seq<byte>, y: seq<byte>)
    requires at + |x| + |y| <= |m|
    ensures Splice(Splice(m, at, x), at + |x|, y) == Splice(m, at, x + y)
  {
  }

  /** Any chunking of a get takes the same bytes. */
  lemma {:induction false} GetAllIsGet(b: Buf, ns: seq<nat>)
    requires b.Valid()
    ensures GetAll(b, ns) == Get(b, Total(ns)).0
    decreases |ns|
  {
    if ns != [] {
      ApplyKeeps(b, GetOp(ns[0]));
      GetAllIsGet(Get(b, ns[0]).1, ns[1..]);
      GetTwice(b, ns[0], Total(ns[1..]));
    }
  }

  lemma GetTwice(b: Buf, m: nat, n: nat)
    requires b.Valid() && Get(b, m).1.Valid()
    ensures Get(b, m).0 + Get(Get(b, m).1, n).0 == Get(b, m + n).0
  {
    JoinSlices(b.mem, 4 + b.position, 4 + b.position + Taken(b, m), 4 + b.position + Taken(b, m + n));
  }

  lemma JoinSlices(m: seq<byte>, i: nat, j: nat, k: nat)
    requires i <= j <= k <= |m|
    ensures m[i..j] + m[j..k] == m[i..k]
  {
  }

  /** Fill a cleared buffer in any chunks, flip it, and read it in any chunks: the same bytes come
      back, as many as were asked for and are there. */
  lemma RoundTrip(b: Buf, chunks: seq<seq<byte>>, ns: seq<nat>)
    requires b.Valid() && b.position == 0 && |Joined(chunks)| <= b.Remaining()
    ensures PutAll(b, chunks).Valid() && Flip(PutAll(b, chunks)).Valid()
    ensures GetAll(Flip(PutAll(b, chunks)), ns) == Joined(chunks)[..Min(Total(ns), |Joined(chunks)|)]
  {
    var all := Joined(chunks);
    PutAllIsPut(b, chunks);
    ApplyKeeps(b, PutOp(all));
    var f := Flip(Put(b, all));
    ApplyKeeps(Put(b, all), FlipOp);
    GetAllIsGet(f, ns);
    SpliceHolds(b.mem, 4, all);
  }

  lemma SpliceHolds(m: seq<byte>, at: nat, src: seq<byte>)
    requires at + |src| <= |m|
    ensures forall n | 0 <= n <= |src| :: Splice(m, at, src)[at..at + n] == src[..n]
  {
  }

  // ---------- moving about ----------

  /** The bytes a get would give: from the position to the limit. */
  function Readable(b: Buf): seq<byte>
    requires b.Valid()
  {
    b.mem[4 + b.position..4 + b.limit]
  }

  /** The bytes of the block from `i` to `j`, without the header. */
  function Stored(b: Buf, i: nat, j: nat): seq<byte>
    requires |b.mem| >= 4 && i <= j <= |b.mem| - 4
  {
    b.mem[4 + i..4 + j]
  }

  /** A get gives a prefix of what is readable and leaves the rest readable. */
  lemma GetTakesReadable(b: Buf, len: nat)
    requires b.Valid()
    ensures Get(b, len).1.Valid()
    ensures Get(b, len).0 == Readable(b)[..Min(len, |Readable(b)|)]
    ensures Get(b, len).0 + Readable(Get(b, len).1) == Readable(b)
  {
    ApplyKeeps(b, GetOp(len));
    var at, n := 4 + b.position, Taken(b, len);
    JoinSlices(b.mem, at, at + n, 4 + b.limit);
    assert b.mem[at..4 + b.limit][..n] == b.mem[at..at + n];
  }

  /** Where the cursor operations lead: a lower limit cuts off the end, and pulls the position back; a
      position is where reading goes on; skipping passes bytes over; rewinding goes back to the start. */
  lemma CursorsSelect(b: Buf, n: nat)
    requires b.Valid()
    ensures n <= b.Capacity() ==>
              SetLimit(b, n).Valid() && Readable(SetLimit(b, n)) == Stored(b, Min(b.position, n), n)
    ensures n <= b.limit ==> SetPosition(b, n).Valid() && Readable(SetPosition(b, n)) == Stored(b, n, b.limit)
    ensures n <= b.Remaining() ==> Skip(b, n).Valid() && Readable(Skip(b, n)) == Readable(b)[n..]
    ensures Rewind(b).Valid() && Readable(Rewind(b)) == Stored(b, 0, b.limit)
    ensures Flip(b).Valid() && Readable(Flip(b)) == Stored(b, 0, b.position)
    ensures Clear(b).Valid() && Readable(Clear(b)) == Stored(b, 0, b.Capacity())
  {
  }

  /** What is read straight into a cleared buffer's memory is, after moving the position behind it and
      flipping, what a reader of the buffer gets. */
  lemma FilledDirectly(b: Buf, bytes: seq<byte>)
    requires b.Valid() && |bytes| <= b.Capacity()
    ensures var c := Clear(b);
            var d := c.(mem := Splice(c.mem, 4 + c.position, bytes));
            d.Valid() && |bytes| <= d.limit && Readable(Flip(SetPosition(d, |bytes|))) == bytes
  {
    var d := Clear(b).(mem := Splice(b.mem, 4, bytes));
    SpliceHolds(b.mem, 4, bytes);
    assert d.mem[4..4 + |bytes|] == bytes[..|bytes|] == bytes;
  }

  /** The operations that only move forward. */
  predicate Forward(o: Op) {
    o.SkipOp? || o.PutOp? || o.GetOp?
  }

  /** After a mark and any run forward, reset goes back to where the mark was set, and again. */
  lemma {:induction false} ResetReturns(b: Buf, os: seq<Op>)
    requires b.Valid() && Legal(b, os) && b.mark >= 0 && forall o | o in os :: Forward(o)
    ensures Run(b, os).Valid() && Permitted(Run(b, os), ResetOp)
    ensures Reset(Run(b, os)).position == b.mark && Reset(Run(b, os)).mark == b.mark
    decreases |os|
  {
    if os != [] {
      ApplyKeeps(b, os[0]);
      assert Forward(os[0]);
      MarkSurvivesExactly(b, os[0]);
      ResetReturns(Apply(b, os[0]), os[1..]);
    }
  }

  /** After a mark, what has been read can be read again. */
  lemma MarkRereads(b: Buf, n: nat)
    requires b.Valid()
    ensures SetMark(b).Valid() && SetMark(b).mark >= 0 && Readable(SetMark(b)) == Readable(b)
    ensures Readable(Reset(Get(SetMark(b), n).1)) == Readable(b)
  {
    ApplyKeeps(b, MarkOp);
    assert Reset(Get(SetMark(b), n).1) == SetMark(b);
  }

  /** A reset is possible after an operation exactly when there is a mark that the operation has neither
      passed nor discarded. */
  lemma MarkSurvivesExactly(b: Buf, o: Op)
    requires b.Valid() && Permitted(b, o)
    ensures Apply(b, o).mark >= 0 <==>
              || o.MarkOp?
              || (b.mark >= 0 && (Forward(o) || o.ResetOp? || (o.PositionOp? && b.mark <= o.p) || (o.LimitOp? && b.mark <= o.l)))
    ensures !o.MarkOp? && Apply(b, o).mark >= 0 ==> Apply(b, o).mark == b.mark
  {
  }

  // ---------- the object ----------

  class ByteBuffer {
    var data: array<byte>
    var limit: int
    var mark: int
    var position: int

    ghost function View(): Buf
      reads this, data
    {
      Buf(data[..], limit, mark, position)
    }

    constructor (capacity: nat)
      requires 0 < capacity < HALF
      ensures fresh(data) && data.Length == capacity + 4
      ensures View() == NewBuf(capacity, data[4..])
    {
      var block := new byte[capacity + 4];
      var h := Header(capacity);
      forall i | 0 <= i < 4 {
        block[i] := h[i];
      }
      data := block;
      limit, mark, position := capacity, -1, 0;
      new;
      assert data[..] == h + data[4..];
    }

    method MoveTo(p: int)
      requires 0 <= p <= limit
      modifies this
      ensures data == old(data) && View() == SetPosition(old(View()), p)
    {
      position := p;
      if mark > position {
        mark := -1;
      }
    }

    method LimitTo(l: int)
      requires View().Valid() && 0 <= l <= View().Capacity()
      modifies this
      ensures data == old(data) && View() == SetLimit(old(View()), l)
    {
      limit := l;
      if position > limit {
        position := limit;
      }
      if mark > limit {
        mark := -1;
      }
    }

    method MarkHere()
      modifies this
      ensures data == old(data) && View() == SetMark(old(View()))
    {
      mark := position;
    }

    method BackToMark()
      requires mark >= 0
      modifies this
      ensures data == old(data) && View() == Reset(old(View()))
    {
      position := mark;
    }

    /** Decodes the header. */
    function Capacity(): int
      requires data.Length >= 4
      reads this, data
    {
      data[0] as int * 0x100_0000 + data[1] as int * 0x1_0000 + data[2] as int * 0x100 + data[3] as int
    }

    method ClearAll()
      requires View().Valid()
      modifies this
      ensures data == old(data) && View() == Clear(old(View()))
    {
      position, limit, mark := 0, Capacity(), -1;
    }

    method FlipOver()
      modifies this
      ensures data == old(data) && View() == Flip(old(View()))
    {
      limit := position;
      position, mark := 0, -1;
    }

    method PutBytes(src: seq<byte>)
      requires View().Valid() && |src| <= limit - position
      modifies this, data
      ensures data == old(data) && View() == Put(old(View()), src)
    {
      forall i | 0 <= i < |src| {
        data[4 + position + i] := src[i];
      }
      position := position + |src|;
    }

    method GetBytes(len: nat) returns (bytes: seq<byte>)
      requires View().Valid()
      modifies this
      ensures data == old(data) && (bytes, View()) == Get(old(View()), len)
    {
      var n := Min(len, limit - position);
      bytes := data[4 + position..4 + position + n];
      position := position + n;
    }
  }
}
