/** The growable ring buffer of src/CircularBuffer.cpp and mutiplex/CircularBuffer.h.

`Ring` is the buffer as a value: the block of memory and the two free-running 32-bit counters.
Its functions follow the code branch by branch, including the copy that `resize` leaves out, and
`Contents` is the queue of bytes the buffer stands for.
*/
module Ring {
  import opened Bits

  /** What a freshly allocated block of memory happens to hold. */
  type Garbage = nat -> byte

  function Holding(d: seq<byte>): Garbage {
    (i: nat) => if i < |d| then d[i] else 0
  }

  lemma BlockHolding(d: seq<byte>)
    ensures Block(|d|, Holding(d)) == d
  {
  }

  function Block(n: nat, junk: Garbage): seq<byte> {
    seq(n, junk)
  }

  function Rotated(d: seq<byte>, o: nat): (s: seq<byte>)
    requires o <= |d|
    ensures |s| == |d|
  {
    d[o..] + d[..o]
  }

  datatype Ring = Ring(data: seq<byte>, inPos: uint32, outPos: uint32) {

    function Len(): uint32 {
      Sub32(inPos, outPos)
    }

    function Remaining(): uint32
      requires |data| < WORD
    {
      Add32(Sub32(|data|, inPos), outPos)
    }

    predicate Empty() {
      inPos == outPos
    }

    predicate Full() {
      Len() == |data|
    }

    function InIndex(): nat
      requires data != []
    {
      BitAnd(inPos, |data| - 1)
    }

    function OutIndex(): nat
      requires data != []
    {
      BitAnd(outPos, |data| - 1)
    }

    predicate Valid() {
      PowerOfTwo(|data|) && |data| <= HALF && Len() <= |data|
    }

    /** The queue this buffer stands for: the block read round from the read counter. */
    function Contents(): (q: seq<byte>)
      requires Valid()
      ensures |q| == Len()
    {
      Rotated(data, outPos % |data|)[..Len()]
    }

    /** The state in which `resize` takes its special branch. */
    predicate FullAndAligned()
      requires data != []
    {
      Full() && InIndex() == 0
    }
  }

  /** The outcome of an operation that copies into a block of its own choosing. */
  datatype Effect = Done(ring: Ring) | Overrun

  // ---------- construction ----------

  function InitialCapacity(capacity: uint32): (c: uint32) {
    var cap := if capacity > HALF then HALF else capacity;
    if IsPowOfTwo(cap) then cap else Roundup(cap)
  }

  lemma InitialCapacityFits(capacity: uint32)
    ensures PowerOfTwo(InitialCapacity(capacity)) && InitialCapacity(capacity) <= HALF
    ensures capacity <= HALF ==> capacity <= InitialCapacity(capacity)
    ensures PowerOfTwo(capacity) && capacity <= HALF ==> InitialCapacity(capacity) == capacity
  {
    var cap := if capacity > HALF then HALF else capacity;
    IsPowOfTwoIsExact(cap);
  }

  /** For every request that fits 2^31, the capacity is the least power of two that holds it, or 2 for
      a request of nothing; any larger request gets 2^31. */
  lemma InitialCapacityIsLeast(capacity: uint32, p: nat)
    requires PowerOfTwo(p)
    ensures 1 <= capacity <= HALF ==> (capacity <= p <==> InitialCapacity(capacity) <= p)
    ensures capacity == 0 ==> InitialCapacity(capacity) == 2
    ensures capacity > HALF ==> InitialCapacity(capacity) == HALF
  {
    var cap := if capacity > HALF then HALF else capacity;
    IsPowOfTwoIsExact(cap);
    WordIsPower();
    if 2 <= cap {
      RoundupIsLeast(cap, p);
    }
  }

  function NewRing(capacity: uint32, junk: Garbage): (r: Ring)
    ensures r.Valid() && r.Contents() == []
  {
    InitialCapacityFits(capacity);
    Ring(Block(InitialCapacity(capacity), junk), 0, 0)
  }

  // ---------- operations ----------

  /** The branch of `put` that has room: copy up to the end of the block, the rest to its start. */
  function Store(r: Ring, src: seq<byte>): (r': Ring)
    requires r.Valid() && |src| <= r.Remaining()
    ensures |r'.data| == |r.data|
  {
    IndexFacts(r);
    Ring(TwoCopies(r.data, r.InIndex(), src), Add32(r.inPos, |src|), r.outPos)
  }

  /** The first `n` bytes in stored order, read as at most two segments of the block. */
  function TwoSegments(r: Ring, n: nat): (s: seq<byte>)
    requires r.Valid() && n <= r.Len()
    ensures |s| == n
  {
    IndexFacts(r);
    var n1 := Min(n, |r.data| - r.OutIndex());
    r.data[r.OutIndex()..r.OutIndex() + n1] + r.data[..n - n1]
  }

  function ResizeCapacity(r: Ring, n: uint32): uint32
    requires |r.data| < WORD
  {
    Roundup(Add32(n, |r.data|))
  }

  /** The copies made by `resize` stay inside the new block. */
  predicate ResizeFits(r: Ring, n: uint32)
    requires r.Valid()
  {
    if r.FullAndAligned() then |r.data| <= ResizeCapacity(r, n) else r.Len() + n <= ResizeCapacity(r, n)
  }

  /** The general branch of `resize`: the queue as two segments, then the new bytes. */
  function Unrolled(d: seq<byte>, o: nat, len: nat, src: seq<byte>, block: seq<byte>): (b: seq<byte>)
    requires o < |d| && len <= |d| && len + |src| <= |block|
    ensures |b| == |block|
  {
    var n := Min(len, |d| - o);
    Splice(Splice(Splice(block, 0, d[o..o + n]), n, d[..len - n]), len, src)
  }

  /** The new block after the copies of `resize`: the special branch forgets the new bytes. */
  function Moved(r: Ring, src: seq<byte>, block: seq<byte>): (d: seq<byte>)
    requires r.Valid() && |src| < WORD && |block| == ResizeCapacity(r, |src|) && ResizeFits(r, |src|)
    ensures |d| == |block|
  {
    IndexFacts(r);
    if r.FullAndAligned() then Splice(block, 0, r.data)
    else Unrolled(r.data, r.OutIndex(), r.Len(), src, block)
  }

  function Resize(r: Ring, src: seq<byte>, junk: Garbage): (e: Effect)
    requires r.Valid() && |src| < WORD
  {
    if !ResizeFits(r, |src|) then Overrun
    else Done(Ring(Moved(r, src, Block(ResizeCapacity(r, |src|), junk)), Add32(|src|, r.Len()), 0))
  }

  function Put(r: Ring, src: seq<byte>, junk: Garbage): (e: Effect)
    requires r.Valid() && |src| < WORD
  {
    if r.Remaining() < |src| then Resize(r, src, junk) else Done(Store(r, src))
  }

  function Get(r: Ring, length: uint32): (res: (seq<byte>, Ring))
    requires r.Valid()
  {
    var size := Min(length, r.Len());
    (TwoSegments(r, size), r.(outPos := Add32(r.outPos, size)))
  }

  /** The bytes `write_to_fd` hands to the kernel: one block or two segments. */
  function Offered(r: Ring): (s: seq<byte>)
    requires r.Valid()
  {
    if r.FullAndAligned() then r.data else TwoSegments(r, r.Len())
  }

  /** What one write(2) or writev(2) call transfers at most on Linux. */
  const MAX_RW_COUNT: nat := 0x7fff_f000

  /** The kernel took the first `n` offered bytes. */
  function Accept(r: Ring, n: nat): Ring
    requires r.Valid() && n <= r.Len()
  {
    r.(outPos := Add32(r.outPos, n))
  }

  function Clear(r: Ring): Ring {
    r.(inPos := 0, outPos := 0)
  }

  // ---------- the layout ----------

  lemma IndexFacts(r: Ring)
    requires r.Valid()
    ensures r.InIndex() == r.inPos % |r.data| < |r.data|
    ensures r.OutIndex() == r.outPos % |r.data| < |r.data|
    ensures r.Remaining() == |r.data| - r.Len()
  {
    MaskIsModulo(r.inPos, |r.data|);
    MaskIsModulo(r.outPos, |r.data|);
  }

  /** Advancing a counter by at most one lap moves its index, also when the counter wraps at 2^32. */
  lemma AdvanceIndex(x: uint32, n: uint32, m: nat)
    requires PowerOfTwo(m) && n <= m <= HALF
    ensures var k := x % m + n; Add32(x, n) % m == if k < m then k else k - m
  {
    WrapKeepsIndex(x, n, m);
    ModuloShift(x, n, m);
    ModuloStep(x % m, n, m);
  }

  /** One lap at most: the write index lies `Len` bytes after the read index. */
  lemma InIndexWraps(r: Ring)
    requires r.Valid()
    ensures var k := r.OutIndex() + r.Len();
            r.OutIndex() < |r.data| && r.InIndex() == if k < |r.data| then k else k - |r.data|
  {
    IndexFacts(r);
    assert Add32(r.outPos, r.Len()) == r.inPos;
    AdvanceIndex(r.outPos, r.Len(), |r.data|);
  }

  /** Reading by segments reads the queue in order. */
  lemma SegmentsAreContents(r: Ring, n: nat)
    requires r.Valid() && n <= r.Len()
    ensures TwoSegments(r, n) == r.Contents()[..n]
  {
    IndexFacts(r);
    SegmentsOfRotation(r.data, r.OutIndex(), n);
    assert Rotated(r.data, r.OutIndex())[..n] == Rotated(r.data, r.OutIndex())[..r.Len()][..n];
  }

  lemma SegmentsOfRotation(d: seq<byte>, o: nat, n: nat)
    requires o < |d| && n <= |d|
    ensures var n1 := Min(n, |d| - o); d[o..o + n1] + d[..n - n1] == Rotated(d, o)[..n]
  {
  }

  lemma RotationDrop(d: seq<byte>, o: nat, o': nat, n: nat, len: nat)
    requires o < |d| && n <= len <= |d| && o' == if o + n < |d| then o + n else o + n - |d|
    ensures Rotated(d, o')[..len - n] == Rotated(d, o)[..len][n..]
  {
  }

  /** Advancing the read counter drops a prefix, also across the 2^32 wrap. */
  lemma AcceptDropsPrefix(r: Ring, n: nat)
    requires r.Valid() && n <= r.Len()
    ensures Accept(r, n).Valid() && Accept(r, n).Contents() == r.Contents()[n..]
  {
    AdvanceIndex(r.outPos, n, |r.data|);
    RotationDrop(r.data, r.outPos % |r.data|, Accept(r, n).outPos % |r.data|, n, r.Len());
  }

  // ---------- put ----------

  lemma SplicePrefix(block: seq<byte>, d: seq<byte>, n: nat)
    requires |d| <= n <= |block|
    ensures Splice(block, 0, d) == d + block[|d|..n] + block[n..]
  {
  }

  /** Three copies one after the other at the start of a block. */
  lemma ThreeCopies(raw: seq<byte>, a: seq<byte>, b: seq<byte>, c: seq<byte>)
    requires |a| + |b| + |c| <= |raw|
    ensures Splice(Splice(Splice(raw, 0, a), |a|, b), |a| + |b|, c) == a + b + c + raw[|a| + |b| + |c|..]
  {
  }

  /** The two copies of `put`: starting `len` bytes after `o` and going round. */
  function TwoCopies(d: seq<byte>, at: nat, src: seq<byte>): (d': seq<byte>)
    requires at < |d| && |src| <= |d|
    ensures |d'| == |d|
  {
    var n := Min(|src|, |d| - at);
    Splice(Splice(d, at, src[..n]), 0, src[n..])
  }

  lemma TwoCopiesAt(d: seq<byte>, o: nat, len: nat, at: nat, src: seq<byte>, i: nat)
    requires o < |d| && len + |src| <= |d| && i < len + |src|
    requires at == if o + len < |d| then o + len else o + len - |d|
    ensures var k := GoRound(o, i, |d|);
            at < |d| && TwoCopies(d, at, src)[k] == if i < len then d[k] else src[i - len]
  {
  }

  function GoRound(o: nat, i: nat, m: nat): (k: nat)
    requires o < m && i < m
    ensures k < m
  {
    if o + i < m then o + i else o + i - m
  }

  lemma RotatedAt(d: seq<byte>, o: nat, i: nat)
    requires o < |d| && i < |d|
    ensures Rotated(d, o)[i] == d[GoRound(o, i, |d|)]
  {
  }

  /** A block that agrees with `d` on the old queue and with `src` after it stands for the longer queue. */
  lemma RotationAppend(d: seq<byte>, d': seq<byte>, o: nat, len: nat, src: seq<byte>)
    requires o < |d| == |d'| && len + |src| <= |d|
    requires forall i | 0 <= i < len + |src| ::
               d'[GoRound(o, i, |d|)] == if i < len then d[GoRound(o, i, |d|)] else src[i - len]
    ensures Rotated(d', o)[..len + |src|] == Rotated(d, o)[..len] + src
  {
    forall i | 0 <= i < len + |src|
      ensures Rotated(d', o)[i] == if i < len then Rotated(d, o)[i] else src[i - len]
    {
      RotatedAt(d', o, i);
      RotatedAt(d, o, i);
    }
  }

  lemma AppendedContents(r: Ring, r': Ring, src: seq<byte>)
    requires r.Valid() && |src| <= r.Remaining()
    requires |r'.data| == |r.data| && r'.outPos == r.outPos && r'.inPos == Add32(r.inPos, |src|)
    requires forall i | 0 <= i < r.Len() + |src| && i < |r.data| ::
               var k := GoRound(r.outPos % |r.data|, i, |r.data|);
               r'.data[k] == if i < r.Len() then r.data[k] else src[i - r.Len()]
    ensures r'.Valid() && r'.Contents() == r.Contents() + src
  {
    IndexFacts(r);
    RotationAppend(r.data, r'.data, r.OutIndex(), r.Len(), src);
  }

  /** With room, `put` appends, whatever the layout and whether or not the counter wraps. */
  lemma StoreAppends(r: Ring, src: seq<byte>)
    requires r.Valid() && |src| <= r.Remaining()
    ensures Store(r, src).Valid() && Store(r, src).Contents() == r.Contents() + src
  {
    IndexFacts(r);
    forall i | 0 <= i < r.Len() + |src| && i < |r.data|
      ensures var k := GoRound(r.outPos % |r.data|, i, |r.data|);
              Store(r, src).data[k] == if i < r.Len() then r.data[k] else src[i - r.Len()]
    {
      InIndexWraps(r);
      TwoCopiesAt(r.data, r.OutIndex(), r.Len(), r.InIndex(), src, i);
    }
    AppendedContents(r, Store(r, src), src);
  }

  /** A queue copied to the start of a block, with the counters reset, is that queue. */
  lemma Laid(q: seq<byte>, block: seq<byte>)
    requires PowerOfTwo(|block|) && |q| <= |block| <= HALF
    ensures Ring(q + block[|q|..], |q|, 0).Valid() && Ring(q + block[|q|..], |q|, 0).Contents() == q
  {
    var d := q + block[|q|..];
    ModuloUnique(0, |d|, 0, 0);
    assert Rotated(d, 0) == d;
  }

  /** Full and aligned, the block itself is the queue: the special copy agrees with the general one. */
  lemma AlignedBlockIsContents(r: Ring)
    requires r.Valid() && r.FullAndAligned()
    ensures r.data == r.Contents() == TwoSegments(r, r.Len())
  {
    IndexFacts(r);
    InIndexWraps(r);
    SegmentsAreContents(r, r.Len());
    assert Rotated(r.data, 0) == r.data;
  }

  /** What a put needs: the result fits 2^31 bytes, and the special branch of `resize` is not taken. */
  predicate PutAppends(r: Ring, n: nat)
    requires r.Valid()
  {
    r.Len() + n <= HALF && (r.FullAndAligned() ==> n == 0)
  }

  /** The new block is large enough exactly when the bytes fit 2^31. */
  lemma ResizeCapacityFits(r: Ring, n: uint32)
    requires r.Valid() && r.Remaining() < n
    ensures r.Len() + n <= HALF <==> r.Len() + n <= ResizeCapacity(r, n)
    ensures r.Len() + n <= HALF ==> |r.data| <= ResizeCapacity(r, n)
  {
    IndexFacts(r);
    if n + |r.data| >= WORD {
      assert n + |r.data| - WORD < HALF;
      ModuloUnique(n + |r.data|, WORD, 1, n + |r.data| - WORD);
      if r.Len() + n <= HALF {
        assert false;
      }
    }
  }

  /** The general branch: the old queue, then the new bytes. */
  lemma ResizeAppends(r: Ring, src: seq<byte>, junk: Garbage)
    requires r.Valid() && r.Remaining() < |src| && r.Len() + |src| <= HALF && !r.FullAndAligned()
    ensures Resize(r, src, junk).Done? && Resize(r, src, junk).ring.Valid()
    ensures Resize(r, src, junk).ring.Contents() == r.Contents() + src
  {
    ResizeCapacityFits(r, |src|);
    var block := Block(ResizeCapacity(r, |src|), junk);
    IndexFacts(r);
    UnrolledIsLaid(r.data, r.OutIndex(), r.Len(), src, block);
    Laid(r.Contents() + src, block);
  }

  lemma UnrolledIsLaid(d: seq<byte>, o: nat, len: nat, src: seq<byte>, block: seq<byte>)
    requires o < |d| && len <= |d| && len + |src| <= |block|
    ensures Unrolled(d, o, len, src, block) == Rotated(d, o)[..len] + src + block[len + |src|..]
  {
    var n := Min(len, |d| - o);
    ThreeCopies(block, d[o..o + n], d[..len - n], src);
    SegmentsOfRotation(d, o, len);
  }

  /** The special branch: the old queue, then bytes nobody wrote. */
  lemma ResizeForgets(r: Ring, src: seq<byte>, junk: Garbage)
    requires r.Valid() && r.Remaining() < |src| && r.Len() + |src| <= HALF && r.FullAndAligned()
    ensures Resize(r, src, junk).Done? && Resize(r, src, junk).ring.Valid()
    ensures Resize(r, src, junk).ring.Contents() == r.Contents() + Uninitialised(r, |src|, junk)
  {
    ResizeCapacityFits(r, |src|);
    AlignedBlockIsContents(r);
    var block := Block(ResizeCapacity(r, |src|), junk);
    var n := r.Len() + |src|;
    SplicePrefix(block, r.data, n);
    Laid(r.Contents() + Uninitialised(r, |src|, junk), block);
  }

  /** The bytes of the new block that the special branch of `resize` counts but never writes. */
  function Uninitialised(r: Ring, n: uint32, junk: Garbage): (s: seq<byte>)
    requires r.Valid() && r.Remaining() < n && r.Len() + n <= HALF
    ensures |s| == n
  {
    ResizeCapacityFits(r, n);
    Block(ResizeCapacity(r, n), junk)[r.Len()..r.Len() + n]
  }

  /** Up to 2^31 bytes, `put` appends as many bytes as it was given: the right ones, or, from the
      full and aligned state, whatever the new block happened to hold. */
  lemma PutStores(r: Ring, src: seq<byte>, junk: Garbage)
    requires r.Valid() && r.Len() + |src| <= HALF
    ensures Put(r, src, junk).Done? && Put(r, src, junk).ring.Valid()
    ensures PutAppends(r, |src|) ==> Put(r, src, junk).ring.Contents() == r.Contents() + src
    ensures !PutAppends(r, |src|) ==>
              r.Remaining() < |src| &&
              Put(r, src, junk).ring.Contents() == r.Contents() + Uninitialised(r, |src|, junk)
  {
    IndexFacts(r);
    if |src| <= r.Remaining() {
      StoreAppends(r, src);
    } else if r.FullAndAligned() {
      ResizeForgets(r, src, junk);
    } else {
      ResizeAppends(r, src, junk);
    }
  }

  /** The law of `put`: it appends its bytes for every possible allocation exactly when
      `PutAppends` holds before the call. */
  lemma PutAppendsExactly(r: Ring, src: seq<byte>)
    requires r.Valid() && |src| < WORD
    ensures (forall junk: Garbage ::
               var e := Put(r, src, junk);
               e.Done? && e.ring.Valid() && e.ring.Contents() == r.Contents() + src)
            <==> PutAppends(r, |src|)
  {
    IndexFacts(r);
    if PutAppends(r, |src|) {
      forall junk: Garbage
        ensures var e := Put(r, src, junk);
                e.Done? && e.ring.Valid() && e.ring.Contents() == r.Contents() + src
      {
        PutStores(r, src, junk);
      }
    } else if r.Len() + |src| <= HALF {
      var junk := PutForgets(r, src);
    } else {
      PutOutgrows(r, src, _ => 0);
    }
  }

  lemma PutForgets(r: Ring, src: seq<byte>) returns (junk: Garbage)
    requires r.Valid() && r.Len() + |src| <= HALF && !PutAppends(r, |src|)
    ensures Put(r, src, junk).Done? && Put(r, src, junk).ring.Valid()
    ensures Put(r, src, junk).ring.Contents() != r.Contents() + src
  {
    var wrong: byte := if src[0] == 0 then 1 else 0;
    junk := _ => wrong;
    PutStores(r, src, junk);
    assert Uninitialised(r, |src|, junk)[0] == wrong;
    assert Put(r, src, junk).ring.Contents()[r.Len()] == wrong;
  }

  lemma PutOutgrows(r: Ring, src: seq<byte>, junk: Garbage)
    requires r.Valid() && |src| < WORD && r.Len() + |src| > HALF
    ensures Put(r, src, junk).Done? && Put(r, src, junk).ring.Valid() ==>
              Put(r, src, junk).ring.Contents() != r.Contents() + src
  {
    var e := Put(r, src, junk);
    IndexFacts(r);
    if e.Done? && e.ring.Valid() {
      assert |e.ring.Contents()| <= HALF < |r.Contents() + src|;
    }
  }

  // ---------- the shape a put leaves ----------

  /** A put that replaces the block chooses the least power of two that holds the whole old block and
      the new bytes, or 2^31 if none does, and lays the queue down from its start. */
  lemma ResizeCapacityIsLeast(r: Ring, src: seq<byte>, junk: Garbage, p: nat)
    requires r.Valid() && r.Remaining() < |src| && r.Len() + |src| <= HALF && PowerOfTwo(p)
    ensures var r' := Put(r, src, junk).ring;
            && PowerOfTwo(|r'.data|) && r'.outPos == 0
            && (if |r.data| + |src| <= HALF then |r.data| + |src| <= p <==> |r'.data| <= p else |r'.data| == HALF)
  {
    PutStores(r, src, junk);
    if |r.data| + |src| <= HALF {
      RoundupIsLeast(|r.data| + |src|, p);
    }
  }

  /** A put that fits keeps the block and where the queue starts. */
  lemma FittingPutKeepsBlock(r: Ring, src: seq<byte>, junk: Garbage)
    requires r.Valid() && |src| <= r.Remaining()
    ensures Put(r, src, junk).Done?
    ensures |Put(r, src, junk).ring.data| == |r.data| && Put(r, src, junk).ring.outPos == r.outPos
  {
  }

  /** Full and aligned, in terms of the queue: it fills the block from its start. */
  lemma FullAndAlignedExactly(r: Ring)
    requires r.Valid()
    ensures r.FullAndAligned() <==> |r.Contents()| == |r.data| && r.outPos % |r.data| == 0
  {
    IndexFacts(r);
    InIndexWraps(r);
  }

  /** A put that replaces the block leaves it full and aligned exactly when it takes 2^31 bytes or the
      old block was full and, with the new bytes, a power of two. */
  lemma ResizeFillsExactly(r: Ring, src: seq<byte>, junk: Garbage)
    requires r.Valid() && r.Remaining() < |src| && r.Len() + |src| <= HALF
    ensures Put(r, src, junk).Done? && Put(r, src, junk).ring.Valid()
    ensures Put(r, src, junk).ring.FullAndAligned() <==>
              r.Len() + |src| == HALF || (r.Full() && PowerOfTwo(|r.data| + |src|))
  {
    var r' := Resized(r, src, junk);
    LaidFull(r');
    FillsExactly(r.Len(), |r.data|, |src|, |r'.data|);
  }

  lemma Resized(r: Ring, src: seq<byte>, junk: Garbage) returns (r': Ring)
    requires r.Valid() && r.Remaining() < |src| && r.Len() + |src| <= HALF
    ensures Put(r, src, junk) == Done(r') && r'.Valid() && r'.outPos == 0
    ensures |r'.Contents()| == r.Len() + |src| && r.Len() <= |r.data| < r.Len() + |src|
    ensures |r'.data| == if |r.data| + |src| <= HALF then LeastPower(|r.data| + |src|) else HALF
  {
    r' := Put(r, src, junk).ring;
    IndexFacts(r);
    PutStores(r, src, junk);
    ResizeCapacityIsLeast(r, src, junk, 1);
    GrownIsLeast(r, src, junk);
  }

  lemma FillsExactly(len: nat, cap: nat, n: nat, cap': nat)
    requires len <= cap < len + n <= HALF
    requires cap' == if cap + n <= HALF then LeastPower(cap + n) else HALF
    ensures len + n == cap' <==> len + n == HALF || (len == cap && PowerOfTwo(cap + n))
  {
    WordIsPower();
    OwnLeastPower(cap + n);
  }

  /** From the start of the block, full means aligned. */
  lemma LaidFull(r: Ring)
    requires r.Valid() && r.outPos == 0
    ensures r.FullAndAligned() <==> |r.Contents()| == |r.data|
  {
    FullAndAlignedExactly(r);
    ModuloUnique(0, |r.data|, 0, 0);
  }

  lemma OwnLeastPower(n: nat)
    requires n > 0
    ensures LeastPower(n) == n <==> PowerOfTwo(n)
  {
    if PowerOfTwo(n) {
      LeastPowerIsLeast(n, n);
    }
  }

  lemma GrownIsLeast(r: Ring, src: seq<byte>, junk: Garbage)
    requires r.Valid() && r.Remaining() < |src| && r.Len() + |src| <= HALF
    ensures var total := |r.data| + |src|;
            && Put(r, src, junk).Done?
            && |Put(r, src, junk).ring.data| == if total <= HALF then LeastPower(total) else HALF
  {
    var r', total := Put(r, src, junk).ring, |r.data| + |src|;
    WordIsPower();
    PutStores(r, src, junk);
    ResizeCapacityIsLeast(r, src, junk, LeastPower(total));
    if total <= HALF {
      ResizeCapacityIsLeast(r, src, junk, |r'.data|);
      LeastPowerIsLeast(total, |r'.data|);
    }
  }

  /** So after a put that replaced a block that was not full, the next put appends whenever it fits 2^31. */
  lemma NextPutAppends(r: Ring, src: seq<byte>, junk: Garbage, n: nat)
    requires r.Valid() && r.Remaining() < |src| && r.Len() + |src| <= HALF && !r.Full()
    ensures Put(r, src, junk).Done? && Put(r, src, junk).ring.Valid()
    ensures PutAppends(Put(r, src, junk).ring, n) <==> r.Len() + |src| + n <= HALF
  {
    ResizeFillsExactly(r, src, junk);
    PutStores(r, src, junk);
  }

  /** A new buffer filled by a first put of its own, power-of-two length is full and aligned. */
  lemma FirstPutFills(src: seq<byte>, junk: Garbage)
    requires PowerOfTwo(|src|) && |src| <= HALF
    ensures var e := Put(NewRing(|src|, junk), src, junk);
            e.Done? && e.ring.Valid() && e.ring.FullAndAligned()
  {
    var r := NewRing(|src|, junk);
    InitialCapacityFits(|src|);
    StoreAppends(r, src);
    FilledIsAligned(Store(r, src), |src|);
  }

  lemma FilledIsAligned(r: Ring, n: nat)
    requires PowerOfTwo(n) && n <= HALF && |r.data| == n && r.inPos == n && r.outPos == 0
    ensures r.FullAndAligned()
  {
    PowOfTwoTrick(n);
  }

  // ---------- get and the write to the descriptor ----------

  lemma GetTakesPrefix(r: Ring, length: uint32)
    requires r.Valid()
    ensures Get(r, length).1.Valid()
    ensures Get(r, length).0 == r.Contents()[..Min(length, |r.Contents()|)]
    ensures Get(r, length).1.Contents() == r.Contents()[Min(length, |r.Contents()|)..]
  {
    var size := Min(length, r.Len());
    SegmentsAreContents(r, size);
    AcceptDropsPrefix(r, size);
  }

  /** Both branches of `write_to_fd` offer the queue itself. */
  lemma OfferedIsContents(r: Ring)
    requires r.Valid()
    ensures Offered(r) == r.Contents()
  {
    SegmentsAreContents(r, r.Len());
    if r.FullAndAligned() {
      AlignedBlockIsContents(r);
    }
  }

  // ---------- every sequence of operations ----------

  datatype Op = PutOp(src: seq<byte>, junk: Garbage) | GetOp(length: uint32) | ClearOp | SendOp(n: nat)

  /** The operations as `PutAppends` and the kernel permit them, one after the other. */
  ghost predicate Permitted(r: Ring, ops: seq<Op>)
    requires r.Valid()
    decreases |ops|
  {
    ops == [] ||
    match ops[0]
    case PutOp(src, junk) =>
      PutAppends(r, |src|) && (PutStores(r, src, junk); Permitted(Put(r, src, junk).ring, ops[1..]))
    case GetOp(length) =>
      GetTakesPrefix(r, length); Permitted(Get(r, length).1, ops[1..])
    case ClearOp => Permitted(Clear(r), ops[1..])
    case SendOp(n) =>
      n <= r.Len() && (AcceptDropsPrefix(r, n); Permitted(Accept(r, n), ops[1..]))
  }

  /** All bytes taken out by a run, and the buffer it leaves. */
  ghost function RunRing(r: Ring, ops: seq<Op>): (res: (seq<byte>, Ring))
    requires r.Valid() && Permitted(r, ops)
    ensures res.1.Valid()
    decreases |ops|
  {
    if ops == [] then ([], r)
    else match ops[0]
      case PutOp(src, junk) =>
        PutStores(r, src, junk);
        RunRing(Put(r, src, junk).ring, ops[1..])
      case GetOp(length) =>
        GetTakesPrefix(r, length);
        var (taken, r') := Get(r, length);
        var (rest, r'') := RunRing(r', ops[1..]);
        (taken + rest, r'')
      case ClearOp => RunRing(Clear(r), ops[1..])
      case SendOp(n) =>
        AcceptDropsPrefix(r, n);
        var (rest, r') := RunRing(Accept(r, n), ops[1..]);
        (Offered(r)[..n] + rest, r')
  }

  /** The same operations on a plain queue. */
  ghost function RunQueue(q: seq<byte>, ops: seq<Op>): (seq<byte>, seq<byte>)
    decreases |ops|
  {
    if ops == [] then ([], q)
    else match ops[0]
      case PutOp(src, _) => RunQueue(q + src, ops[1..])
      case GetOp(length) =>
        var n := Min(length, |q|);
        var (rest, q') := RunQueue(q[n..], ops[1..]);
        (q[..n] + rest, q')
      case ClearOp => RunQueue([], ops[1..])
      case SendOp(n) =>
        var m := Min(n, |q|);
        var (rest, q') := RunQueue(q[m..], ops[1..]);
        (q[..m] + rest, q')
  }

  /** Over every run, however often the counters wrap and the block is replaced, the buffer gives
      out the bytes a queue would and ends with the queue's contents. */
  lemma {:induction false} RingRefinesQueue(r: Ring, ops: seq<Op>)
    requires r.Valid() && Permitted(r, ops)
    ensures RunRing(r, ops).0 == RunQueue(r.Contents(), ops).0
    ensures RunRing(r, ops).1.Contents() == RunQueue(r.Contents(), ops).1
    decreases |ops|
  {
    if ops != [] {
      match ops[0]
      case PutOp(src, junk) =>
        PutStores(r, src, junk);
        RingRefinesQueue(Put(r, src, junk).ring, ops[1..]);
      case GetOp(length) =>
        GetTakesPrefix(r, length);
        RingRefinesQueue(Get(r, length).1, ops[1..]);
      case ClearOp =>
        assert Clear(r).Contents() == [];
        RingRefinesQueue(Clear(r), ops[1..]);
      case SendOp(n) =>
        AcceptDropsPrefix(r, n);
        OfferedIsContents(r);
        RingRefinesQueue(Accept(r, n), ops[1..]);
    }
  }

  // ---------- which runs lose no byte ----------

  /** How much is buffered, in how large a block, from where on. */
  datatype Shape = Shape(size: nat, capacity: nat, start: nat)

  function ShapeOf(r: Ring): Shape
    requires r.Valid()
  {
    Shape(|r.Contents()|, |r.data|, r.outPos % |r.data|)
  }

  /** A put fits 2^31 and finds the buffer not full from its start; the kernel takes what is there. */
  predicate Keeps(h: Shape, o: Op) {
    match o
    case PutOp(src, _) => h.size + |src| <= HALF && (h.size == h.capacity && h.start == 0 ==> src == [])
    case SendOp(n) => n <= h.size
    case _ => true
  }

  function Dropped(h: Shape, n: nat): Shape
    requires h.capacity > 0 && n <= h.size
  {
    Shape(h.size - n, h.capacity, (h.start + n) % h.capacity)
  }

  /** A put that does not fit moves to the least power of two for the old block and the new bytes. */
  function Reshaped(h: Shape, o: Op): Shape
    requires h.capacity > 0 && Keeps(h, o)
  {
    match o
    case PutOp(src, _) =>
      if h.size + |src| <= h.capacity then h.(size := h.size + |src|)
      else Shape(h.size + |src|, if h.capacity + |src| <= HALF then LeastPower(h.capacity + |src|) else HALF, 0)
    case GetOp(length) => Dropped(h, Min(length, h.size))
    case ClearOp => Shape(0, h.capacity, 0)
    case SendOp(n) => Dropped(h, n)
  }

  predicate AllKeep(h: Shape, ops: seq<Op>)
    requires h.capacity > 0
    decreases |ops|
  {
    ops == [] || (Keeps(h, ops[0]) && AllKeep(Reshaped(h, ops[0]), ops[1..]))
  }

  function FinalShape(h: Shape, ops: seq<Op>): Shape
    requires h.capacity > 0 && AllKeep(h, ops)
    decreases |ops|
  {
    if ops == [] then h else FinalShape(Reshaped(h, ops[0]), ops[1..])
  }

  lemma PutReshapes(r: Ring, src: seq<byte>, junk: Garbage)
    requires r.Valid()
    ensures Keeps(ShapeOf(r), PutOp(src, junk)) <==> PutAppends(r, |src|)
    ensures PutAppends(r, |src|) ==>
              && Put(r, src, junk).Done? && Put(r, src, junk).ring.Valid()
              && ShapeOf(Put(r, src, junk).ring) == Reshaped(ShapeOf(r), PutOp(src, junk))
  {
    FullAndAlignedExactly(r);
    IndexFacts(r);
    if PutAppends(r, |src|) {
      PutStores(r, src, junk);
      if r.Remaining() < |src| {
        var r' := Put(r, src, junk).ring;
        ModuloUnique(0, |r'.data|, 0, 0);
        GrownIsLeast(r, src, junk);
      }
    }
  }

  lemma AcceptReshapes(r: Ring, n: nat)
    requires r.Valid() && n <= r.Len()
    ensures Accept(r, n).Valid() && ShapeOf(Accept(r, n)) == Dropped(ShapeOf(r), n)
  {
    AcceptDropsPrefix(r, n);
    WrapKeepsIndex(r.outPos, n, |r.data|);
    ModuloShift(r.outPos, n, |r.data|);
  }

  /** Whether a run loses a byte, and the shape it leaves, are decided by sizes alone. */
  lemma {:induction false} ShapeDecides(r: Ring, ops: seq<Op>)
    requires r.Valid()
    ensures Permitted(r, ops) <==> AllKeep(ShapeOf(r), ops)
    ensures Permitted(r, ops) ==> ShapeOf(RunRing(r, ops).1) == FinalShape(ShapeOf(r), ops)
    decreases |ops|
  {
    if ops != [] {
      match ops[0]
      case PutOp(src, junk) =>
        PutReshapes(r, src, junk);
        if PutAppends(r, |src|) {
          ShapeDecides(Put(r, src, junk).ring, ops[1..]);
        }
      case GetOp(length) =>
        GetTakesPrefix(r, length);
        AcceptReshapes(r, Min(length, r.Len()));
        ShapeDecides(Get(r, length).1, ops[1..]);
      case ClearOp =>
        ModuloUnique(0, |r.data|, 0, 0);
        ShapeDecides(Clear(r), ops[1..]);
      case SendOp(n) =>
        if n <= r.Len() {
          AcceptReshapes(r, n);
          ShapeDecides(Accept(r, n), ops[1..]);
        }
    }
  }
}
