/** The buffer of src/CircularBuffer.cpp updated in place, each method equal to its function on `Ring` values. */
module CircularBuffers {
  import opened Bits
  import R = Ring

  /** memcpy into a block that the source does not overlap. */
  method Copy(block: array<byte>, at: nat, src: seq<byte>)
    requires at + |src| <= block.Length
    modifies block
    ensures block[..] == Splice(old(block[..]), at, src)
  {
    forall i | 0 <= i < |src| {
      block[at + i] := src[i];
    }
  }

  /** The three copies of the general branch of `resize`. */
  method Unroll(d: seq<byte>, o: nat, len: nat, src: seq<byte>, block: array<byte>)
    requires o < |d| && len <= |d| && len + |src| <= block.Length
    modifies block
    ensures block[..] == R.Unrolled(d, o, len, src, old(block[..]))
  {
    var n := Min(len, |d| - o);
    Copy(block, 0, d[o..o + n]);
    Copy(block, n, d[..len - n]);
    Copy(block, len, src);
  }

  class CircularBuffer {
    var data: array<byte>
    var inPos: uint32
    var outPos: uint32

    ghost function View(): R.Ring
      reads this, data
    {
      R.Ring(data[..], inPos, outPos)
    }

    constructor (capacity: uint32)
      ensures fresh(data) && View() == R.NewRing(capacity, R.Holding(data[..]))
    {
      var cap := if capacity > HALF then HALF else capacity;
      if !IsPowOfTwo(cap) {
        cap := RoundupPowOfTwo(cap);
      }
      inPos, outPos := 0, 0;
      data := new byte[cap];
      new;
      R.BlockHolding(data[..]);
    }

    predicate Empty()
      reads this
    {
      inPos == outPos
    }

    predicate Full()
      reads this
    {
      Sub32(inPos, outPos) == data.Length
    }

    function BufferLen(): uint32
      reads this
    {
      Sub32(inPos, outPos)
    }

    function In(): nat
      reads this
      requires data.Length > 0
    {
      BitAnd(inPos, data.Length - 1)
    }

    function Out(): nat
      reads this
      requires data.Length > 0
    {
      BitAnd(outPos, data.Length - 1)
    }

    method Put(src: seq<byte>) returns (ghost junk: R.Garbage)
      requires View().Valid() && |src| < WORD
      requires View().Remaining() < |src| ==> R.ResizeFits(View(), |src|)
      modifies this, data
      ensures data == old(data) || fresh(data)
      ensures R.Put(old(View()), src, junk) == R.Done(View())
    {
      if Add32(Sub32(data.Length, inPos), outPos) < |src| {
        junk := Resize(src);
        return;
      }
      junk := _ => 0;
      R.IndexFacts(View());
      var at := In();
      var n := Min(|src|, data.Length - at);
      Copy(data, at, src[..n]);
      Copy(data, 0, src[n..]);
      inPos := Add32(inPos, |src|);
    }

    method Resize(src: seq<byte>) returns (ghost junk: R.Garbage)
      requires View().Valid() && |src| < WORD && R.ResizeFits(View(), |src|)
      modifies this
      ensures fresh(data)
      ensures R.Resize(old(View()), src, junk) == R.Done(View())
    {
      var cap := RoundupPowOfTwo(Add32(|src|, data.Length));
      var block := new byte[cap];
      junk := R.Holding(block[..]);
      R.BlockHolding(block[..]);
      var len := BufferLen();
      Move(src, block);
      data := block;
      outPos := 0;
      inPos := Add32(|src|, len);
    }

    /** The copies of `resize` into the new block. */
    method Move(src: seq<byte>, block: array<byte>)
      requires View().Valid() && |src| < WORD && R.ResizeFits(View(), |src|)
      requires block.Length == R.ResizeCapacity(View(), |src|) && block != data
      modifies block
      ensures block[..] == R.Moved(old(View()), src, old(block[..]))
    {
      R.IndexFacts(View());
      if Full() && In() == 0 {
        Copy(block, 0, data[..]);
      } else {
        Unroll(data[..], Out(), BufferLen(), src, block);
      }
    }

    method Get(length: uint32) returns (bytes: seq<byte>)
      requires View().Valid()
      modifies this
      ensures data == old(data)
      ensures (bytes, View()) == R.Get(old(View()), length)
    {
      ghost var was := View();
      R.IndexFacts(was);
      var size := Min(length, BufferLen());
      var n := Min(size, data.Length - Out());
      bytes := data[Out()..Out() + n] + data[..size - n];
      assert bytes == R.TwoSegments(was, size);
      outPos := Add32(outPos, size);
    }

    method Clear()
      modifies this
      ensures data == old(data) && View() == R.Clear(old(View()))
    {
      inPos, outPos := 0, 0;
    }

    /** The bytes handed to write(2), or to writev(2) as two segments. */
    method Offer() returns (offered: seq<byte>)
      requires View().Valid()
      ensures offered == View().Contents()
    {
      ghost var r := View();
      R.IndexFacts(r);
      R.OfferedIsContents(r);
      if Full() && In() == 0 {
        offered := data[..];
        assert r.FullAndAligned();
      } else {
        var n := Min(BufferLen(), data.Length - Out());
        offered := data[Out()..Out() + n] + data[..BufferLen() - n];
        assert !r.FullAndAligned() && offered == R.TwoSegments(r, r.Len());
      }
    }

    /** The kernel answers `count`: negative for an error, else how many of the offered bytes it took. */
    method WriteToFd(count: int) returns (offered: seq<byte>, total: int)
      requires View().Valid() && !Empty()
      requires count <= BufferLen() && count <= R.MAX_RW_COUNT
      modifies this`outPos
      ensures total == count && offered == old(View().Contents())
      ensures View() == if count < 0 then old(View()) else R.Accept(old(View()), count)
      ensures View().Valid()
    {
      offered := Offer();
      if count < 0 {
        return offered, count;
      }
      R.AcceptDropsPrefix(View(), count);
      outPos := Add32(outPos, count);
      total := count;
    }
  }
}
