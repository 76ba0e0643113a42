/** Event sources and the kernel's epoll table: src/EventSource.cpp, src/EventSource.h and the
epoll_ctl calls of src/EventLoop.cpp.

`Source` is one source together with the kernel's entry for its descriptor.
*/
module Epoll {

  /** The bits of an event mask. */
  datatype Event = IN | OUT | ERR | HUP

  type Mask = set<Event>

  datatype Entry = Absent | Present(mask: Mask)

  /** One epoll_ctl call; `None` when the operation issues no call. */
  datatype Ctl = None | Add | Mod | Del

  /** Whether the kernel accepts the call for a descriptor with this entry. */
  predicate Accepted(c: Ctl, kernel: Entry) {
    match c
    case None => true
    case Add => kernel.Absent?
    case Mod => kernel.Present?
    case Del => kernel.Present?
  }

  /** The kernel's entry after the call; a refused call is only logged and changes nothing. */
  function Effect(c: Ctl, kernel: Entry, mask: Mask): Entry {
    if !Accepted(c, kernel) then kernel
    else match c
      case None => kernel
      case Add => Present(mask)
      case Mod => Present(mask)
      case Del => Absent
  }

  datatype Source = Source(registered: bool, interest: Mask, kernel: Entry) {

    /** `state_` says exactly whether the kernel knows the descriptor. */
    predicate InStep() {
      registered <==> kernel.Present?
    }

    /** The kernel watches for exactly the interest set. */
    predicate Mirrored() {
      InStep() && kernel == if interest == {} then Absent else Present(interest)
    }
  }

  const NewSource: Source := Source(false, {}, Absent)

  function EnableCtl(s: Source, op: Mask): Ctl {
    if s.interest + op == {} then None else if s.registered then Mod else Add
  }

  function Enable(s: Source, op: Mask): Source {
    var ops := s.interest + op;
    Source(s.registered || ops != {}, ops, Effect(EnableCtl(s, op), s.kernel, ops))
  }

  function DisableCtl(s: Source, op: Mask): Ctl {
    if s.interest - op == {} then Del else Mod
  }

  function Disable(s: Source, op: Mask): Source {
    var ops := s.interest - op;
    Source(s.registered && ops != {}, ops, Effect(DisableCtl(s, op), s.kernel, ops))
  }

  function DisableAllCtl(s: Source): Ctl {
    if s.registered then Del else None
  }

  function DisableAll(s: Source): Source {
    Source(false, {}, Effect(DisableAllCtl(s), s.kernel, {}))
  }

  /** The raw setter: no call to the kernel. */
  function SetInterest(s: Source, ops: Mask): Source {
    s.(interest := ops)
  }

  /** The callbacks `handle_events` runs, in order, for a readiness and the callbacks that are set. */
  function Dispatch(ready: Mask, callbacks: Mask): seq<Event> {
    var both := ready * callbacks;
    if ERR in both then [ERR]
    else if HUP in both then [HUP]
    else (if IN in both then [IN] else []) + (if OUT in both then [OUT] else [])
  }

  /** Before which other callback a callback goes. */
  predicate GoesBefore(e: Event, f: Event) {
    e == IN && f == OUT
  }

  /** For every readiness and every set of callbacks: a callback is called exactly when it is set, its
      event is ready, and no error or hang-up with a callback of its own comes first; the callbacks
      called are all different, and reading goes before writing. */
  lemma DispatchExactly(ready: Mask, callbacks: Mask, e: Event)
    ensures var d, both := Dispatch(ready, callbacks), ready * callbacks;
            && (e in d <==> e in both && (e == ERR || ERR !in both) && (e in {IN, OUT} ==> HUP !in both))
            && forall i, j | 0 <= i < j < |d| :: GoesBefore(d[i], d[j])
  {
  }

  // ---------- every run of a source ----------

  datatype Op = EnableOp(op: Mask) | DisableOp(op: Mask) | DisableAllOp | SetOp(ops: Mask)

  function CtlOf(s: Source, o: Op): Ctl {
    match o
    case EnableOp(op) => EnableCtl(s, op)
    case DisableOp(op) => DisableCtl(s, op)
    case DisableAllOp => DisableAllCtl(s)
    case SetOp(_) => None
  }

  function Apply(s: Source, o: Op): Source {
    match o
    case EnableOp(op) => Enable(s, op)
    case DisableOp(op) => Disable(s, op)
    case DisableAllOp => DisableAll(s)
    case SetOp(ops) => SetInterest(s, ops)
  }

  function Run(s: Source, os: seq<Op>): Source
    decreases |os|
  {
    if os == [] then s else Run(Apply(s, os[0]), os[1..])
  }

  /** The operations as the library issues them: non-empty masks, and the raw setter only with the empty mask. */
  predicate LibraryOp(o: Op) {
    match o
    case EnableOp(op) => op != {}
    case DisableOp(op) => op != {}
    case DisableAllOp => true
    case SetOp(ops) => ops == {}
  }

  /** What every run of library operations keeps: an unregistered source has no interest. */
  predicate Sound(s: Source) {
    s.InStep() && (!s.registered ==> s.interest == {})
  }

  /** ADD goes only to an unregistered source and MOD only to a registered one, so the kernel
      refuses neither. It refuses a DEL exactly when an unregistered source is disabled. */
  lemma SoundStep(s: Source, o: Op)
    requires Sound(s) && LibraryOp(o)
    ensures Sound(Apply(s, o))
    ensures CtlOf(s, o).Add? ==> s.kernel.Absent?
    ensures CtlOf(s, o).Mod? ==> s.kernel.Present?
    ensures Accepted(CtlOf(s, o), s.kernel) <==> !(o.DisableOp? && !s.registered)
  {
  }

  predicate Mentions(o: Op, e: Event) {
    match o
    case EnableOp(op) => e in op
    case DisableOp(op) => e in op
    case _ => true
  }

  predicate AsksFor(o: Op, e: Event) {
    (o.EnableOp? && e in o.op) || (o.SetOp? && e in o.ops)
  }

  /** Bit by bit: an operation decides about the bits it mentions and leaves the others alone. */
  lemma InterestExactly(s: Source, o: Op, e: Event)
    ensures e in Apply(s, o).interest <==> AsksFor(o, e) || (e in s.interest && !Mentions(o, e))
  {
  }

  /** The index of the last operation of the run that mentions the bit, or -1. */
  function LastMention(os: seq<Op>, e: Event): (k: int)
    ensures -1 <= k < |os| && (k >= 0 ==> Mentions(os[k], e))
    ensures forall i | k < i < |os| :: !Mentions(os[i], e)
  {
    if os == [] then -1
    else if Mentions(os[|os| - 1], e) then |os| - 1
    else LastMention(os[..|os| - 1], e)
  }

  /** Over every run: a bit is in the interest set exactly when its last mention asked for it, or when
      it was there and has not been mentioned. */
  lemma {:induction false} LastMentionDecides(s: Source, os: seq<Op>, e: Event)
    ensures var k := LastMention(os, e);
            e in Run(s, os).interest <==> if k < 0 then e in s.interest else AsksFor(os[k], e)
    decreases |os|
  {
    if os != [] {
      var front, o := os[..|os| - 1], os[|os| - 1];
      assert os == front + [o];
      RunAppend(s, front, o);
      InterestExactly(Run(s, front), o, e);
      LastMentionDecides(s, front, e);
    }
  }

  /** Every operation but the raw setter leaves the kernel watching exactly the interest set,
      whether or not it did before. */
  lemma ApplyRestoresMirror(s: Source, o: Op)
    requires Sound(s) && LibraryOp(o) && !o.SetOp?
    ensures Apply(s, o).Mirrored() && Sound(Apply(s, o))
  {
    SoundStep(s, o);
  }

  /** The raw setter breaks the mirror of a mirrored source exactly when it changes the set. */
  lemma SetBreaksMirrorExactly(s: Source, ops: Mask)
    requires s.Mirrored()
    ensures SetInterest(s, ops).Mirrored() <==> ops == s.interest
  {
  }

  predicate LibraryRun(os: seq<Op>) {
    forall o | o in os :: LibraryOp(o)
  }

  /** Along the run, ADD goes only to unknown descriptors and MOD only to known ones. */
  predicate Disciplined(s: Source, os: seq<Op>)
    decreases |os|
  {
    os == [] ||
    ((CtlOf(s, os[0]).Add? || CtlOf(s, os[0]).Mod? ==> Accepted(CtlOf(s, os[0]), s.kernel))
     && Disciplined(Apply(s, os[0]), os[1..]))
  }

  lemma {:induction false} RunIsSound(s: Source, os: seq<Op>)
    requires Sound(s) && LibraryRun(os)
    ensures Sound(Run(s, os)) && Disciplined(s, os)
    decreases |os|
  {
    if os != [] {
      SoundStep(s, os[0]);
      RunIsSound(Apply(s, os[0]), os[1..]);
    }
  }

  lemma {:induction false} RunAppend(s: Source, os: seq<Op>, o: Op)
    ensures Run(s, os + [o]) == Apply(Run(s, os), o)
    decreases |os|
  {
    if os == [] {
      assert [] + [o] == [o] && [o][1..] == [];
    } else {
      assert (os + [o])[1..] == os[1..] + [o];
      RunAppend(Apply(s, os[0]), os[1..], o);
    }
  }

  /** Over every run of library operations from a new source, the mirror holds after each
      operation that is not the raw setter. */
  lemma MirrorAfterEveryRun(os: seq<Op>, o: Op)
    requires LibraryRun(os + [o])
    requires !o.SetOp?
    ensures Run(NewSource, os + [o]).Mirrored()
  {
    assert forall p | p in os :: p in os + [o];
    assert (os + [o])[|os|] == o;
    RunIsSound(NewSource, os);
    RunAppend(NewSource, os, o);
    ApplyRestoresMirror(Run(NewSource, os), o);
  }

  /** After the raw setter every later run of the library is disciplined exactly when the source was
      registered or the mask is empty. */
  lemma RawSetterSafeExactly(s: Source, ops: Mask)
    requires Sound(s)
    ensures (forall os: seq<Op> | LibraryRun(os) :: Disciplined(SetInterest(s, ops), os))
            <==> s.registered || ops == {}
  {
    var s' := SetInterest(s, ops);
    if s.registered || ops == {} {
      forall os: seq<Op> | LibraryRun(os) ensures Disciplined(s', os) {
        RunIsSound(s', os);
      }
    } else {
      var e :| e in ops;
      var o := DisableOp({if e == IN then OUT else IN});
      assert e in s'.interest - o.op;
      assert LibraryRun([o]) && !Disciplined(s', [o]);
    }
  }

  /** For one, a new source: a MOD for an unknown descriptor. */
  lemma RawSetterCanBreakMod()
    ensures var s := SetInterest(NewSource, {IN});
            DisableCtl(s, {OUT}) == Mod && !Accepted(DisableCtl(s, {OUT}), s.kernel)
  {
    assert {IN} - {OUT} == {IN};
  }

  // ---------- the objects ----------

  /** The epoll instance of one event loop. */
  class EpollTable {
    var table: map<int, Mask>

    constructor ()
      ensures table == map[]
    {
      table := map[];
    }

    function EntryOf(fd: int): Entry
      reads this
    {
      if fd in table then Present(table[fd]) else Absent
    }

    /** epoll_ctl; a failure is reported, not raised. */
    method Control(c: Ctl, fd: int, mask: Mask) returns (ok: bool)
      modifies this
      ensures ok == Accepted(c, old(EntryOf(fd)))
      ensures EntryOf(fd) == Effect(c, old(EntryOf(fd)), mask)
      ensures table - {fd} == old(table) - {fd}
    {
      ok := Accepted(c, EntryOf(fd));
      if ok {
        match c
        case None =>
        case Add => table := table[fd := mask];
        case Mod => table := table[fd := mask];
        case Del => table := table - {fd};
      }
    }
  }

  class EventSource {
    const fd: int
    const loop: EpollTable
    var registered: bool
    var interest: Mask
    var ready: Mask

    ghost function View(): Source
      reads this, loop
    {
      Source(registered, interest, loop.EntryOf(fd))
    }

    constructor (fd: int, loop: EpollTable)
      ensures this.fd == fd && this.loop == loop
      ensures !registered && interest == {} && ready == {}
    {
      this.fd := fd;
      this.loop := loop;
      registered, interest, ready := false, {}, {};
    }

    method EnableOps(op: Mask)
      modifies this, loop
      ensures View() == Enable(old(View()), op)
      ensures ready == old(ready) && loop.table - {fd} == old(loop.table) - {fd}
    {
      interest := interest + op;
      if interest != {} {
        if !registered {
          registered := true;
          var _ := loop.Control(Add, fd, interest);
        } else {
          var _ := loop.Control(Mod, fd, interest);
        }
      }
    }

    method DisableOps(op: Mask)
      modifies this, loop
      ensures View() == Disable(old(View()), op)
      ensures ready == old(ready) && loop.table - {fd} == old(loop.table) - {fd}
    {
      interest := interest - op;
      if interest == {} {
        var _ := loop.Control(Del, fd, interest);
        registered := false;
      } else {
        var _ := loop.Control(Mod, fd, interest);
      }
    }

    method DisableEverything()
      modifies this, loop
      ensures View() == DisableAll(old(View()))
      ensures ready == old(ready) && loop.table - {fd} == old(loop.table) - {fd}
    {
      interest := {};
      if registered {
        var _ := loop.Control(Del, fd, interest);
        registered := false;
      }
    }

    /** Which callbacks are called, in which order, and what `handle_events` itself does to the source.
        What the callbacks do is not part of this method: they belong to whoever set them. */
    method HandleEvents(callbacks: Mask) returns (called: seq<Event>)
      modifies this, loop
      ensures called == Dispatch(old(ready), callbacks)
      ensures View() == if {ERR, HUP} !! old(ready) * callbacks then old(View()) else DisableAll(old(View()))
    {
      called := [];
      if ERR in ready && ERR in callbacks {
        called := [ERR];
        DisableEverything();
        return;
      }
      if HUP in ready && HUP in callbacks {
        called := [HUP];
        DisableEverything();
        return;
      }
      if IN in ready && IN in callbacks {
        called := called + [IN];
      }
      if OUT in ready && OUT in callbacks {
        called := called + [OUT];
      }
    }

    method SetInterestOps(ops: Mask)
      modifies this
      ensures View() == SetInterest(old(View()), ops) && ready == old(ready)
    {
      interest := ops;
    }
  }
}
