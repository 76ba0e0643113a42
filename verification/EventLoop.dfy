/** The scheduling of src/EventLoop.cpp: one loop thread, any number of foreign threads that post.

The state holds the two queues, the mutex, the eventfd counter and the position of the loop thread
in `EventLoop::run`; `foreignPosted`, `foreignRun`, `localPosted` and `localDone` are histories that
no step reads. What a callback does besides posting is left to the client of this module.
*/
module EventLoops {
  import opened Bits
  import E = Epoll

  /** The mutex around the pending callbacks; a poster pushes, notifies, then unlocks. */
  datatype Lock = Free | Pushed | Notified

  /** Where the loop thread is: about to call epoll_wait, handling what it returned, running the
      swapped batch, draining the task queue, inside a task that is still at its front, or out of `run`. */
  datatype Phase =
    | Polling
    | Events(notify: bool, ready: E.Mask)
    | Batch
    | Draining
    | InTask
    | Stopped

  datatype Loop<T> = Loop(
    phase: Phase,
    running: bool,
    iterated: bool,
    lock: Lock,
    counter: nat,
    pending: seq<T>,
    batch: seq<T>,
    queue: seq<T>,
    foreignPosted: seq<T>,
    foreignRun: seq<T>,
    localPosted: seq<T>,
    localDone: seq<T>)

  function NewLoop<T>(): Loop<T> {
    Loop(Polling, true, false, Free, 0, [], [], [], [], [], [], [])
  }

  datatype Move<T> =
    | Post(ts: seq<T>)
    | Push(t: T)
    | Notify
    | Unlock
    | Stop
    | Poll(notify: bool, ready: E.Mask)
    | PollFails
    | Leave
    | DrainEventFd
    | Handled(ready: E.Mask)
    | Swap
    | TakeBatch
    | BatchDone
    | BeginFront
    | PopFront
    | QueueDone

  const MAX_COUNTER: nat := 0xffff_ffff_ffff_fffe

  /** eventfd_write(1); at its largest value the counter stays and the failure is only logged. */
  function Bump(counter: nat): (n: nat)
    ensures n > 0
  {
    if counter < MAX_COUNTER then counter + 1 else MAX_COUNTER
  }

  /** The loop thread is inside a callback, or sets up the loop before its first iteration. */
  predicate CallbackRuns<T>(l: Loop<T>) {
    l.phase.Events? || l.phase.Batch? || l.phase.InTask? || (l.phase.Polling? && !l.iterated)
  }

  predicate Enabled<T>(l: Loop<T>, m: Move<T>) {
    match m
    case Post(_) => CallbackRuns(l)
    case Push(_) => l.lock == Free
    case Notify => l.lock == Pushed
    case Unlock => l.lock == Notified
    case Stop => true
    case Poll(notify, _) => l.phase.Polling? && l.running && (notify ==> l.counter > 0)
    case PollFails => l.phase.Polling? && l.running
    case Leave => l.phase.Polling? && !l.running
    case DrainEventFd => l.phase.Events? && l.phase.notify
    case Handled(ready) => l.phase.Events? && ready <= l.phase.ready
    case Swap => l.phase == Events(false, {}) && l.lock == Free
    case TakeBatch => l.phase.Batch? && l.batch != []
    case BatchDone => l.phase.Batch? && l.batch == []
    case BeginFront => l.phase.Draining? && l.queue != []
    case PopFront => l.phase.InTask? && l.queue != []
    case QueueDone => l.phase.Draining? && l.queue == []
  }

  function Apply<T>(l: Loop<T>, m: Move<T>): Loop<T>
    requires Enabled(l, m)
  {
    match m
    case Post(ts) => l.(queue := l.queue + ts, localPosted := l.localPosted + ts)
    case Push(t) => l.(lock := Pushed, pending := l.pending + [t], foreignPosted := l.foreignPosted + [t])
    case Notify => l.(lock := Notified, counter := Bump(l.counter))
    case Unlock => l.(lock := Free)
    case Stop => l.(running := false, counter := Bump(l.counter))
    case Poll(notify, ready) => l.(phase := Events(notify, ready))
    case PollFails => l.(phase := Stopped)
    case Leave => l.(phase := Stopped)
    case DrainEventFd => l.(phase := Events(false, l.phase.ready), counter := 0)
    case Handled(ready) => l.(phase := Events(l.phase.notify, ready))
    case Swap => l.(phase := Batch, batch := l.pending, pending := [])
    case TakeBatch => l.(batch := l.batch[1..], foreignRun := l.foreignRun + [l.batch[0]])
    case BatchDone => l.(phase := Draining)
    case BeginFront => l.(phase := InTask)
    case PopFront => l.(phase := Draining, queue := l.queue[1..], localDone := l.localDone + [l.queue[0]])
    case QueueDone => l.(phase := Polling, iterated := true)
  }

  // ---------- exactly once, in order ----------

  /** In lock order for foreign posts, in call order for posts from the loop thread: what was
      posted is what ran, then what waits. Nothing waits locally at a loop head after an iteration. */
  ghost predicate Fifo<T>(l: Loop<T>) {
    && l.foreignPosted == l.foreignRun + l.batch + l.pending
    && l.localPosted == l.localDone + l.queue
    && (!l.phase.Batch? ==> l.batch == [])
    && (l.phase.Polling? && l.iterated ==> l.queue == [])
  }

  lemma FifoStep<T>(l: Loop<T>, m: Move<T>)
    requires Fifo(l) && Enabled(l, m)
    ensures Fifo(Apply(l, m))
  {
    var l' := Apply(l, m);
    match m
    case TakeBatch =>
      TakeFirst(l.foreignRun, l.batch, l.pending);
    case PopFront =>
      TakeFirst(l.localDone, l.queue, []);
      assert l.localDone + l.queue + [] == l.localDone + l.queue;
      assert l'.localDone + l'.queue + [] == l'.localDone + l'.queue;
    case Post(ts) =>
      Associate(l.localDone, l.queue, ts);
    case Push(t) =>
      Associate(l.foreignRun + l.batch, l.pending, [t]);
    case Swap =>
      assert l.foreignRun + l'.batch + [] == l.foreignRun + [] + l.pending;
    case _ =>
  }

  lemma TakeFirst<T>(a: seq<T>, b: seq<T>, c: seq<T>)
    requires b != []
    ensures (a + [b[0]]) + b[1..] + c == a + b + c
  {
    assert [b[0]] + b[1..] == b;
  }

  // ---------- no lost wakeup ----------

  /** A pending callback is announced by the counter, or its poster still holds the lock and has
      yet to notify, or the loop thread has woken and will swap before it polls again. */
  ghost predicate Awake<T>(l: Loop<T>) {
    l.pending != [] ==> l.counter > 0 || l.lock == Pushed || l.phase.Events?
  }

  lemma AwakeStep<T>(l: Loop<T>, m: Move<T>)
    requires Awake(l) && Enabled(l, m)
    ensures Awake(Apply(l, m))
  {
  }

  // ---------- every run ----------

  predicate Legal<T>(l: Loop<T>, ms: seq<Move<T>>)
    decreases |ms|
  {
    ms == [] || (Enabled(l, ms[0]) && Legal(Apply(l, ms[0]), ms[1..]))
  }

  function Run<T>(l: Loop<T>, ms: seq<Move<T>>): Loop<T>
    requires Legal(l, ms)
    decreases |ms|
  {
    if ms == [] then l else Run(Apply(l, ms[0]), ms[1..])
  }

  lemma {:induction false} RunKeeps<T>(l: Loop<T>, ms: seq<Move<T>>)
    requires Fifo(l) && Awake(l) && Legal(l, ms)
    ensures Fifo(Run(l, ms)) && Awake(Run(l, ms))
    decreases |ms|
  {
    if ms != [] {
      FifoStep(l, ms[0]);
      AwakeStep(l, ms[0]);
      RunKeeps(Apply(l, ms[0]), ms[1..]);
    }
  }

  /** In every run, whenever the loop thread is about to block in epoll_wait with callbacks pending,
      the eventfd counter is positive or a poster that holds the lock has yet to notify. */
  lemma NoLostWakeup<T>(ms: seq<Move<T>>)
    requires Legal(NewLoop(), ms)
    ensures var l := Run(NewLoop(), ms);
            l.phase.Polling? && l.pending != [] ==> l.counter > 0 || l.lock == Pushed
  {
    RunKeeps(NewLoop(), ms);
  }

  /** In every run, each post is run at most once and in order on its channel, and at every loop
      head after an iteration the batch and the task queue have been emptied. */
  lemma ExactlyOnceInOrder<T>(ms: seq<Move<T>>)
    requires Legal(NewLoop(), ms)
    ensures var l := Run(NewLoop(), ms);
            && l.foreignPosted == l.foreignRun + l.batch + l.pending
            && l.localPosted == l.localDone + l.queue
            && (l.phase.Polling? && l.iterated ==> l.batch == [] && l.queue == [])
  {
    RunKeeps(NewLoop(), ms);
  }

  // ---------- everything waiting when the loop wakes runs in that iteration ----------

  /** Of what had been posted on both channels (`foreign`, `local`) when the loop thread woke, the
      foreign part is run or swapped once the events are handled; polling again ends an iteration. */
  ghost predicate Serving<T>(l: Loop<T>, foreign: seq<T>, local: seq<T>) {
    && Fifo(l) && foreign <= l.foreignPosted && local <= l.localPosted
    && (l.phase.Events? || |foreign| <= |l.foreignRun + l.batch|)
    && (l.phase.Polling? ==> l.iterated)
  }

  lemma ServingStep<T>(l: Loop<T>, m: Move<T>, foreign: seq<T>, local: seq<T>)
    requires Serving(l, foreign, local) && Enabled(l, m)
    ensures Serving(Apply(l, m), foreign, local)
  {
    FifoStep(l, m);
  }

  lemma Served<T>(l: Loop<T>, foreign: seq<T>, local: seq<T>)
    requires Serving(l, foreign, local) && l.phase.Polling?
    ensures foreign <= l.foreignRun && local <= l.localDone
  {
    assert l.foreignRun + [] == l.foreignRun && l.localDone + [] == l.localDone;
  }

  lemma {:induction false} ServingRun<T>(l: Loop<T>, ms: seq<Move<T>>, foreign: seq<T>, local: seq<T>)
    requires Serving(l, foreign, local) && Legal(l, ms)
    ensures Serving(Run(l, ms), foreign, local)
    decreases |ms|
  {
    if ms != [] {
      ServingStep(l, ms[0], foreign, local);
      ServingRun(Apply(l, ms[0]), ms[1..], foreign, local);
    }
  }

  /** Whatever has been posted, from any thread, while the loop thread handles events has run when it
      polls next. */
  lemma WaitingRunsBeforePolling<T>(before: seq<Move<T>>, ms: seq<Move<T>>)
    requires Legal(NewLoop(), before) && Run(NewLoop(), before).phase.Events?
    requires Legal(Run(NewLoop(), before), ms) && Run(Run(NewLoop(), before), ms).phase.Polling?
    ensures var l, l' := Run(NewLoop(), before), Run(Run(NewLoop(), before), ms);
            l.foreignPosted <= l'.foreignRun && l.localPosted <= l'.localDone
  {
    var l := Run(NewLoop(), before);
    RunKeeps(NewLoop(), before);
    ServingRun(l, ms, l.foreignPosted, l.localPosted);
    Served(Run(l, ms), l.foreignPosted, l.localPosted);
  }

  // ---------- stopping ----------

  /** Over every run: after a stop the loop never polls again, and it leaves `run` at the next loop head. */
  lemma NeverPollsAfterStop<T>(l: Loop<T>, ms: seq<Move<T>>)
    requires Enabled(l, Stop) && Legal(Apply(l, Stop), ms)
    ensures forall m | m in ms :: !m.Poll? && !m.PollFails?
    ensures Run(Apply(l, Stop), ms).phase.Polling? ==> Enabled(Run(Apply(l, Stop), ms), Leave)
  {
    StoppedRun(Apply(l, Stop), ms);
  }

  lemma {:induction false} StoppedRun<T>(l: Loop<T>, ms: seq<Move<T>>)
    requires !l.running && Legal(l, ms)
    ensures !Run(l, ms).running && forall m | m in ms :: !m.Poll? && !m.PollFails?
    decreases |ms|
  {
    if ms != [] {
      StoppedRun(Apply(l, ms[0]), ms[1..]);
    }
  }

  /** Over every run: once the loop thread has left `run`, because of a stop or because polling failed,
      it runs nothing more. */
  lemma {:induction false} LeavesForGood<T>(l: Loop<T>, m: Move<T>, ms: seq<Move<T>>)
    requires Enabled(l, m) && (m.Leave? || m.PollFails?) && Legal(Apply(l, m), ms)
    ensures var l' := Run(Apply(l, m), ms);
            l'.phase.Stopped? && l'.foreignRun == l.foreignRun && l'.localDone == l.localDone
    decreases |ms|
  {
    OutRun(Apply(l, m), ms);
  }

  lemma {:induction false} OutRun<T>(l: Loop<T>, ms: seq<Move<T>>)
    requires l.phase.Stopped? && Legal(l, ms)
    ensures Run(l, ms) == l.(running := Run(l, ms).running, lock := Run(l, ms).lock, counter := Run(l, ms).counter,
                             pending := Run(l, ms).pending, foreignPosted := Run(l, ms).foreignPosted)
    decreases |ms|
  {
    if ms != [] {
      OutRun(Apply(l, ms[0]), ms[1..]);
    }
  }

  // ---------- the lock ----------

  function Count<T>(ms: seq<Move<T>>, p: Move<T> -> bool): nat {
    if ms == [] then 0 else (if p(ms[0]) then 1 else 0) + Count(ms[1..], p)
  }

  /** Over every run: each foreign post takes the lock, notifies once and gives the lock back; the lock is
      free exactly when every one has, and exactly between its push and its notification is one owed. */
  lemma PostsNotifyOnce<T>(ms: seq<Move<T>>)
    requires Legal(NewLoop(), ms)
    ensures var l := Run(NewLoop(), ms);
            var pushes, notifies, unlocks :=
              Count(ms, (m: Move<T>) => m.Push?), Count(ms, (m: Move<T>) => m.Notify?), Count(ms, (m: Move<T>) => m.Unlock?);
            && |l.foreignPosted| == pushes
            && pushes == notifies + (if l.lock == Pushed then 1 else 0)
            && pushes == unlocks + (if l.lock == Free then 0 else 1)
  {
    LockRun(NewLoop(), ms);
  }

  lemma {:induction false} LockRun<T>(l: Loop<T>, ms: seq<Move<T>>)
    requires Legal(l, ms)
    ensures var l' := Run(l, ms);
            var pushes, notifies, unlocks :=
              Count(ms, (m: Move<T>) => m.Push?), Count(ms, (m: Move<T>) => m.Notify?), Count(ms, (m: Move<T>) => m.Unlock?);
            && |l'.foreignPosted| == |l.foreignPosted| + pushes
            && pushes + (if l.lock == Pushed then 1 else 0) == notifies + (if l'.lock == Pushed then 1 else 0)
            && pushes + (if l.lock == Free then 0 else 1) == unlocks + (if l'.lock == Free then 0 else 1)
    decreases |ms|
  {
    if ms != [] {
      LockRun(Apply(l, ms[0]), ms[1..]);
    }
  }

  // ---------- the notifications ----------

  predicate Announces<T>(m: Move<T>) {
    m.Notify? || m.Stop?
  }

  predicate AnnouncedSinceRead<T>(ms: seq<Move<T>>) {
    exists i :: 0 <= i < |ms| && Announces(ms[i]) && forall j | i < j < |ms| :: !ms[j].DrainEventFd?
  }

  lemma {:induction false} RunExtend<T>(l: Loop<T>, ms: seq<Move<T>>, m: Move<T>)
    requires Legal(l, ms + [m])
    ensures Legal(l, ms) && Enabled(Run(l, ms), m) && Run(l, ms + [m]) == Apply(Run(l, ms), m)
    decreases |ms|
  {
    if ms == [] {
      assert [] + [m] == [m] && [m][1..] == [];
    } else {
      assert (ms + [m])[1..] == ms[1..] + [m];
      RunExtend(Apply(l, ms[0]), ms[1..], m);
    }
  }

  /** Over every run: the eventfd counter is positive exactly when a notification or a stop came after
      it was last read. */
  lemma {:induction false} CounterExactly<T>(ms: seq<Move<T>>)
    requires Legal(NewLoop(), ms)
    ensures Run(NewLoop(), ms).counter > 0 <==> AnnouncedSinceRead(ms)
    decreases |ms|
  {
    if ms != [] {
      var front, m := ms[..|ms| - 1], ms[|ms| - 1];
      assert ms == front + [m];
      RunExtend(NewLoop(), front, m);
      CounterExactly(front);
      if Announces(m) {
        assert Announces(ms[|ms| - 1]);
      } else if !m.DrainEventFd? {
        if AnnouncedSinceRead(front) {
          var i :| 0 <= i < |front| && Announces(front[i]) && forall j | i < j < |front| :: !front[j].DrainEventFd?;
          assert Announces(ms[i]);
        }
        if AnnouncedSinceRead(ms) {
          var i :| 0 <= i < |ms| && Announces(ms[i]) && forall j | i < j < |ms| :: !ms[j].DrainEventFd?;
          assert Announces(front[i]);
        }
      }
    }
  }
}
