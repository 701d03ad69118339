/** The bounded queue in front of a stage (include/sai/pipeline/stage_queue.h) and the lock-free accumulation of its
    dropped-frame count by the stage's worker threads (src/pipeline/pipeline.cpp, Start): every interleaving of
    pushes, pops, reads, compare-exchanges and additions, over any number of starts. */
module DropAccounting {
  import opened Basics

  // ---- The ring: capacity + 1 slots, one of them always empty ----

  datatype Policy = Block | DropOldest | Degrade

  datatype Ring = Ring(capacity: nat, policy: Policy, head: nat, tail: nat, dropped: nat)

  function Next(r: Ring, slot: nat): (next: nat)
    ensures slot <= r.capacity ==> next == if slot == r.capacity then 0 else slot + 1
  {
    (slot + 1) % (r.capacity + 1)
  }

  predicate IsFull(r: Ring) {
    Next(r, r.tail) == r.head
  }

  predicate IsEmpty(r: Ring) {
    r.head == r.tail
  }

  function Depth(r: Ring): int {
    if r.tail >= r.head then r.tail - r.head else r.capacity + 1 - r.head + r.tail
  }

  /** The weak compare-exchange on the head may fail; the item is written all the same. */
  function TryPush(r: Ring, exchanged: bool): Ring {
    if !IsFull(r) then r.(tail := Next(r, r.tail))
    else if !r.policy.DropOldest? then r
    else if exchanged then r.(head := Next(r, r.head), dropped := r.dropped + 1, tail := Next(r, r.tail))
    else r.(tail := Next(r, r.tail))
  }

  function TryPop(r: Ring): Ring {
    if IsEmpty(r) then r else r.(head := Next(r, r.head))
  }

  ghost predicate InRing(r: Ring) {
    r.capacity > 0 && r.head <= r.capacity && r.tail <= r.capacity
  }

  /** What the positions mean: full is depth = capacity; a push that replaces the oldest item keeps the queue full and
      counts one drop; every other push counts none. */
  lemma RingMeaning(r: Ring, exchanged: bool)
    requires InRing(r)
    ensures 0 <= Depth(r) <= r.capacity && (IsFull(r) <==> Depth(r) == r.capacity) && (IsEmpty(r) <==> Depth(r) == 0)
    ensures InRing(TryPush(r, exchanged)) && InRing(TryPop(r))
    ensures Depth(TryPop(r)) == if IsEmpty(r) then 0 else Depth(r) - 1
    ensures !IsFull(r) ==> Depth(TryPush(r, exchanged)) == Depth(r) + 1
    ensures TryPush(r, exchanged).dropped > r.dropped <==> IsFull(r) && r.policy.DropOldest? && exchanged
    ensures TryPush(r, exchanged).dropped > r.dropped ==> Depth(TryPush(r, exchanged)) == r.capacity
  {
  }

  /** If the compare-exchange on a full ring fails although nobody popped, the whole queue is lost and nothing is counted. */
  lemma FailedExchangeLosesTheQueue(r: Ring)
    requires InRing(r) && IsFull(r) && r.policy.DropOldest?
    ensures Depth(r) == r.capacity && Depth(TryPush(r, false)) == 0 && TryPush(r, false).dropped == r.dropped
  {
    RingMeaning(r, false);
  }

  // ---- The queue, its users and the counting threads ----

  /** Where a thread is inside one pass of the accumulation. */
  datatype Thread =
    | Idle
    | Counted(dropped: nat)
    | Comparing(dropped: nat, prev: nat)
    | Won(dropped: nat, prev: nat)

  /** `pushing`: some pusher holds the mutex, between its wait and its push. `earlier`: frames_dropped at the last start.
      `largestRead`: the largest count read since then, a history variable. */
  datatype State = State(ring: Ring, pushing: bool, tracker: nat, framesDropped: nat, threads: seq<Thread>,
                         earlier: nat, largestRead: nat)

  datatype Event =
    | BeginPush                       // PushBlocking, PushBlockingWithStop: locked, and the wait saw room
    | FinishPush(exchanged: bool)     // the push under the lock
    | Pop                             // the blocking pops, under the lock
    | FreePop                         // TryPop without the lock, as Drain calls it
    | DirectPush(exchanged: bool)     // TryPush without the lock; the pipeline never calls it
    | ReadDropped(thread: nat)
    | LoadTracker(thread: nat)
    | GiveUp(thread: nat)
    | ExchangeFails(thread: nat)
    | ExchangeSucceeds(thread: nat)
    | AddDelta(thread: nat)
    | Restart(count: nat)             // all threads joined, and a new Start

  /** Queue creation and the first Start. */
  function Created(capacity: nat, policy: Policy, count: nat): State {
    State(Ring(capacity, policy, 0, 0, 0), false, 0, 0, seq(count, _ => Idle), 0, 0)
  }

  predicate AtRest(s: State) {
    forall i :: 0 <= i < |s.threads| ==> s.threads[i].Idle?
  }

  predicate Can(s: State, e: Event) {
    match e
    case BeginPush => !s.pushing && !IsFull(s.ring)
    case FinishPush(_) => s.pushing
    case Pop => !s.pushing && !IsEmpty(s.ring)
    case FreePop => true
    case DirectPush(_) => true
    case Restart(_) => AtRest(s)
    case _ =>
      e.thread < |s.threads| &&
      var t := s.threads[e.thread];
      match e
      case ReadDropped(_) => t.Idle?
      case LoadTracker(_) => t.Counted?
      case GiveUp(_) => t.Comparing? && t.dropped <= t.prev
      case ExchangeFails(_) => t.Comparing? && t.dropped > t.prev   // also spuriously, when the tracker still equals prev
      case ExchangeSucceeds(_) => t.Comparing? && t.dropped > t.prev && s.tracker == t.prev
      case AddDelta(_) => t.Won?
  }

  function Do(s: State, e: Event): State
    requires Can(s, e)
  {
    match e
    case BeginPush => s.(pushing := true)
    case FinishPush(exchanged) => s.(ring := TryPush(s.ring, exchanged), pushing := false)
    case Pop => s.(ring := TryPop(s.ring))
    case FreePop => s.(ring := TryPop(s.ring))
    case DirectPush(exchanged) => s.(ring := TryPush(s.ring, exchanged))
    case Restart(count) =>
      s.(tracker := 0, threads := seq(count, _ => Idle), earlier := s.framesDropped, largestRead := 0)
    case ReadDropped(i) =>
      s.(threads := s.threads[i := Counted(s.ring.dropped)], largestRead := Max(s.largestRead, s.ring.dropped))
    case LoadTracker(i) => s.(threads := s.threads[i := Comparing(s.threads[i].dropped, s.tracker)])
    case GiveUp(i) => s.(threads := s.threads[i := Idle])
    case ExchangeFails(i) => s.(threads := s.threads[i := Comparing(s.threads[i].dropped, s.tracker)])
    case ExchangeSucceeds(i) =>
      s.(tracker := s.threads[i].dropped, threads := s.threads[i := Won(s.threads[i].dropped, s.threads[i].prev)])
    case AddDelta(i) => s.(framesDropped := s.framesDropped + Share(s.threads[i]), threads := s.threads[i := Idle])
  }

  datatype Outcome = Impossible | Reached(state: State)

  /** Plays a sequence of events; an event that cannot happen makes the run impossible. */
  function Play(start: State, events: seq<Event>): Outcome {
    if events == [] then Reached(start)
    else
      match Play(start, events[..|events| - 1])
      case Impossible => Impossible
      case Reached(s) => if Can(s, events[|events| - 1]) then Reached(Do(s, events[|events| - 1])) else Impossible
  }

  lemma PlayOn(start: State, events: seq<Event>, s: State, e: Event)
    requires Play(start, events) == Reached(s) && Can(s, e)
    ensures Play(start, events + [e]) == Reached(Do(s, e))
  {
    assert (events + [e])[..|events|] == events;
  }

  // ---- Every drop read is added once ----

  /** Deltas won by an exchange but not yet added. */
  function Unadded(threads: seq<Thread>): nat {
    if threads == [] then 0 else Unadded(threads[..|threads| - 1]) + Share(threads[|threads| - 1])
  }

  function Share(t: Thread): nat {
    if t.Won? && t.dropped > t.prev then t.dropped - t.prev else 0
  }

  lemma {:induction false} UnaddedUpdate(threads: seq<Thread>, i: nat, t: Thread)
    requires i < |threads|
    ensures Unadded(threads[i := t]) == Unadded(threads) - Share(threads[i]) + Share(t)
  {
    var front := threads[..|threads| - 1];
    if i < |front| {
      UnaddedUpdate(front, i, t);
      assert threads[i := t][..|threads| - 1] == front[i := t];
    } else {
      assert threads[i := t][..|threads| - 1] == front;
    }
  }

  lemma {:induction false} NothingUnadded(threads: seq<Thread>)
    requires forall i :: 0 <= i < |threads| ==> !threads[i].Won?
    ensures Unadded(threads) == 0
  {
    if threads != [] {
      NothingUnadded(threads[..|threads| - 1]);
    }
  }

  ghost predicate Holds(t: Thread, dropped: nat) {
    (t.Counted? || t.Comparing?) && t.dropped == dropped
  }

  /** Conservation, and who is still responsible for the largest count read. */
  ghost predicate Accounted(s: State) {
    && s.earlier + s.tracker == s.framesDropped + Unadded(s.threads)
    && s.tracker <= s.largestRead <= s.ring.dropped
    && (s.tracker < s.largestRead ==> exists i :: 0 <= i < |s.threads| && Holds(s.threads[i], s.largestRead))
    && forall i :: 0 <= i < |s.threads| ==> ThreadOk(s, s.threads[i])
  }

  ghost predicate ThreadOk(s: State, t: Thread) {
    match t
    case Idle => true
    case Counted(dropped) => dropped <= s.largestRead
    case Comparing(dropped, prev) => dropped <= s.largestRead && prev <= s.tracker
    case Won(dropped, prev) => prev < dropped <= s.tracker
  }

  /** Queue steps touch no counter but the ring's own, which never falls. */
  lemma QueueStepKeepsAccount(s: State, e: Event)
    requires Accounted(s) && Can(s, e) && (e.BeginPush? || e.FinishPush? || e.Pop? || e.FreePop? || e.DirectPush?)
    ensures Accounted(Do(s, e))
  {
  }

  lemma ThreadStepKeepsAccount(s: State, e: Event)
    requires Accounted(s) && Can(s, e) && !(e.BeginPush? || e.FinishPush? || e.Pop? || e.FreePop? || e.DirectPush? || e.Restart?)
    ensures Accounted(Do(s, e))
  {
    var s', i := Do(s, e), e.thread;
    UnaddedUpdate(s.threads, i, s'.threads[i]);
    assert ThreadOk(s, s.threads[i]);
    if s'.tracker < s'.largestRead {
      if e.ReadDropped? && s.ring.dropped > s.largestRead {
        assert Holds(s'.threads[i], s'.largestRead);
      } else {
        var k :| 0 <= k < |s.threads| && Holds(s.threads[k], s.largestRead);
        assert k == i || s'.threads[k] == s.threads[k];
        assert Holds(s'.threads[k], s'.largestRead);
      }
    }
  }

  lemma StepKeepsAccount(s: State, e: Event)
    requires Accounted(s) && Can(s, e)
    ensures Accounted(Do(s, e))
  {
    if e.Restart? {
      NothingUnadded(s.threads);
      NothingUnadded(Do(s, e).threads);
    } else if e.BeginPush? || e.FinishPush? || e.Pop? || e.FreePop? || e.DirectPush? {
      QueueStepKeepsAccount(s, e);
    } else {
      ThreadStepKeepsAccount(s, e);
    }
  }

  lemma {:induction false} RunKeepsAccount(start: State, events: seq<Event>, s: State)
    requires Accounted(start) && Play(start, events) == Reached(s)
    ensures Accounted(s)
  {
    if events != [] {
      var front := events[..|events| - 1];
      var before := Play(start, front).state;
      RunKeepsAccount(start, front, before);
      StepKeepsAccount(before, events[|events| - 1]);
    }
  }

  lemma CreatedIsAccounted(capacity: nat, policy: Policy, count: nat)
    ensures Accounted(Created(capacity, policy, count))
  {
    NothingUnadded(Created(capacity, policy, count).threads);
  }

  /** At every moment the tracker is what has been added since the last start plus what was won and is still to be added;
      no more is ever added than drops occurred. */
  lemma Conservation(capacity: nat, policy: Policy, count: nat, events: seq<Event>, s: State)
    requires Play(Created(capacity, policy, count), events) == Reached(s)
    ensures s.earlier + s.tracker == s.framesDropped + Unadded(s.threads)
    ensures s.framesDropped <= s.earlier + s.largestRead && s.largestRead <= s.ring.dropped
  {
    CreatedIsAccounted(capacity, policy, count);
    RunKeepsAccount(Created(capacity, policy, count), events, s);
  }

  /** When all threads are at rest, frames_dropped has grown since the last start by exactly the largest count read: no
      drop is counted twice and none is lost, whatever the interleaving. */
  lemma AtRestExact(capacity: nat, policy: Policy, count: nat, events: seq<Event>, s: State)
    requires Play(Created(capacity, policy, count), events) == Reached(s) && AtRest(s)
    ensures s.framesDropped == s.earlier + s.largestRead
  {
    CreatedIsAccounted(capacity, policy, count);
    RunKeepsAccount(Created(capacity, policy, count), events, s);
    NothingUnadded(s.threads);
  }

  // ---- Blocking pushes never drop ----

  ghost predicate OnlyBlockingPushes(events: seq<Event>) {
    forall i :: 0 <= i < |events| ==> !events[i].DirectPush?
  }

  /** The pusher inside the lock has room: others can only pop. */
  ghost predicate NothingDropped(s: State) {
    InRing(s.ring) && s.ring.dropped == 0 && s.earlier == 0 && (s.pushing ==> !IsFull(s.ring))
  }

  lemma StepDropsNothing(s: State, e: Event)
    requires NothingDropped(s) && Accounted(s) && Can(s, e) && !e.DirectPush?
    ensures NothingDropped(Do(s, e))
  {
    RingMeaning(s.ring, false);
    RingMeaning(s.ring, true);
    RingMeaning(TryPop(s.ring), true);
  }

  /** As long as frames enter by the blocking pushes only, nothing is dropped under any policy and any number of starts:
      the setting DropOldest never takes effect. */
  lemma {:induction false} BlockingPushesNeverDrop(capacity: nat, policy: Policy, count: nat, events: seq<Event>, s: State)
    requires capacity > 0 && Play(Created(capacity, policy, count), events) == Reached(s) && OnlyBlockingPushes(events)
    ensures NothingDropped(s) && s.framesDropped == 0
  {
    var start := Created(capacity, policy, count);
    CreatedIsAccounted(capacity, policy, count);
    RunKeepsAccount(start, events, s);
    if events != [] {
      var front := events[..|events| - 1];
      var before := Play(start, front).state;
      BlockingPushesNeverDrop(capacity, policy, count, front, before);
      RunKeepsAccount(start, front, before);
      StepDropsNothing(before, events[|events| - 1]);
    }
  }

  // ---- What a push without the lock would do ----

  function Pushes(n: nat): seq<Event> {
    seq(n, _ => DirectPush(true))
  }

  lemma {:induction false} FillingUp(capacity: nat, policy: Policy, count: nat, n: nat)
    requires 0 < capacity && n <= capacity
    ensures var start := Created(capacity, policy, count);
            Play(start, Pushes(n)) == Reached(start.(ring := Ring(capacity, policy, 0, n, 0)))
  {
    if n > 0 {
      FillingUp(capacity, policy, count, n - 1);
      assert Pushes(n)[..n - 1] == Pushes(n - 1);
    }
  }

  lemma OneTooMany(capacity: nat, count: nat)
    requires 0 < capacity
    ensures var start := Created(capacity, DropOldest, count);
            Play(start, Pushes(capacity + 1)) == Reached(start.(ring := Ring(capacity, DropOldest, 1, 0, 1)))
  {
    FillingUp(capacity, DropOldest, count, capacity);
    assert Pushes(capacity + 1)[..capacity] == Pushes(capacity);
  }

  ghost predicate CanDrop(capacity: nat, policy: Policy, count: nat, direct: bool) {
    exists events :: DropsIn(capacity, policy, count, events) && (direct || OnlyBlockingPushes(events))
  }

  ghost predicate DropsIn(capacity: nat, policy: Policy, count: nat, events: seq<Event>) {
    && var outcome := Play(Created(capacity, policy, count), events);
    && outcome.Reached? && outcome.state.ring.dropped > 0
  }

  lemma {:induction false} OthersNeverDrop(capacity: nat, policy: Policy, count: nat, events: seq<Event>, s: State)
    requires policy != DropOldest && Play(Created(capacity, policy, count), events) == Reached(s)
    ensures s.ring.dropped == 0 && s.ring.policy == policy
  {
    if events != [] {
      var front := events[..|events| - 1];
      OthersNeverDrop(capacity, policy, count, front, Play(Created(capacity, policy, count), front).state);
    }
  }

  /** A queue can drop exactly when its policy is DropOldest and somebody pushes without the lock. */
  lemma DropsExactlyWhen(capacity: nat, policy: Policy, count: nat, direct: bool)
    requires capacity > 0
    ensures CanDrop(capacity, policy, count, direct) <==> policy == DropOldest && direct
  {
    if policy == DropOldest && direct {
      OneTooMany(capacity, count);
      assert DropsIn(capacity, policy, count, Pushes(capacity + 1));
    }
    forall events | DropsIn(capacity, policy, count, events)
      ensures policy == DropOldest && !OnlyBlockingPushes(events)
    {
      var s := Play(Created(capacity, policy, count), events).state;
      if policy != DropOldest {
        OthersNeverDrop(capacity, policy, count, events, s);
      }
      if OnlyBlockingPushes(events) {
        BlockingPushesNeverDrop(capacity, policy, count, events, s);
      }
    }
  }

  // ---- A second start ----

  ghost predicate NoRestart(events: seq<Event>) {
    forall i :: 0 <= i < |events| ==> !events[i].Restart?
  }

  lemma {:induction false} EarlierStays(start: State, events: seq<Event>, s: State)
    requires Play(start, events) == Reached(s) && NoRestart(events)
    ensures s.earlier == start.earlier
  {
    if events != [] {
      var front := events[..|events| - 1];
      EarlierStays(start, front, Play(start, front).state);
    }
  }

  lemma {:induction false} PlayConcat(start: State, first: seq<Event>, s: State, second: seq<Event>)
    requires Play(start, first) == Reached(s)
    ensures Play(start, first + second) == Play(s, second)
  {
    if second == [] {
      assert first + second == first;
    } else {
      PlayConcat(start, first, s, second[..|second| - 1]);
      assert (first + second)[..|first + second| - 1] == first + second[..|second| - 1];
    }
  }

  /** The queue's count goes on over a second start but the tracker begins at zero again: the counter then holds what both
      runs read, which is exact if and only if the first had read no drop. Without pushes outside the lock that is so. */
  lemma SecondStartCountsAgain(capacity: nat, policy: Policy, count: nat, first: seq<Event>, s1: State,
                               count2: nat, second: seq<Event>, s2: State)
    requires capacity > 0 && NoRestart(first) && NoRestart(second) && AtRest(s1) && AtRest(s2)
    requires Play(Created(capacity, policy, count), first) == Reached(s1)
    requires Play(Created(capacity, policy, count), first + ([Restart(count2)] + second)) == Reached(s2)
    ensures s2.framesDropped == s1.largestRead + s2.largestRead
    ensures s2.framesDropped == s2.largestRead <==> s1.largestRead == 0
    ensures OnlyBlockingPushes(first) ==> s1.largestRead == 0
  {
    var start := Created(capacity, policy, count);
    AtRestExact(capacity, policy, count, first, s1);
    AtRestExact(capacity, policy, count, first + ([Restart(count2)] + second), s2);
    EarlierStays(start, first, s1);
    PlayConcat(start, first, s1, [Restart(count2)] + second);
    var again := Do(s1, Restart(count2));
    assert Play(s1, [Restart(count2)]) == Reached(again) by {
      PlayOn(s1, [], s1, Restart(count2));
      assert [] + [Restart(count2)] == [Restart(count2)];
    }
    PlayConcat(s1, [Restart(count2)], again, second);
    EarlierStays(again, second, s2);
    if OnlyBlockingPushes(first) {
      BlockingPushesNeverDrop(capacity, policy, count, first, s1);
    }
  }

  /** One pass of thread 0 over the counter. */
  function OnePass(): seq<Event> {
    [ReadDropped(0), LoadTracker(0), ExchangeSucceeds(0), AddDelta(0)]
  }

  /** One event that leaves thread 0, the only one, at t. */
  lemma OnlyThread(s: State, e: Event, t: Thread)
    requires |s.threads| == 1 && Can(s, e) && Do(s, e).threads == s.threads[0 := t]
    ensures Do(s, e).threads == [t]
  {
  }

  lemma OnePassAddsDrops(s: State)
    requires s.threads == [Idle] && s.tracker == 0 && s.ring.dropped > 0 && s.largestRead == 0
    ensures Play(s, OnePass()) ==
            Reached(s.(tracker := s.ring.dropped, framesDropped := s.framesDropped + s.ring.dropped, largestRead := s.ring.dropped))
  {
    var d := s.ring.dropped;
    PlayOn(s, [], s, ReadDropped(0));
    OnlyThread(s, ReadDropped(0), Counted(d));
    var s1 := s.(threads := [Counted(d)], largestRead := d);
    PlayOn(s, [] + [ReadDropped(0)], s1, LoadTracker(0));
    OnlyThread(s1, LoadTracker(0), Comparing(d, 0));
    var s2 := s1.(threads := [Comparing(d, 0)]);
    PlayOn(s, [] + [ReadDropped(0)] + [LoadTracker(0)], s2, ExchangeSucceeds(0));
    OnlyThread(s2, ExchangeSucceeds(0), Won(d, 0));
    var s3 := s2.(threads := [Won(d, 0)], tracker := d);
    PlayOn(s, [] + [ReadDropped(0)] + [LoadTracker(0)] + [ExchangeSucceeds(0)], s3, AddDelta(0));
    OnlyThread(s3, AddDelta(0), Idle);
    assert OnePass() == [] + [ReadDropped(0)] + [LoadTracker(0)] + [ExchangeSucceeds(0)] + [AddDelta(0)];
  }

  /** A run with pushes outside the lock after which one drop is counted twice, for every capacity. */
  lemma OneDropCountedTwice(capacity: nat)
    requires capacity > 0
    ensures exists events, s ::
              Play(Created(capacity, DropOldest, 1), events) == Reached(s) && AtRest(s) && s.ring.dropped == 1 && s.framesDropped == 2
  {
    var start := Created(capacity, DropOldest, 1);
    OneTooMany(capacity, 1);
    var full := start.(ring := Ring(capacity, DropOldest, 1, 0, 1));
    var once := full.(tracker := 1, framesDropped := 1, largestRead := 1);
    assert start.threads == [Idle];
    OnePassAddsDrops(full);
    PlayConcat(start, Pushes(capacity + 1), full, OnePass());
    CountedAgain(start, Pushes(capacity + 1) + OnePass(), once);
  }

  lemma CountedAgain(start: State, events: seq<Event>, once: State)
    requires Play(start, events) == Reached(once)
    requires once.threads == [Idle] && once.framesDropped == 1 && once.ring.dropped == 1
    ensures exists more, s :: Play(start, more) == Reached(s) && AtRest(s) && s.ring.dropped == 1 && s.framesDropped == 2
  {
    PlayOn(start, events, once, Restart(1));
    var again := Do(once, Restart(1));
    assert again.threads == [Idle];
    OnePassAddsDrops(again);
    PlayConcat(start, events + [Restart(1)], again, OnePass());
    var twice := again.(tracker := 1, framesDropped := 2, largestRead := 1);
    assert Play(start, events + [Restart(1)] + OnePass()) == Reached(twice);
  }
}
