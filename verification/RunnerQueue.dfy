/**
 How the runner takes commands (ts-apps/cloud-agent/src/runner.ts, with the reader of command-reader.ts):
 polling, dispatching, the serial work queue, `commands.done` writes in flight, crashes and restarts.
 Writes of `commands.done` succeed but take time; a crash may come before any of them.
 */
module RunnerQueue {
  import opened Wrappers
  import opened CommandReaders

  datatype Kind =
    | Message                 // starts a turn
    | Job                     // another queued command: rollback, apply-bundle, add-files
    | Immediate               // handled as soon as it is dispatched
    | Inject                  // joins the active turn, or becomes a turn of its own
    | Abort(target: nat)      // may remove the queued turn of command `target`
    | Stop
    | Unreadable              // skipped by the reader

  datatype Dispatching = Free | Handling(n: nat) | Recording(upTo: nat)

  datatype Working =
    | Idle
    | Marking(n: nat, upTo: nat)   // runQueued waits for commands.done before it runs the turn
    | Turn(n: nat)
    | Running(n: nat)              // a job
    | Closing(upTo: nat)           // the job's command is being recorded

  datatype Harness = Harness(
    handled: Handled,
    delivered: nat,
    batch: seq<nat>,          // polled, not dispatched yet
    dispatching: Dispatching,
    queue: seq<nat>,
    working: Working,
    stopping: bool,
    writing: nat)             // the number that a write of commands.done under way holds, 0 without one

  /** A turn that was started for command `n` while commands.done said `recordedThen`. */
  datatype Started = Started(n: nat, recordedThen: nat) {
    predicate Recorded() {
      n <= recordedThen
    }
  }

  datatype State = State(
    log: seq<Kind>,           // commands 1..|log|
    recorded: nat,            // what commands.done says
    harness: Option<Harness>,
    turns: seq<Started>)      // every turn ever started

  datatype Step =
    | Arrive(kind: Kind)
    | Boot
    | Crash
    | Poll                    // the next announced command is read
    | Dispatch(late: bool)    // take the next polled command; `late`: an inject whose turn has ended
    | DispatchDone            // its handler is through: markHandled
    | DispatchRecorded
    | Drain                   // start the head of the queue
    | StartTurn
    | TurnDone
    | JobDone
    | JobRecorded
    | BeginWrite              // the next write of commands.done takes the latest number
    | Flush                   // it reaches the disk
    | Shutdown

  const Start := State([], 0, None, [])

  predicate IsCommand(log: seq<Kind>, n: nat) {
    1 <= n <= |log|
  }

  function KindOf(log: seq<Kind>, n: nat): Kind
    requires IsCommand(log, n)
  {
    log[n - 1]
  }

  /** What an awaited `markHandled` waits for: `persist` returns at once when `done` does not move. */
  function Awaited(before: Handled, after: Handled): nat {
    if before.done < after.done then after.done else 0
  }

  /** The queue without the turn of command `n`. */
  function Removed(queue: seq<nat>, n: nat): seq<nat> {
    if queue == [] then []
    else if queue[0] == n then queue[1..]
    else [queue[0]] + Removed(queue[1..], n)
  }

  predicate HarnessEnabled(s: State, h: Harness, step: Step) {
    match step
    case Poll => !h.stopping && h.delivered < |s.log|
    case Dispatch(late) =>
      && !h.stopping && h.dispatching.Free? && h.batch != [] && IsCommand(s.log, h.batch[0])
      && (late ==> KindOf(s.log, h.batch[0]).Inject?)
    case DispatchDone => h.dispatching.Handling?
    case DispatchRecorded => h.dispatching.Recording? && h.dispatching.upTo <= s.recorded
    case Drain => !h.stopping && h.working.Idle? && h.queue != [] && IsCommand(s.log, h.queue[0])
    case StartTurn => h.working.Marking? && h.working.upTo <= s.recorded
    case TurnDone => h.working.Turn?
    case JobDone => h.working.Running?
    case JobRecorded => h.working.Closing? && h.working.upTo <= s.recorded
    case BeginWrite => h.writing == 0 && s.recorded < h.handled.done
    case Flush => h.writing > 0
    case _ => true
  }

  predicate Enabled(s: State, step: Step) {
    if step.Arrive? then true
    else if step.Boot? then s.harness.None?
    else s.harness.Some? && HarnessEnabled(s, s.harness.value, step)
  }

  function Booted(recorded: nat): Harness {
    Harness(Handled(recorded, {}), recorded, [], Free, [], Idle, false, 0)
  }

  /** `poll` for one number. */
  function Polled(log: seq<Kind>, h: Harness): Harness
    requires h.delivered < |log|
  {
    var n := h.delivered + 1;
    if KindOf(log, n).Unreadable? then h.(delivered := n, handled := Mark(h.handled, n))
    else h.(delivered := n, batch := h.batch + [n])
  }

  /** The queue holds a turn for `target`, not a job of that number. */
  predicate IsQueuedTurn(log: seq<Kind>, h: Harness, target: nat) {
    target in h.queue && IsCommand(log, target) && !KindOf(log, target).Job?
  }

  /** `dispatch`, up to where it awaits. */
  function Dispatched(s: State, h: Harness, late: bool): Harness
    requires h.batch != [] && IsCommand(s.log, h.batch[0])
  {
    var n := h.batch[0];
    var taken := h.(batch := h.batch[1..]);
    match KindOf(s.log, n)
    case Message => taken.(queue := h.queue + [n])
    case Job => taken.(queue := h.queue + [n])
    case Inject => taken.(dispatching := Handling(n), queue := if late then h.queue + [n] else h.queue)
    case Abort(target) =>
      if IsQueuedTurn(s.log, h, target) then
        taken.(dispatching := Handling(n), queue := Removed(h.queue, target), handled := Mark(h.handled, target))
      else taken.(dispatching := Handling(n))
    case Stop =>
      taken.(queue := [], batch := [], stopping := true, handled := MarkThrough(h.handled, n, h.delivered))
    case _ => taken.(dispatching := Handling(n))
  }

  /** `drain`: the head of the queue goes to work. */
  function Drained(s: State, h: Harness): Harness
    requires h.queue != [] && IsCommand(s.log, h.queue[0])
  {
    var n := h.queue[0];
    var taken := h.(queue := h.queue[1..]);
    if KindOf(s.log, n).Job? then
      taken.(working := Running(n))
    else
      var handled := Mark(h.handled, n);
      taken.(handled := handled, working := Marking(n, Awaited(h.handled, handled)))
  }

  function HarnessAfter(s: State, h: Harness, step: Step): Harness
    requires HarnessEnabled(s, h, step)
  {
    match step
    case Poll => Polled(s.log, h)
    case Dispatch(late) => Dispatched(s, h, late)
    case DispatchDone =>
      var handled := Mark(h.handled, h.dispatching.n);
      h.(handled := handled, dispatching := Recording(Awaited(h.handled, handled)))
    case DispatchRecorded => h.(dispatching := Free)
    case Drain => Drained(s, h)
    case StartTurn => h.(working := Turn(h.working.n))
    case TurnDone => h.(working := Idle)
    case JobDone =>
      var handled := Mark(h.handled, h.working.n);
      h.(handled := handled, working := Closing(Awaited(h.handled, handled)))
    case JobRecorded => h.(working := Idle)
    case BeginWrite => h.(writing := h.handled.done)
    case Flush => h.(writing := 0)
    case Shutdown => h.(queue := [], batch := [], stopping := true)
    case _ => h
  }

  function After(s: State, step: Step): State
    requires Enabled(s, step)
  {
    if step.Arrive? then s.(log := s.log + [step.kind])
    else if step.Boot? then s.(harness := Some(Booted(s.recorded)))
    else if step.Crash? then s.(harness := None)
    else
      var h := s.harness.value;
      State(s.log,
            if step.Flush? then h.writing else s.recorded,
            Some(HarnessAfter(s, h, step)),
            if step.StartTurn? then s.turns + [Started(h.working.n, s.recorded)] else s.turns)
  }

  // ----- The invariant -----

  ghost predicate Increasing(ns: seq<nat>) {
    forall i, j | 0 <= i < j < |ns| :: ns[i] < ns[j]
  }

  /** The commands on their way through the harness stay in number order. */
  ghost predicate InOrder(log: seq<Kind>, h: Harness) {
    && Increasing(h.queue) && Increasing(h.batch)
    && (forall n | n in h.queue :: 1 <= n <= h.delivered)
    && (forall n | n in h.batch :: 1 <= n <= h.delivered)
    && (forall n, m | n in h.queue && m in h.batch :: n < m)
    && (h.dispatching.Handling? ==>
          && IsCommand(log, h.dispatching.n) && h.dispatching.n <= h.delivered
          && !KindOf(log, h.dispatching.n).Message? && !KindOf(log, h.dispatching.n).Job?
          && (forall n | n in h.queue :: n <= h.dispatching.n)
          && (forall m | m in h.batch :: h.dispatching.n < m))
    && (h.working.Running? ==>
          && IsCommand(log, h.working.n) && h.working.n <= h.delivered && KindOf(log, h.working.n).Job?
          && h.working.n !in h.batch && h.working.n !in h.queue)
    && (forall n | n in h.queue && IsCommand(log, n) ::
      KindOf(log, n).Message? || KindOf(log, n).Job? || KindOf(log, n).Inject?)
  }

  /** A command that is not handled yet is somewhere in the harness. */
  ghost predicate Accounted(h: Harness) {
    forall k: nat | h.handled.done < k <= h.delivered && !h.handled.Contains(k) ::
      k in h.batch || k in h.queue || h.dispatching == Handling(k) || h.working == Running(k)
  }

  /** A message waits unhandled until it is taken off the queue, and so does everything not dispatched yet. */
  ghost predicate Waiting(log: seq<Kind>, h: Harness) {
    && (forall n | n in h.queue && IsCommand(log, n) && KindOf(log, n).Message? :: !h.handled.Contains(n))
    && (forall n | n in h.batch :: !h.handled.Contains(n))
  }

  /** No turn that was recorded when it started has been started for `n`. */
  ghost predicate Unstarted(turns: seq<Started>, n: nat) {
    forall t | t in turns && t.Recorded() :: t.n != n
  }

  ghost predicate HarnessInv(log: seq<Kind>, recorded: nat, turns: seq<Started>, h: Harness) {
    && h.handled.Valid()
    && (!h.stopping ==> h.handled.Settled())
    && recorded <= h.handled.done <= h.delivered <= |log|
    && (forall k | k in h.handled.above :: k <= h.delivered)
    && InOrder(log, h)
    && (!h.stopping ==> Accounted(h))
    && (h.stopping ==> h.queue == [] && h.batch == [])
    && Waiting(log, h)
    && (forall n | n in h.queue :: Unstarted(turns, n))
    && (h.writing > 0 ==> recorded < h.writing <= h.handled.done)
    && (h.working.Marking? || h.working.Turn? ==> TurnInFront(log, recorded, h, h.working.n))
    && (!h.stopping ==> forall k | recorded < k <= h.delivered && KindOf(log, k).Stop? :: k in h.batch)
    && (h.working.Marking? ==> Unstarted(turns, h.working.n) && MessageIsMarked(log, h))
  }

  /** The turn that starts or runs is in front of everything that waits, and no `stop` came before it. */
  ghost predicate TurnInFront(log: seq<Kind>, recorded: nat, h: Harness, n: nat) {
    && IsCommand(log, n) && n <= h.delivered
    && (forall m | m in h.queue :: n < m)
    && (forall m | m in h.batch :: n < m)
    && (h.dispatching.Handling? ==> n <= h.dispatching.n)
    && (forall k | recorded < k <= |log| && KindOf(log, k).Stop? :: n < k)
  }

  ghost predicate MessageIsMarked(log: seq<Kind>, h: Harness)
    requires h.working.Marking? && IsCommand(log, h.working.n)
  {
    KindOf(log, h.working.n).Message? ==> h.working.n <= h.working.upTo <= h.handled.done
  }

  /** A turn that was recorded when it started is the last one for its command; a message's always was. */
  ghost predicate TurnsInv(log: seq<Kind>, recorded: nat, turns: seq<Started>) {
    && (forall t | t in turns :: IsCommand(log, t.n) && t.recordedThen <= recorded)
    && (forall t | t in turns && KindOf(log, t.n).Message? :: t.Recorded())
    && (forall i, j | 0 <= i < j < |turns| && turns[i].Recorded() :: turns[i].n != turns[j].n)
  }

  ghost predicate Inv(s: State) {
    && s.recorded <= |s.log|
    && TurnsInv(s.log, s.recorded, s.turns)
    && (s.harness.Some? ==> HarnessInv(s.log, s.recorded, s.turns, s.harness.value))
  }

  // ----- Sequence bookkeeping -----

  lemma {:induction false} RemovedElements(queue: seq<nat>, n: nat)
    requires Increasing(queue)
    ensures Increasing(Removed(queue, n))
    ensures forall m :: m in Removed(queue, n) <==> m in queue && m != n
    decreases |queue|
  {
    if queue != [] {
      assert queue == [queue[0]] + queue[1..];
      TailElements(queue);
      RemovedElements(queue[1..], n);
      if queue[0] != n {
        PrependIncreasing(queue[0], Removed(queue[1..], n));
      }
    }
  }

  lemma PrependIncreasing(n: nat, ns: seq<nat>)
    requires Increasing(ns) && forall m | m in ns :: n < m
    ensures Increasing([n] + ns)
  {
    forall i, j | 0 <= i < j < |[n] + ns| ensures ([n] + ns)[i] < ([n] + ns)[j] {
      assert ns[j - 1] in ns;
    }
  }

  lemma TailElements(ns: seq<nat>)
    requires Increasing(ns) && ns != []
    ensures Increasing(ns[1..])
    ensures forall m :: m in ns[1..] <==> m in ns && m != ns[0]
    ensures forall m | m in ns[1..] :: ns[0] < m
  {
    assert ns == [ns[0]] + ns[1..];
  }

  lemma AppendElements(ns: seq<nat>, n: nat)
    requires Increasing(ns) && forall m | m in ns :: m < n
    ensures Increasing(ns + [n])
    ensures forall m :: m in ns + [n] <==> m in ns || m == n
  {
    forall i, j | 0 <= i < j < |ns + [n]| ensures (ns + [n])[i] < (ns + [n])[j] {
      assert ns[i] in ns;
    }
  }

  /** Marking a delivered command keeps everything marked below `delivered`. */
  lemma MarkStaysDelivered(h: Handled, n: nat, delivered: nat)
    requires h.Valid() && h.done <= delivered && n <= delivered
    requires forall k | k in h.above :: k <= delivered
    ensures Mark(h, n).done <= delivered
    ensures forall k | k in Mark(h, n).above :: k <= delivered
  {
    var h' := Mark(h, n);
    assert h'.Contains(h'.done);
    assert forall k | k in h'.above :: h'.Contains(k);
  }

  // ----- Every step keeps the invariant -----

  lemma PollSkipsKeeps(s: State, h: Harness)
    requires HarnessInv(s.log, s.recorded, s.turns, h) && HarnessEnabled(s, h, Poll)
    requires KindOf(s.log, h.delivered + 1).Unreadable?
    ensures HarnessInv(s.log, s.recorded, s.turns, Polled(s.log, h))
  {
    MarkStaysDelivered(h.handled, h.delivered + 1, h.delivered + 1);
    hide Mark;
  }

  lemma PollReadsKeeps(s: State, h: Harness)
    requires HarnessInv(s.log, s.recorded, s.turns, h) && HarnessEnabled(s, h, Poll)
    requires !KindOf(s.log, h.delivered + 1).Unreadable?
    ensures HarnessInv(s.log, s.recorded, s.turns, Polled(s.log, h))
  {
    AppendElements(h.batch, h.delivered + 1);
    hide Mark, Increasing;
  }

  lemma PollKeeps(s: State, h: Harness)
    requires HarnessInv(s.log, s.recorded, s.turns, h) && HarnessEnabled(s, h, Poll)
    ensures HarnessInv(s.log, s.recorded, s.turns, Polled(s.log, h))
  {
    hide HarnessInv, Polled;
    if KindOf(s.log, h.delivered + 1).Unreadable? {
      PollSkipsKeeps(s, h);
    } else {
      PollReadsKeeps(s, h);
    }
  }

  lemma DispatchAbortKeeps(s: State, h: Harness, late: bool)
    requires HarnessInv(s.log, s.recorded, s.turns, h) && HarnessEnabled(s, h, Dispatch(late))
    requires TurnsInv(s.log, s.recorded, s.turns)
    requires KindOf(s.log, h.batch[0]).Abort?
    ensures HarnessInv(s.log, s.recorded, s.turns, Dispatched(s, h, late))
  {
    var target := KindOf(s.log, h.batch[0]).target;
    TailElements(h.batch);
    assert h.batch[0] in h.batch;
    if IsQueuedTurn(s.log, h, target) {
      DispatchAbortRemoves(s, h, late, target);
    }
  }

  /** The queued turn of another command is taken out and its command marked. */
  lemma DispatchAbortRemoves(s: State, h: Harness, late: bool, target: nat)
    requires HarnessInv(s.log, s.recorded, s.turns, h) && HarnessEnabled(s, h, Dispatch(late))
    requires KindOf(s.log, h.batch[0]) == Abort(target) && IsQueuedTurn(s.log, h, target)
    ensures HarnessInv(s.log, s.recorded, s.turns, Dispatched(s, h, late))
  {
    TailElements(h.batch);
    assert h.batch[0] in h.batch;
    RemovedElements(h.queue, target);
    MarkStaysDelivered(h.handled, target, h.delivered);
    assert target < h.batch[0];
    hide Mark, Removed, Increasing;
  }

  lemma DispatchQueuedKeeps(s: State, h: Harness, late: bool)
    requires HarnessInv(s.log, s.recorded, s.turns, h) && HarnessEnabled(s, h, Dispatch(late))
    requires TurnsInv(s.log, s.recorded, s.turns)
    requires var k := KindOf(s.log, h.batch[0]); k.Message? || k.Job? || k.Inject?
    ensures HarnessInv(s.log, s.recorded, s.turns, Dispatched(s, h, late))
  {
    TailElements(h.batch);
    assert h.batch[0] in h.batch;
    AppendElements(h.queue, h.batch[0]);
    assert Unstarted(s.turns, h.batch[0]);
  }

  lemma DispatchStopKeeps(s: State, h: Harness, late: bool)
    requires HarnessInv(s.log, s.recorded, s.turns, h) && HarnessEnabled(s, h, Dispatch(late))
    requires KindOf(s.log, h.batch[0]).Stop?
    ensures HarnessInv(s.log, s.recorded, s.turns, Dispatched(s, h, late))
  {
    TailElements(h.batch);
    assert h.batch[0] in h.batch;
  }

  lemma DispatchImmediateKeeps(s: State, h: Harness, late: bool)
    requires HarnessInv(s.log, s.recorded, s.turns, h) && HarnessEnabled(s, h, Dispatch(late))
    requires KindOf(s.log, h.batch[0]).Immediate? || KindOf(s.log, h.batch[0]).Unreadable?
    ensures HarnessInv(s.log, s.recorded, s.turns, Dispatched(s, h, late))
  {
    TailElements(h.batch);
    assert h.batch[0] in h.batch;
  }

  lemma DispatchKeeps(s: State, h: Harness, late: bool)
    requires HarnessInv(s.log, s.recorded, s.turns, h) && HarnessEnabled(s, h, Dispatch(late))
    requires TurnsInv(s.log, s.recorded, s.turns)
    ensures HarnessInv(s.log, s.recorded, s.turns, Dispatched(s, h, late))
  {
    hide HarnessInv, TurnsInv, Dispatched;
    match KindOf(s.log, h.batch[0])
    case Message => DispatchQueuedKeeps(s, h, late);
    case Job => DispatchQueuedKeeps(s, h, late);
    case Inject => DispatchQueuedKeeps(s, h, late);
    case Abort(_) => DispatchAbortKeeps(s, h, late);
    case Stop => DispatchStopKeeps(s, h, late);
    case Immediate => DispatchImmediateKeeps(s, h, late);
    case Unreadable => DispatchImmediateKeeps(s, h, late);
  }

  lemma DispatchDoneKeeps(s: State, h: Harness)
    requires HarnessInv(s.log, s.recorded, s.turns, h) && HarnessEnabled(s, h, DispatchDone)
    ensures HarnessInv(s.log, s.recorded, s.turns, HarnessAfter(s, h, DispatchDone))
  {
    MarkStaysDelivered(h.handled, h.dispatching.n, h.delivered);
  }

  lemma JobDoneKeeps(s: State, h: Harness)
    requires HarnessInv(s.log, s.recorded, s.turns, h) && HarnessEnabled(s, h, JobDone)
    ensures HarnessInv(s.log, s.recorded, s.turns, HarnessAfter(s, h, JobDone))
  {
    MarkStaysDelivered(h.handled, h.working.n, h.delivered);
  }

  /** When the head of the queue starts, everything before it has been handled. */
  lemma HeadIsNext(s: State, h: Harness)
    requires HarnessInv(s.log, s.recorded, s.turns, h) && HarnessEnabled(s, h, Drain)
    requires !h.handled.Contains(h.queue[0])
    ensures h.handled.done + 1 == h.queue[0]
  {
    var next, head := h.handled.done + 1, h.queue[0];
    assert head in h.queue;
    TailElements(h.queue);
    assert next <= head <= h.delivered;
    assert !h.handled.Contains(next);
    assert next in h.queue ==> next == head || head < next;
  }

  /** The head leaves the queue and is marked. */
  lemma DrainedWaits(s: State, h: Harness)
    requires HarnessInv(s.log, s.recorded, s.turns, h) && HarnessEnabled(s, h, Drain)
    ensures Waiting(s.log, Drained(s, h))
  {
    TailElements(h.queue);
    assert h.queue[0] in h.queue;
  }

  lemma DrainedAccounts(s: State, h: Harness)
    requires HarnessInv(s.log, s.recorded, s.turns, h) && HarnessEnabled(s, h, Drain)
    ensures Accounted(Drained(s, h))
  {
    TailElements(h.queue);
  }

  lemma DrainedIsInOrder(s: State, h: Harness)
    requires HarnessInv(s.log, s.recorded, s.turns, h) && HarnessEnabled(s, h, Drain)
    ensures InOrder(s.log, Drained(s, h)) && h.queue[0] in h.queue
    ensures forall m | m in Drained(s, h).queue :: m in h.queue && h.queue[0] < m
  {
    TailElements(h.queue);
  }

  lemma DrainKeeps(s: State, h: Harness)
    requires Inv(s) && s.harness == Some(h) && HarnessEnabled(s, h, Drain)
    ensures HarnessInv(s.log, s.recorded, s.turns, Drained(s, h))
  {
    DrainedWaits(s, h);
    DrainedAccounts(s, h);
    DrainedIsInOrder(s, h);
    MarkStaysDelivered(h.handled, h.queue[0], h.delivered);
    if KindOf(s.log, h.queue[0]).Message? {
      HeadIsNext(s, h);
    }
    hide Waiting, Accounted, InOrder, Mark;
  }

  lemma StartTurnKeepsTurns(log: seq<Kind>, recorded: nat, turns: seq<Started>, n: nat)
    requires TurnsInv(log, recorded, turns) && IsCommand(log, n) && Unstarted(turns, n)
    requires KindOf(log, n).Message? ==> n <= recorded
    ensures TurnsInv(log, recorded, turns + [Started(n, recorded)])
    ensures forall m | m != n && Unstarted(turns, m) :: Unstarted(turns + [Started(n, recorded)], m)
  {
    var more := turns + [Started(n, recorded)];
    forall i, j | 0 <= i < j < |more| && more[i].Recorded() ensures more[i].n != more[j].n {
      assert turns[i] in turns;
    }
  }

  lemma StartTurnKeeps(s: State)
    requires Inv(s) && Enabled(s, StartTurn)
    ensures Inv(After(s, StartTurn))
  {
    StartTurnKeepsTurns(s.log, s.recorded, s.turns, s.harness.value.working.n);
  }

  lemma WriteKeeps(s: State, step: Step)
    requires Inv(s) && Enabled(s, step) && (step.BeginWrite? || step.Flush?)
    ensures Inv(After(s, step))
  {
  }

  lemma ArriveKeeps(s: State, kind: Kind)
    requires Inv(s)
    ensures Inv(After(s, Arrive(kind)))
  {
    var log' := s.log + [kind];
    assert forall k | 1 <= k <= |s.log| :: KindOf(log', k) == KindOf(s.log, k);
    if s.harness.Some? {
      ArriveKeepsHarness(s, s.harness.value, kind);
    }
  }

  lemma ArriveKeepsHarness(s: State, h: Harness, kind: Kind)
    requires HarnessInv(s.log, s.recorded, s.turns, h)
    ensures HarnessInv(s.log + [kind], s.recorded, s.turns, h)
  {
    var log' := s.log + [kind];
    assert forall k | 1 <= k <= |s.log| :: KindOf(log', k) == KindOf(s.log, k);
    if h.working.Marking? || h.working.Turn? {
      var n := h.working.n;
      assert TurnInFront(s.log, s.recorded, h, n);
      forall k | s.recorded < k <= |log'| && KindOf(log', k).Stop? ensures n < k {
        assert k <= |s.log| ==> KindOf(s.log, k).Stop?;
      }
    }
  }

  /** Steps that only let the harness go on, or stop it. */
  lemma QuietKeeps(s: State, step: Step)
    requires Inv(s) && Enabled(s, step)
    requires step.DispatchRecorded? || step.TurnDone? || step.JobRecorded? || step.Shutdown?
    ensures Inv(After(s, step))
  {
  }

  lemma LifeKeeps(s: State, step: Step)
    requires Inv(s) && Enabled(s, step) && (step.Boot? || step.Crash?)
    ensures Inv(After(s, step))
  {
  }

  lemma StepKeepsInv(s: State, step: Step)
    requires Inv(s) && Enabled(s, step)
    ensures Inv(After(s, step))
  {
    match step
    case Arrive(kind) => ArriveKeeps(s, kind);
    case Poll => PollKeeps(s, s.harness.value);
    case Dispatch(late) => DispatchKeeps(s, s.harness.value, late);
    case DispatchDone => DispatchDoneKeeps(s, s.harness.value);
    case Drain => DrainKeeps(s, s.harness.value);
    case StartTurn => StartTurnKeeps(s);
    case JobDone => JobDoneKeeps(s, s.harness.value);
    case BeginWrite => WriteKeeps(s, step);
    case Flush => WriteKeeps(s, step);
    case Boot => LifeKeeps(s, step);
    case Crash => LifeKeeps(s, step);
    case _ => QuietKeeps(s, step);
  }

  // ----- Whole executions: any number of crashes and restarts -----

  predicate Executes(s: State, steps: seq<Step>)
    decreases |steps|
  {
    steps == [] || (Enabled(s, steps[0]) && Executes(After(s, steps[0]), steps[1..]))
  }

  function Final(s: State, steps: seq<Step>): State
    requires Executes(s, steps)
    decreases |steps|
  {
    if steps == [] then s else Final(After(s, steps[0]), steps[1..])
  }

  lemma {:induction false} ExecutionKeepsInv(s: State, steps: seq<Step>)
    requires Inv(s) && Executes(s, steps)
    ensures Inv(Final(s, steps))
    decreases |steps|
  {
    if steps != [] {
      StepKeepsInv(s, steps[0]);
      ExecutionKeepsInv(After(s, steps[0]), steps[1..]);
    }
  }

  /** Each message command starts at most one turn over any number of crashes and restarts, and none is
      started before `commands.done` says it is handled. */
  lemma MessageStartsOnce(steps: seq<Step>, n: nat)
    requires Executes(Start, steps)
    requires IsCommand(Final(Start, steps).log, n) && KindOf(Final(Start, steps).log, n).Message?
    ensures var s := Final(Start, steps);
            && (forall i, j | 0 <= i < |s.turns| && 0 <= j < |s.turns| && s.turns[i].n == n && s.turns[j].n == n ::
                  i == j)
            && (forall t | t in s.turns && t.n == n :: n <= t.recordedThen <= s.recorded)
  {
    var s := Final(Start, steps);
    ExecutionKeepsInv(Start, steps);
    forall i, j | 0 <= i < j < |s.turns| && s.turns[i].n == n ensures s.turns[j].n != n {
      assert s.turns[i] in s.turns;
    }
  }

  /** Any command, an inject that became a turn of its own included, is started again only if its earlier
      turns began while `commands.done` was still behind it. */
  lemma RepeatedTurnWasUnrecorded(steps: seq<Step>, i: nat, j: nat)
    requires Executes(Start, steps)
    requires i < j < |Final(Start, steps).turns|
    requires Final(Start, steps).turns[i].n == Final(Start, steps).turns[j].n
    ensures !Final(Start, steps).turns[i].Recorded()
    ensures var s := Final(Start, steps); IsCommand(s.log, s.turns[i].n) && !KindOf(s.log, s.turns[i].n).Message?
  {
    var s := Final(Start, steps);
    ExecutionKeepsInv(Start, steps);
    assert s.turns[i] in s.turns;
  }

  // ----- Nothing is lost -----

  /** Command `n` has been handed out by the reader, or skipped. */
  predicate HandedOut(log: seq<Kind>, h: Harness, n: nat)
    requires IsCommand(log, n)
  {
    if KindOf(log, n).Unreadable? then h.handled.Contains(n) else n in h.batch
  }

  ghost predicate ReaderBounded(h: Harness) {
    h.handled.Valid() && h.handled.done <= h.delivered && forall k | k in h.handled.above :: k <= h.delivered
  }

  lemma PolledBounded(log: seq<Kind>, h: Harness)
    requires ReaderBounded(h) && h.delivered < |log|
    ensures ReaderBounded(Polled(log, h)) && Polled(log, h).delivered == h.delivered + 1
  {
    MarkStaysDelivered(h.handled, h.delivered + 1, h.delivered + 1);
  }

  /** A harness that has polled `k` more commands. */
  ghost function ReadAhead(log: seq<Kind>, h: Harness, k: nat): Harness
    requires ReaderBounded(h) && h.delivered + k <= |log|
    decreases k
  {
    if k == 0 then h
    else
      PolledBounded(log, h);
      ReadAhead(log, Polled(log, h), k - 1)
  }

  lemma {:induction false} ReadAheadKeeps(log: seq<Kind>, h: Harness, k: nat, n: nat)
    requires ReaderBounded(h) && h.delivered + k <= |log|
    requires IsCommand(log, n) && HandedOut(log, h, n)
    ensures HandedOut(log, ReadAhead(log, h, k), n)
    decreases k
  {
    if k > 0 {
      PolledBounded(log, h);
      ReadAheadKeeps(log, Polled(log, h), k - 1, n);
    }
  }

  lemma {:induction false} ReadAheadHandsOut(log: seq<Kind>, h: Harness, k: nat, n: nat)
    requires ReaderBounded(h) && h.delivered + k <= |log|
    requires h.delivered < n <= h.delivered + k
    ensures HandedOut(log, ReadAhead(log, h, k), n)
    decreases k
  {
    PolledBounded(log, h);
    if n == h.delivered + 1 {
      ReadAheadKeeps(log, Polled(log, h), k - 1, n);
    } else {
      ReadAheadHandsOut(log, Polled(log, h), k - 1, n);
    }
  }

  function Polls(k: nat): seq<Step> {
    if k == 0 then [] else [Poll] + Polls(k - 1)
  }

  /** Polling is always possible while commands are left. */
  lemma {:induction false} PollsExecute(s: State, h: Harness, k: nat)
    requires s.harness == Some(h) && !h.stopping && ReaderBounded(h) && h.delivered + k <= |s.log|
    ensures Executes(s, Polls(k))
    ensures Final(s, Polls(k)).harness == Some(ReadAhead(s.log, h, k))
    decreases k
  {
    if k > 0 {
      PolledBounded(s.log, h);
      assert Polls(k)[1..] == Polls(k - 1);
      PollsExecute(After(s, Poll), Polled(s.log, h), k - 1);
    }
  }

  /** Every command that `commands.done` does not record is handed out again after a restart (or skipped if
      it still cannot be read), as soon as the reader has come to it. */
  lemma UnrecordedIsHandedOutAgain(s: State, n: nat)
    requires s.harness.None? && s.recorded < n <= |s.log|
    ensures Executes(After(s, Boot), Polls(n - s.recorded))
    ensures var up := Final(After(s, Boot), Polls(n - s.recorded)).harness;
            up.Some? && HandedOut(s.log, up.value, n)
  {
    PollsExecute(After(s, Boot), Booted(s.recorded), n - s.recorded);
    ReadAheadHandsOut(s.log, Booted(s.recorded), n - s.recorded, n);
  }

  /** While a harness runs, every command it has taken and not handled is on its way through it. */
  lemma NothingIsDropped(steps: seq<Step>, n: nat)
    requires Executes(Start, steps)
    requires Final(Start, steps).harness.Some? && !Final(Start, steps).harness.value.stopping
    requires Final(Start, steps).recorded < n <= |Final(Start, steps).log|
    ensures var h := Final(Start, steps).harness.value;
            || n > h.delivered
            || h.handled.Contains(n)
            || n in h.batch || n in h.queue || h.dispatching == Handling(n) || h.working == Running(n)
  {
    ExecutionKeepsInv(Start, steps);
  }

  // ----- An inject that becomes a turn of its own can be started twice -----

  /** Steps that lead from one state to another. */
  ghost predicate Path(from: State, steps: seq<Step>, s: State) {
    Executes(from, steps) && Final(from, steps) == s
  }

  lemma {:induction false} ExecutesThen(s: State, steps: seq<Step>, step: Step)
    requires Executes(s, steps) && Enabled(Final(s, steps), step)
    ensures Executes(s, steps + [step])
    ensures Final(s, steps + [step]) == After(Final(s, steps), step)
    decreases |steps|
  {
    var more := steps + [step];
    if steps == [] {
      assert more[1..] == [];
    } else {
      assert more[1..] == steps[1..] + [step];
      ExecutesThen(After(s, steps[0]), steps[1..], step);
    }
  }

  lemma Then(from: State, steps: seq<Step>, s: State, step: Step, s': State) returns (steps': seq<Step>)
    requires Path(from, steps, s) && Enabled(s, step)
    requires s' == After(s, step)
    ensures Path(from, steps', s')
  {
    ExecutesThen(from, steps, step);
    steps' := steps + [step];
  }

  lemma HandledNext(n: nat)
    ensures Mark(Handled(n, {}), n + 1) == Handled(n + 1, {})
  {
    var h := Mark(Handled(n, {}), n + 1);
    assert h.Contains(n + 1) && h.Contains(h.done);
    assert forall k | k in h.above :: h.Contains(k);
    assert h.above == {};
  }

  /** A harness that has just started, or has dealt with everything up to `r` and recorded it. */
  function AtRest(log: seq<Kind>, r: nat, turns: seq<Started>): State {
    State(log, r, Some(Booted(r)), turns)
  }

  /** The numbers of `commands.done` are written. */
  lemma Record(from: State, steps: seq<Step>, log: seq<Kind>, r: nat, h: Harness, turns: seq<Started>)
    returns (steps': seq<Step>)
    requires Path(from, steps, State(log, r, Some(h), turns)) && h.writing == 0 && r < h.handled.done
    ensures Path(from, steps', State(log, h.handled.done, Some(h), turns))
  {
    var n := h.handled.done;
    steps' := Then(from, steps, State(log, r, Some(h), turns), BeginWrite, State(log, r, Some(h.(writing := n)),
      turns));
    steps' := Then(from, steps', State(log, r, Some(h.(writing := n)), turns), Flush, State(log, n, Some(h), turns));
  }

  /** The next command has been read. */
  function Read(r: nat): Harness {
    Harness(Handled(r, {}), r + 1, [r + 1], Free, [], Idle, false, 0)
  }

  lemma ReadNext(from: State, steps: seq<Step>, log: seq<Kind>, r: nat, turns: seq<Started>)
    returns (steps': seq<Step>)
    requires Path(from, steps, AtRest(log, r, turns)) && r < |log| && !KindOf(log, r + 1).Unreadable?
    ensures Path(from, steps', State(log, r, Some(Read(r)), turns))
  {
    assert Booted(r).batch + [r + 1] == [r + 1];
    steps' := Then(from, steps, AtRest(log, r, turns), Poll, State(log, r, Some(Read(r)), turns));
  }

  /** A command that is handled as it is dispatched. */
  lemma ImmediatePasses(from: State, steps: seq<Step>, log: seq<Kind>, r: nat, turns: seq<Started>)
    returns (steps': seq<Step>)
    requires Path(from, steps, AtRest(log, r, turns)) && r < |log|
    requires var k := KindOf(log, r + 1); k.Immediate? || k.Abort? || k.Inject?
    ensures Path(from, steps', AtRest(log, r + 1, turns))
  {
    var n := r + 1;
    hide Mark;
    HandledNext(r);
    assert [n][1..] == [];
    var h1 := Harness(Handled(r, {}), n, [], Handling(n), [], Idle, false, 0);
    var h2 := Harness(Handled(n, {}), n, [], Recording(n), [], Idle, false, 0);
    steps' := ReadNext(from, steps, log, r, turns);
    steps' := Then(from, steps', State(log, r, Some(Read(r)), turns), Dispatch(false), State(log, r, Some(h1), turns));
    steps' := Then(from, steps', State(log, r, Some(h1), turns), DispatchDone, State(log, r, Some(h2), turns));
    steps' := Record(from, steps', log, r, h2, turns);
    steps' := Then(from, steps', State(log, n, Some(h2), turns), DispatchRecorded, AtRest(log, n, turns));
  }

  /** A message, or an inject whose turn has ended, starts a turn. */
  lemma TurnStarts(from: State, steps: seq<Step>, log: seq<Kind>, r: nat, turns: seq<Started>, d: Dispatching)
    returns (steps': seq<Step>)
    requires r < |log| && (KindOf(log, r + 1).Message? || KindOf(log, r + 1).Inject?)
    requires Path(from, steps, State(log, r, Some(Harness(Handled(r, {}), r + 1, [], d, [r + 1], Idle, false, 0)),
              turns))
    ensures var h := Harness(Handled(r + 1, {}), r + 1, [], d, [], Turn(r + 1), false, 0);
            Path(from, steps', State(log, r + 1, Some(h), turns + [Started(r + 1, r + 1)]))
  {
    var n := r + 1;
    hide Mark;
    HandledNext(r);
    assert [n][1..] == [];
    var h1 := Harness(Handled(r, {}), n, [], d, [n], Idle, false, 0);
    var h2 := Harness(Handled(n, {}), n, [], d, [], Marking(n, n), false, 0);
    steps' := Then(from, steps, State(log, r, Some(h1), turns), Drain, State(log, r, Some(h2), turns));
    steps' := Record(from, steps', log, r, h2, turns);
    steps' := Then(from, steps', State(log, n, Some(h2), turns), StartTurn,
      State(log, n, Some(h2.(working := Turn(n))), turns + [Started(n, n)]));
  }

  lemma MessagePasses(from: State, steps: seq<Step>, log: seq<Kind>, r: nat, turns: seq<Started>)
    returns (steps': seq<Step>)
    requires Path(from, steps, AtRest(log, r, turns)) && r < |log| && KindOf(log, r + 1).Message?
    ensures Path(from, steps', AtRest(log, r + 1, turns + [Started(r + 1, r + 1)]))
  {
    var n := r + 1;
    assert [n][1..] == [] && Read(r).queue + [n] == [n];
    var h1 := Harness(Handled(r, {}), n, [], Free, [n], Idle, false, 0);
    var h2 := Harness(Handled(n, {}), n, [], Free, [], Turn(n), false, 0);
    var more := turns + [Started(n, n)];
    steps' := ReadNext(from, steps, log, r, turns);
    steps' := Then(from, steps', State(log, r, Some(Read(r)), turns), Dispatch(false), State(log, r, Some(h1), turns));
    steps' := TurnStarts(from, steps', log, r, turns, Free);
    steps' := Then(from, steps', State(log, n, Some(h2), more), TurnDone, AtRest(log, n, more));
  }

  lemma JobPasses(from: State, steps: seq<Step>, log: seq<Kind>, r: nat, turns: seq<Started>)
    returns (steps': seq<Step>)
    requires Path(from, steps, AtRest(log, r, turns)) && r < |log| && KindOf(log, r + 1).Job?
    ensures Path(from, steps', AtRest(log, r + 1, turns))
  {
    var n := r + 1;
    hide Mark;
    HandledNext(r);
    assert [n][1..] == [] && Read(r).queue + [n] == [n];
    var h1 := Harness(Handled(r, {}), n, [], Free, [n], Idle, false, 0);
    var h2 := Harness(Handled(r, {}), n, [], Free, [], Running(n), false, 0);
    var h3 := Harness(Handled(n, {}), n, [], Free, [], Closing(n), false, 0);
    steps' := ReadNext(from, steps, log, r, turns);
    steps' := Then(from, steps', State(log, r, Some(Read(r)), turns), Dispatch(false), State(log, r, Some(h1), turns));
    steps' := Then(from, steps', State(log, r, Some(h1), turns), Drain, State(log, r, Some(h2), turns));
    steps' := Then(from, steps', State(log, r, Some(h2), turns), JobDone, State(log, r, Some(h3), turns));
    steps' := Record(from, steps', log, r, h3, turns);
    steps' := Then(from, steps', State(log, n, Some(h3), turns), JobRecorded, AtRest(log, n, turns));
  }

  lemma UnreadablePasses(from: State, steps: seq<Step>, log: seq<Kind>, r: nat, turns: seq<Started>)
    returns (steps': seq<Step>)
    requires Path(from, steps, AtRest(log, r, turns)) && r < |log| && KindOf(log, r + 1).Unreadable?
    ensures Path(from, steps', AtRest(log, r + 1, turns))
  {
    HandledNext(r);
    var h := Booted(r + 1);
    steps' := Then(from, steps, AtRest(log, r, turns), Poll, State(log, r, Some(h), turns));
    steps' := Record(from, steps', log, r, h, turns);
  }

  /** Every command but `stop` can be dealt with and recorded. */
  lemma CommandPasses(from: State, steps: seq<Step>, log: seq<Kind>, r: nat, turns: seq<Started>)
    returns (steps': seq<Step>, turns': seq<Started>)
    requires Path(from, steps, AtRest(log, r, turns)) && r < |log| && !KindOf(log, r + 1).Stop?
    ensures Path(from, steps', AtRest(log, r + 1, turns')) && turns <= turns'
  {
    turns' := turns;
    match KindOf(log, r + 1)
    case Message =>
      steps' := MessagePasses(from, steps, log, r, turns);
      turns' := turns + [Started(r + 1, r + 1)];
    case Job => steps' := JobPasses(from, steps, log, r, turns);
    case Unreadable => steps' := UnreadablePasses(from, steps, log, r, turns);
    case Immediate => steps' := ImmediatePasses(from, steps, log, r, turns);
    case Inject => steps' := ImmediatePasses(from, steps, log, r, turns);
    case Abort(_) => steps' := ImmediatePasses(from, steps, log, r, turns);
  }

  lemma {:induction false} CommandsPass(from: State, steps: seq<Step>, log: seq<Kind>, r: nat, m: nat,
                                        turns: seq<Started>)
    returns (steps': seq<Step>, turns': seq<Started>)
    requires Path(from, steps, AtRest(log, r, turns)) && r <= m <= |log|
    requires forall k | r < k <= m :: !KindOf(log, k).Stop?
    ensures Path(from, steps', AtRest(log, m, turns')) && turns <= turns'
    decreases m - r
  {
    steps', turns' := steps, turns;
    if r < m {
      steps', turns' := CommandPasses(from, steps, log, r, turns);
      steps', turns' := CommandsPass(from, steps', log, r + 1, m, turns');
    }
  }

  /** An inject whose turn has ended is queued as a turn of its own, which starts. */
  lemma InjectStarts(from: State, steps: seq<Step>, log: seq<Kind>, r: nat, turns: seq<Started>)
    returns (steps': seq<Step>, s: State)
    requires Path(from, steps, AtRest(log, r, turns)) && r < |log| && KindOf(log, r + 1).Inject?
    ensures Path(from, steps', s) && s.turns == turns + [Started(r + 1, r + 1)] && s.log == log
  {
    var n := r + 1;
    assert [n][1..] == [] && Read(r).queue + [n] == [n];
    var h1 := Harness(Handled(r, {}), n, [], Handling(n), [n], Idle, false, 0);
    steps' := ReadNext(from, steps, log, r, turns);
    steps' := Then(from, steps', State(log, r, Some(Read(r)), turns), Dispatch(true), State(log, r, Some(h1), turns));
    steps' := TurnStarts(from, steps', log, r, turns, Handling(n));
    s := State(log, n, Some(Harness(Handled(n, {}), n, [], Handling(n), [], Turn(n), false, 0)), turns + [Started(n,
      n)]);
  }

  /** A turn for command `n` starts in these steps. */
  ghost predicate StartsLater(s: State, steps: seq<Step>, n: nat) {
    && Executes(s, steps)
    && exists i :: |s.turns| <= i < |Final(s, steps).turns| && Final(s, steps).turns[i].n == n
  }

  /** A turn, or an inject whose turn has ended, is dispatched, taken off the queue and started. */
  lemma TurnCommandStarts(from: State, steps: seq<Step>, log: seq<Kind>, r: nat, turns: seq<Started>)
    returns (steps': seq<Step>, s: State)
    requires Path(from, steps, AtRest(log, r, turns)) && r < |log|
    requires KindOf(log, r + 1).Message? || KindOf(log, r + 1).Inject?
    ensures Path(from, steps', s) && s.turns == turns + [Started(r + 1, r + 1)] && s.log == log
  {
    if KindOf(log, r + 1).Inject? {
      steps', s := InjectStarts(from, steps, log, r, turns);
    } else {
      steps' := MessagePasses(from, steps, log, r, turns);
      s := AtRest(log, r + 1, turns + [Started(r + 1, r + 1)]);
    }
  }

  /** After a crash, whatever is not recorded and has no `stop` in front of it can start. */
  lemma UnrecordedStarts(s: State, n: nat) returns (steps: seq<Step>)
    requires s.harness.Some? && s.recorded < n <= |s.log|
    requires KindOf(s.log, n).Message? || KindOf(s.log, n).Inject?
    requires forall k | s.recorded < k < n :: !KindOf(s.log, k).Stop?
    ensures StartsLater(s, steps, n)
  {
    var down := s.(harness := None);
    steps := Then(s, [], s, Crash, down);
    steps := Then(s, steps, down, Boot, AtRest(s.log, s.recorded, s.turns));
    var turns;
    steps, turns := CommandsPass(s, steps, s.log, s.recorded, n - 1, s.turns);
    var end;
    steps, end := TurnCommandStarts(s, steps, s.log, n - 1, turns);
    assert end.turns[|turns|].n == n;
  }

  /** Command `n` was delivered to this harness and does not wait in it any more. */
  ghost predicate Gone(h: Harness, n: nat) {
    n !in h.queue && n !in h.batch && n <= h.delivered && !(h.working.Marking? && h.working.n == n)
  }

  /** Command `n` is recorded and does not wait in the harness. */
  ghost predicate Passed(s: State, n: nat) {
    && n <= s.recorded
    && (s.harness.Some? ==> Gone(s.harness.value, n) && (s.harness.value.writing > 0 ==> n <= s.harness.value.writing))
  }

  lemma RemovedIsSubset(queue: seq<nat>, n: nat)
    ensures forall m | m in Removed(queue, n) :: m in queue
  {
    if queue != [] && queue[0] != n {
      RemovedIsSubset(queue[1..], n);
    }
  }

  lemma Bounds(s: State)
    requires Inv(s) && s.harness.Some?
    ensures s.recorded <= s.harness.value.handled.done
  {
  }

  /** A harness does not come back to what has left it. */
  lemma GoneStays(s: State, step: Step, n: nat)
    requires Enabled(s, step) && s.harness.Some? && Gone(s.harness.value, n)
    ensures After(s, step).harness.Some? ==> Gone(After(s, step).harness.value, n)
    ensures step.StartTurn? ==> s.harness.value.working.n != n
  {
    hide Mark, MarkThrough, Removed;
    var h := s.harness.value;
    if step.Dispatch? {
      assert h.batch[0] in h.batch;
      if KindOf(s.log, h.batch[0]).Abort? {
        RemovedIsSubset(h.queue, KindOf(s.log, h.batch[0]).target);
      }
    } else if step.Drain? {
      assert h.queue[0] in h.queue;
    }
  }

  lemma PassedStays(s: State, step: Step, n: nat)
    requires Passed(s, n) && Enabled(s, step)
    requires s.harness.Some? ==> s.recorded <= s.harness.value.handled.done
    ensures Passed(After(s, step), n)
    ensures step.StartTurn? ==> s.harness.value.working.n != n
  {
    if s.harness.Some? {
      GoneStays(s, step, n);
    }
    hide Mark, MarkThrough, Removed, Gone;
  }

  lemma TurnsGrow(s: State, step: Step)
    requires Enabled(s, step)
    ensures After(s, step).turns == s.turns + if
              step.StartTurn? then [Started(s.harness.value.working.n, s.recorded)] else []
  {
  }

  lemma {:induction false} PassedStartsNoMore(s: State, steps: seq<Step>, n: nat)
    requires Inv(s) && Passed(s, n) && Executes(s, steps)
    ensures s.turns <= Final(s, steps).turns && !StartsLater(s, steps, n)
    decreases |steps|
  {
    if steps != [] {
      var t := After(s, steps[0]);
      StepKeepsInv(s, steps[0]);
      if s.harness.Some? {
        Bounds(s);
      }
      PassedStays(s, steps[0], n);
      TurnsGrow(s, steps[0]);
      PassedStartsNoMore(t, steps[1..], n);
      forall i | |s.turns| <= i < |Final(s, steps).turns| ensures Final(s, steps).turns[i].n != n {
        assert i < |t.turns| ==> Final(s, steps).turns[i] == t.turns[i];
      }
    }
  }

  /** In every reachable state in which the turn of an inject runs: it can start again exactly while it is
      unrecorded. */
  lemma InjectRunsAgainIff(steps: seq<Step>, s: State, n: nat)
    requires Path(Start, steps, s)
    requires s.harness.Some? && s.harness.value.working == Turn(n) && IsCommand(s.log, n) && KindOf(s.log, n).Inject?
    ensures (exists more :: StartsLater(s, more, n)) <==> s.recorded < n
  {
    ExecutionKeepsInv(Start, steps);
    if s.recorded < n {
      assert TurnInFront(s.log, s.recorded, s.harness.value, n);
      var more := UnrecordedStarts(s, n);
    } else {
      assert TurnInFront(s.log, s.recorded, s.harness.value, n);
      forall more | Executes(s, more) ensures !StartsLater(s, more, n) {
        PassedStartsNoMore(s, more, n);
      }
    }
  }

  // ----- What an abort and a stop achieve -----

  lemma {:induction false} GoneStartsNoMore(s: State, steps: seq<Step>, n: nat)
    requires s.harness.Some? && Gone(s.harness.value, n) && Executes(s, steps) && Crash !in steps
    ensures s.turns <= Final(s, steps).turns && !StartsLater(s, steps, n)
    decreases |steps|
  {
    if steps != [] {
      var t := After(s, steps[0]);
      assert steps == [steps[0]] + steps[1..];
      GoneStays(s, steps[0], n);
      TurnsGrow(s, steps[0]);
      GoneStartsNoMore(t, steps[1..], n);
      forall i | |s.turns| <= i < |Final(s, steps).turns| ensures Final(s, steps).turns[i].n != n {
        assert i < |t.turns| ==> Final(s, steps).turns[i] == t.turns[i];
      }
    }
  }

  /** An abort takes the queued turn of its target out of the queue, and nothing else. */
  lemma AbortTakesOut(s: State, late: bool, target: nat)
    requires Inv(s) && s.harness.Some? && Enabled(s, Dispatch(late))
    requires KindOf(s.log, s.harness.value.batch[0]) == Abort(target)
    requires IsQueuedTurn(s.log, s.harness.value, target)
    ensures var h, h' := s.harness.value, After(s, Dispatch(late)).harness.value;
            && Increasing(h'.queue) && (forall m :: m in h'.queue <==> m in h.queue && m != target)
            && Gone(h', target) && h'.handled.Contains(target)
            && h'.batch == h.batch[1..] && h'.working == h.working
  {
    var h := s.harness.value;
    RemovedElements(h.queue, target);
    assert h.batch[0] in h.batch && target < h.batch[0];
    TailElements(h.batch);
    if h.working.Marking? {
      assert TurnInFront(s.log, s.recorded, h, h.working.n);
    }
  }

  /**
   In every reachable state in which an abort is dispatched while the turn of its target is queued: without a crash that
   turn never starts, and with crashes it can start exactly if the target is not recorded.
   */
  lemma AbortedStartsIff(steps: seq<Step>, s: State, late: bool, target: nat)
    requires Path(Start, steps, s) && s.harness.Some? && Enabled(s, Dispatch(late))
    requires KindOf(s.log, s.harness.value.batch[0]) == Abort(target)
    requires IsQueuedTurn(s.log, s.harness.value, target)
    ensures forall more | Executes(After(s, Dispatch(late)), more) && Crash !in more ::
              !StartsLater(After(s, Dispatch(late)), more, target)
    ensures (exists more :: StartsLater(After(s, Dispatch(late)), more, target)) <==> s.recorded < target
  {
    ExecutionKeepsInv(Start, steps);
    AbortTakesOut(s, late, target);
    GoneStartsIff(s, Dispatch(late), target);
  }

  /** A turn that leaves the queue for good. */
  lemma GoneStartsIff(s: State, step: Step, n: nat)
    requires Inv(s) && Enabled(s, step) && s.harness.Some? && !s.harness.value.stopping
    requires step.Dispatch? && IsQueuedTurn(s.log, s.harness.value, n)
    requires Gone(After(s, step).harness.value, n)
    ensures forall more | Executes(After(s, step), more) && Crash !in more :: !StartsLater(After(s, step), more, n)
    ensures (exists more :: StartsLater(After(s, step), more, n)) <==> s.recorded < n
  {
    var t := After(s, step);
    StepKeepsInv(s, step);
    forall more | Executes(t, more) && Crash !in more ensures !StartsLater(t, more, n) {
      GoneStartsNoMore(t, more, n);
    }
    if s.recorded < n {
      NoStopBefore(s, n);
      var more := UnrecordedStarts(t, n);
    } else {
      WritingIsAhead(t);
      forall more | Executes(t, more) ensures !StartsLater(t, more, n) {
        PassedStartsNoMore(t, more, n);
      }
    }
  }

  /** What waits in the queue of a harness that goes on has no unrecorded `stop` in front of it. */
  lemma NoStopBefore(s: State, n: nat)
    requires Inv(s) && s.harness.Some? && !s.harness.value.stopping && n in s.harness.value.queue && n <= |s.log|
    ensures forall k | s.recorded < k < n :: !KindOf(s.log, k).Stop?
    ensures IsCommand(s.log, n)
    ensures KindOf(s.log, n).Message? || KindOf(s.log, n).Job? || KindOf(s.log, n).Inject?
  {
  }

  lemma WritingIsAhead(s: State)
    requires Inv(s) && s.harness.Some?
    ensures s.harness.value.writing > 0 ==> s.recorded < s.harness.value.writing
  {
  }

  /** A `stop` empties the queue, and handles every command up to its own. */
  lemma StopEmpties(s: State, late: bool)
    requires Inv(s) && s.harness.Some? && Enabled(s, Dispatch(late))
    requires KindOf(s.log, s.harness.value.batch[0]).Stop?
    ensures var n, h := s.harness.value.batch[0], After(s, Dispatch(late)).harness.value;
            && h.stopping && h.queue == [] && h.batch == [] && n <= h.handled.done
            && forall m | m in s.harness.value.queue :: m < n && Gone(h, m)
  {
    var h := s.harness.value;
    assert h.batch[0] in h.batch;
    if h.working.Marking? {
      assert TurnInFront(s.log, s.recorded, h, h.working.n);
    }
  }

  /**
   In every reachable state in which a `stop` is dispatched: no turn that waits in the queue starts without a crash, and
   with crashes it can start exactly if its command is not recorded.
   */
  lemma StoppedStartsIff(steps: seq<Step>, s: State, late: bool, m: nat)
    requires Path(Start, steps, s) && s.harness.Some? && Enabled(s, Dispatch(late))
    requires KindOf(s.log, s.harness.value.batch[0]).Stop?
    requires IsQueuedTurn(s.log, s.harness.value, m)
    ensures forall more | Executes(After(s, Dispatch(late)), more) && Crash !in more ::
              !StartsLater(After(s, Dispatch(late)), more, m)
    ensures (exists more :: StartsLater(After(s, Dispatch(late)), more, m)) <==> s.recorded < m
  {
    ExecutionKeepsInv(Start, steps);
    StopEmpties(s, late);
    GoneStartsIff(s, Dispatch(late), m);
  }

  /** A harness that is stopping. */
  ghost predicate Emptied(h: Harness) {
    h.stopping && h.queue == [] && h.batch == []
  }

  lemma {:induction false} StoppingStartsNothing(s: State, steps: seq<Step>, n: nat)
    requires s.harness.Some? && Emptied(s.harness.value)
    requires !(s.harness.value.working.Marking? && s.harness.value.working.n == n)
    requires Executes(s, steps) && Crash !in steps
    ensures s.turns <= Final(s, steps).turns && !StartsLater(s, steps, n)
    decreases |steps|
  {
    if steps != [] {
      var t := After(s, steps[0]);
      assert steps == [steps[0]] + steps[1..];
      TurnsGrow(s, steps[0]);
      StoppingStartsNothing(t, steps[1..], n);
      forall i | |s.turns| <= i < |Final(s, steps).turns| ensures Final(s, steps).turns[i].n != n {
        assert i < |t.turns| ==> Final(s, steps).turns[i] == t.turns[i];
      }
    }
  }

  /** When a harness shuts down, no turn starts in it any more but the one that is waiting to be recorded. */
  lemma ShutdownStartsNothing(s: State, more: seq<Step>, n: nat)
    requires s.harness.Some? && !(s.harness.value.working.Marking? && s.harness.value.working.n == n)
    requires Executes(After(s, Shutdown), more) && Crash !in more
    ensures !StartsLater(After(s, Shutdown), more, n)
  {
    StoppingStartsNothing(After(s, Shutdown), more, n);
  }

  /** Once `commands.done` has reached the `stop`, nothing before it starts again, whatever happens. */
  lemma RecordedStopIsFinal(s: State, more: seq<Step>, m: nat)
    requires Inv(s) && m <= s.recorded && Executes(s, more)
    requires s.harness.Some? ==> Gone(s.harness.value, m)
    ensures !StartsLater(s, more, m)
  {
    if s.harness.Some? {
      WritingIsAhead(s);
    }
    PassedStartsNoMore(s, more, m);
  }

  /** A message's turn runs. */
  function OneTurn(): State {
    State([Message, Inject], 1, Some(Harness(Handled(1, {}), 1, [], Free, [], Turn(1), false, 0)), [Started(1, 1)])
  }

  lemma OneTurnRuns() returns (steps: seq<Step>)
    ensures Path(Start, steps, OneTurn())
  {
    var log := [Message, Inject];
    var h1 := Harness(Handled(0, {}), 1, [], Free, [1], Idle, false, 0);
    assert [1][1..] == [] && Read(0).queue + [1] == [1];
    assert [Message] + [Inject] == log && [] + [Started(1, 1)] == [Started(1, 1)];
    steps := Then(Start, [], Start, Arrive(Message), State([Message], 0, None, []));
    steps := Then(Start, steps, State([Message], 0, None, []), Arrive(Inject), State(log, 0, None, []));
    steps := Then(Start, steps, State(log, 0, None, []), Boot, AtRest(log, 0, []));
    steps := ReadNext(Start, steps, log, 0, []);
    steps := Then(Start, steps, State(log, 0, Some(Read(0)), []), Dispatch(false), State(log, 0, Some(h1), []));
    steps := TurnStarts(Start, steps, log, 0, [], Free);
  }

  /** The inject has been read, queued as a turn of its own and marked in memory while the message's turn runs. */
  lemma InjectMarked() returns (steps: seq<Step>)
    ensures Path(Start, steps, State([Message, Inject], 1,
      Some(Harness(Handled(2, {}), 2, [], Recording(2), [2], Turn(1), false, 0)), [Started(1, 1)]))
  {
    var log, t := [Message, Inject], [Started(1, 1)];
    var h1 := Harness(Handled(1, {}), 2, [2], Free, [], Turn(1), false, 0);
    var h2 := Harness(Handled(1, {}), 2, [], Handling(2), [2], Turn(1), false, 0);
    HandledNext(1);
    assert OneTurn().harness.value.batch + [2] == [2] && [2][1..] == [] && h1.queue + [2] == [2];
    steps := OneTurnRuns();
    steps := Then(Start, steps, OneTurn(), Poll, State(log, 1, Some(h1), t));
    steps := Then(Start, steps, State(log, 1, Some(h1), t), Dispatch(true), State(log, 1, Some(h2), t));
    steps := Then(Start, steps, State(log, 1, Some(h2), t), DispatchDone,
      State(log, 1, Some(h2.(handled := Handled(2, {}), dispatching := Recording(2))), t));
  }

  /** The inject is marked in memory before its turn is taken off the queue, so the turn does not wait for the write of
      `commands.done`. */
  lemma UnrecordedInjectRuns() returns (steps: seq<Step>, s: State)
    ensures Path(Start, steps, s) && s.log == [Message, Inject] && s.recorded == 1
    ensures s.harness.Some? && s.harness.value.working == Turn(2) && s.turns == [Started(1, 1), Started(2, 1)]
  {
    var log, t := [Message, Inject], [Started(1, 1)];
    var h3 := Harness(Handled(2, {}), 2, [], Recording(2), [2], Turn(1), false, 0);
    var h4 := h3.(working := Idle);
    var h5 := h3.(queue := [], working := Marking(2, 0));
    assert [2][1..] == [];
    steps := InjectMarked();
    steps := Then(Start, steps, State(log, 1, Some(h3), t), TurnDone, State(log, 1, Some(h4), t));
    steps := Then(Start, steps, State(log, 1, Some(h4), t), Drain, State(log, 1, Some(h5), t));
    s := State(log, 1, Some(h5.(working := Turn(2))), [Started(1, 1), Started(2, 1)]);
    steps := Then(Start, steps, State(log, 1, Some(h5), t), StartTurn, s);
  }

  /** So the failing state is reached: an inject that runs, and that a crash makes run again. */
  lemma InjectCanStartTwice() returns (steps: seq<Step>, s: State, more: seq<Step>)
    ensures Path(Start, steps, s) && Started(2, 1) in s.turns && StartsLater(s, more, 2)
  {
    steps, s := UnrecordedInjectRuns();
    InjectRunsAgainIff(steps, s, 2);
    more :| StartsLater(s, more, 2);
  }
}
