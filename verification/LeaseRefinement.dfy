/**
 The promise chain of one run among all the others: every execution in which run `n` keeps its lease by the chain of
 `LeaseChain`, while time passes, other runs act, and other writers of the run write, is one of `RunExclusion`.
 */
module LeaseRefinement {
  import opened Wrappers
  import opened Fences
  import C = LeaseChain
  import R = RunExclusion

  datatype Move =
    | Chain(act: C.Act)
    | Time(ms: int)
    | Other(step: R.Step)

  datatype World = World(chain: C.Chain, state: R.State)

  /** Steps that are not those of the lease writes of run `n`: of other runs, or of its other writers. */
  predicate Elsewhere(step: R.Step, n: nat) {
    match step
    case Tick(_) => false
    case CreateRun => true
    case CheckWrite(_) => true
    case LandWrite(_, _) => true
    case DropWrite(_, _) => true
    case _ => step.n != n
  }

  /** Time passes as `RunExclusion` lets it: not beyond the deadline of anything that was checked. */
  ghost predicate Can(w: World, move: Move, n: nat) {
    match move
    case Chain(act) => !act.Pass? && C.Possible(w.chain, act) && R.Exists(w.state, n)
    case Time(ms) => R.Enabled(w.state, R.Tick(ms))
    case Other(step) => Elsewhere(step, n) && R.Enabled(w.state, step)
  }

  /** The chain alone says what becomes of run `n` in its moves. */
  ghost function Moved(w: World, move: Move, n: nat): World
    requires Can(w, move, n)
  {
    match move
    case Chain(act) =>
      var d := C.Next(w.chain, act);
      World(d, w.state.(runs := w.state.runs[n := C.View(d, w.state.runs[n].pending)]))
    case Time(ms) => World(C.Next(w.chain, C.Pass(ms)), R.After(w.state, R.Tick(ms)))
    case Other(step) => World(w.chain, R.After(w.state, step))
  }

  /** The chain is that of run `n`, and at the same time. */
  ghost predicate Joined(w: World, n: nat) {
    && C.Inv(w.chain) && w.chain.now == w.state.now
    && R.Exists(w.state, n) && w.state.runs[n] == C.View(w.chain, w.state.runs[n].pending)
  }

  function Means(w: World, move: Move, n: nat): seq<R.Step>
    requires move.Chain? ==> C.Possible(w.chain, move.act)
  {
    match move
    case Chain(act) => (match C.Meaning(w.chain, act, n) case None => [] case Some(step) => [step])
    case Time(ms) => [R.Tick(ms)]
    case Other(step) => [step]
  }

  lemma MoveRefines(w: World, move: Move, n: nat)
    requires Joined(w, n) && Can(w, move, n)
    ensures var steps, s := Means(w, move, n), Moved(w, move, n).state;
            if steps == [] then s == w.state
            else |steps| == 1 && R.Enabled(w.state, steps[0]) && s == R.After(w.state, steps[0])
  {
    if move.Chain? {
      C.Refines(w.chain, move.act, w.state, n, w.state.runs[n].pending);
    }
  }

  lemma MoveKeepsJoined(w: World, move: Move, n: nat)
    requires Joined(w, n) && Can(w, move, n)
    ensures Joined(Moved(w, move, n), n)
  {
    match move
    case Chain(act) =>
      C.StepKeepsInv(w.chain, act);
      C.TimeStands(w.chain, act);
    case Time(ms) => C.StepKeepsInv(w.chain, C.Pass(ms));
    case Other(step) =>
  }

  // ----- Executions -----

  ghost predicate Happens(w: World, moves: seq<Move>, n: nat)
    decreases |moves|
  {
    moves == [] || (Can(w, moves[0], n) && Happens(Moved(w, moves[0], n), moves[1..], n))
  }

  ghost function End(w: World, moves: seq<Move>, n: nat): World
    requires Happens(w, moves, n)
    decreases |moves|
  {
    if moves == [] then w else End(Moved(w, moves[0], n), moves[1..], n)
  }

  /** The execution of `RunExclusion` that it is. */
  ghost function Steps(w: World, moves: seq<Move>, n: nat): seq<R.Step>
    requires Happens(w, moves, n)
    decreases |moves|
  {
    if moves == [] then [] else Means(w, moves[0], n) + Steps(Moved(w, moves[0], n), moves[1..], n)
  }

  lemma {:induction false} ExecutionRefines(w: World, moves: seq<Move>, n: nat)
    requires Joined(w, n) && Happens(w, moves, n)
    ensures R.Executes(w.state, Steps(w, moves, n))
    ensures R.Final(w.state, Steps(w, moves, n)) == End(w, moves, n).state
    ensures Joined(End(w, moves, n), n)
    decreases |moves|
  {
    if moves != [] {
      MoveRefines(w, moves[0], n);
      MoveKeepsJoined(w, moves[0], n);
      var next, first := Moved(w, moves[0], n), Means(w, moves[0], n);
      ExecutionRefines(next, moves[1..], n);
      var rest := Steps(next, moves[1..], n);
      if first == [] {
        assert first + rest == rest;
      } else {
        assert (first + rest)[0] == first[0] && (first + rest)[1..] == rest;
      }
    }
  }

  // ----- Exclusion -----

  /** The microtask that checks the expired lease of a release. */
  predicate ChecksRelease(c: C.Chain, act: C.Act)
    requires C.Possible(c, act)
  {
    act.Microtask? && c.tasks[0].RunJob? && C.IsRelease(c, c.tasks[0].n) && MayWrite(c.fence, c.now)
  }

  /** A release is checked with no other write of its run in flight, and none is checked until the fence is closed. */
  ghost predicate Quiet(w: World, move: Move, n: nat)
    requires Can(w, move, n)
  {
    match move
    case Chain(act) => ChecksRelease(w.chain, act) ==> w.state.runs[n].pending == []
    case Time(_) => true
    case Other(step) => R.Quiet(w.state, step)
  }

  ghost predicate QuietThroughout(w: World, moves: seq<Move>, n: nat)
    requires Happens(w, moves, n)
    decreases |moves|
  {
    moves == [] || (Quiet(w, moves[0], n) && QuietThroughout(Moved(w, moves[0], n), moves[1..], n))
  }

  /** A write of run `m` reaches the disk: its lease file, if the chain is its own, or another one. */
  ghost predicate Lands(move: Move, n: nat, m: nat) {
    match move
    case Chain(act) => act.Lands? && m == n
    case Time(_) => false
    case Other(step) => R.Lands(step, m)
  }

  ghost predicate Exclusive(w: World, moves: seq<Move>, n: nat)
    requires Happens(w, moves, n)
    decreases |moves|
  {
    moves == [] ||
      (&& (forall m: nat | Lands(moves[0], n, m) :: R.Latest(w.state, m))
       && Exclusive(Moved(w, moves[0], n), moves[1..], n))
  }

  lemma QuietMoveKeepsInv(w: World, move: Move, n: nat)
    requires Joined(w, n) && R.Inv(w.state) && Can(w, move, n) && Quiet(w, move, n)
    ensures R.Inv(Moved(w, move, n).state)
    ensures forall m: nat | Lands(move, n, m) :: R.Latest(w.state, m)
  {
    hide R.Inv, Joined;
    MoveRefines(w, move, n);
    var steps := Means(w, move, n);
    if steps != [] {
      assert R.Quiet(w.state, steps[0]);
      R.StepKeepsInv(w.state, steps[0]);
      forall m: nat | Lands(move, n, m) ensures R.Latest(w.state, m) {
        R.LandingRunIsLatest(w.state, steps[0], m);
      }
    }
  }

  lemma {:induction false} ChainKeepsExclusion(w: World, moves: seq<Move>, n: nat)
    requires Joined(w, n) && R.Inv(w.state) && Happens(w, moves, n) && QuietThroughout(w, moves, n)
    ensures Exclusive(w, moves, n)
    decreases |moves|
  {
    if moves != [] {
      QuietMoveKeepsInv(w, moves[0], n);
      MoveKeepsJoined(w, moves[0], n);
      ChainKeepsExclusion(Moved(w, moves[0], n), moves[1..], n);
    }
  }

  /** The chain of a run that has just armed its fence. */
  function Booted(now: int, r: R.Run): C.Chain {
    C.Chain(now, r.lease, r.fence, false, 0, [], [], 0, None)
  }

  lemma BootJoins(s: R.State, n: nat, sampled: int)
    requires R.Inv(s) && R.Enabled(s, R.BootArms(n, sampled))
    ensures var t := R.After(s, R.BootArms(n, sampled)); var c := Booted(t.now, t.runs[n]);
            C.Fresh(c) && Joined(World(c, t), n) && R.Inv(t)
  {
    assert R.RunInv(s.now, s.runs[n], R.Latest(s, n));
    R.StepKeepsInv(s, R.BootArms(n, sampled));
    C.FreshInv(Booted(s.now, R.After(s, R.BootArms(n, sampled)).runs[n]));
  }

  /**
   From the very start: whichever run arms its fence, when it keeps its lease by the promise chain, and releases are
   quiet, no write of any run lands once a later run exists.
   */
  lemma RunOfTheChainIsExclusive(before: seq<R.Step>, n: nat, sampled: int, moves: seq<Move>)
    requires R.Executes(R.Start, before) && R.QuietThroughout(R.Start, before)
    requires R.Enabled(R.Final(R.Start, before), R.BootArms(n, sampled))
    requires var t := R.After(R.Final(R.Start, before), R.BootArms(n, sampled));
             var w := World(Booted(t.now, t.runs[n]), t);
             Happens(w, moves, n) && QuietThroughout(w, moves, n)
    ensures var t := R.After(R.Final(R.Start, before), R.BootArms(n, sampled));
            Exclusive(World(Booted(t.now, t.runs[n]), t), moves, n)
  {
    R.OneRunWrites(R.Start, before);
    var s := R.Final(R.Start, before);
    BootJoins(s, n, sampled);
    var t := R.After(s, R.BootArms(n, sampled));
    ChainKeepsExclusion(World(Booted(t.now, t.runs[n]), t), moves, n);
  }
}
