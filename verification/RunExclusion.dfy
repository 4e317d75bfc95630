/**
 Runs of one session over a shared disk (ts-apps/cloud-agent/src/lease.ts): run records, lease files, and
 harnesses whose checked writes land some time after their check. Time is a number the environment moves.

 Environment assumptions, as in the design: run n+1 is created only once run n's lease on disk has run out,
 and a checked write lands (and is known to have landed) within the fence margin of its check.
 */
module RunExclusion {
  import opened Fences
  import opened Wrappers

  const LEASE_TTL_MS := 90_000

  /** A lease file being rewritten. The writes of one run are chained, so there is at most one. */
  datatype LeaseWrite = LeaseWrite(checkedAt: int, expiresAt: int, final: bool, landed: bool)

  datatype Boot = Absent | NoNewerSeen | Armed

  datatype Run = Run(
    lease: Option<int>,              // expiry in the lease file
    boot: Boot,
    fence: FenceState,
    pending: seq<int>,               // check times of writes that have not landed yet
    leaseWrite: Option<LeaseWrite>)

  datatype State = State(now: int, runs: seq<Run>)

  datatype Step =
    | Tick(ms: int)
    | CreateRun                       // exclusive create of the next run record
    | WriteStartLease(n: nat, expiresAt: int)
    | BootLooks(n: nat)               // checkRun: no newer record
    | BootArms(n: nat, sampled: int)  // checkRun: the lease is still valid; the fence is armed with it
    | CheckWrite(n: nat)              // a writer passes the fence
    | RefuseWrite(n: nat)             // a writer is refused: the runner stops
    | LandWrite(n: nat, k: nat)
    | DropWrite(n: nat, k: nat)       // the write failed
    | CheckLease(n: nat, final: bool) // a renewal, or the release
    | LandLease(n: nat)               // the rename
    | DropLease(n: nat)               // the write failed
    | LeaseDone(n: nat)               // the writer learns that the rename happened
    | Supersede(n: nat)               // a newer record was seen

  const Fresh := Run(None, Absent, FenceState(0, false, false), [], None)

  predicate Exists(s: State, n: nat) {
    n < |s.runs|
  }

  predicate Latest(s: State, n: nat) {
    n + 1 == |s.runs|
  }

  ghost predicate InTime(now: int, checkedAt: int) {
    now <= checkedAt + FENCE_MARGIN_MS
  }

  /** Nothing that was checked is overdue. */
  ghost predicate WritesInTime(now: int, r: Run) {
    && (forall p | p in r.pending :: InTime(now, p))
    && (r.leaseWrite.Some? ==> InTime(now, r.leaseWrite.value.checkedAt))
  }

  ghost predicate Enabled(s: State, step: Step) {
    match step
    case Tick(ms) => ms > 0 && forall r | r in s.runs :: WritesInTime(s.now + ms, r)
    case CreateRun =>
      s.runs == [] || (var last := s.runs[|s.runs| - 1]; last.lease.Some? && last.lease.value <= s.now)
    case WriteStartLease(n, _) => Exists(s, n) && s.runs[n].lease.None?
    case BootLooks(n) => Latest(s, n) && s.runs[n].boot.Absent?
    case BootArms(n, sampled) =>
      && Exists(s, n) && s.runs[n].boot.NoNewerSeen? && s.runs[n].lease.Some?
      && sampled <= s.now && sampled < s.runs[n].lease.value - FENCE_MARGIN_MS
    case CheckWrite(n) => Exists(s, n) && s.runs[n].boot.Armed? && MayWrite(s.runs[n].fence, s.now)
    case RefuseWrite(n) => Exists(s, n) && s.runs[n].boot.Armed? && !MayWrite(s.runs[n].fence, s.now)
    case LandWrite(n, k) => Exists(s, n) && k < |s.runs[n].pending|
    case DropWrite(n, k) => Exists(s, n) && k < |s.runs[n].pending|
    case CheckLease(n, final) =>
      Exists(s, n) && s.runs[n].boot.Armed? && s.runs[n].leaseWrite.None? && MayWrite(s.runs[n].fence, s.now)
    case LandLease(n) => Exists(s, n) && s.runs[n].leaseWrite.Some? && !s.runs[n].leaseWrite.value.landed
    case DropLease(n) => Exists(s, n) && s.runs[n].leaseWrite.Some? && !s.runs[n].leaseWrite.value.landed
    case LeaseDone(n) => Exists(s, n) && s.runs[n].leaseWrite.Some? && s.runs[n].leaseWrite.value.landed
    case Supersede(n) => Exists(s, n) && s.runs[n].boot.Armed?
  }

  function Without(xs: seq<int>, k: nat): seq<int>
    requires k < |xs|
  {
    xs[..k] + xs[k + 1..]
  }

  function FinishLease(f: FenceState, w: LeaseWrite): FenceState {
    // `release` closes the fence whether its write succeeded or not.
    if w.final then AfterOp(f, Close, true)
    else if w.landed then AfterOp(f, Renew(w.expiresAt), true)
    else f
  }

  /** Run `n` after a step that concerns it. */
  ghost function RunAfter(now: int, step: Step, r: Run): Run
    requires step.LandWrite? || step.DropWrite? ==> step.k < |r.pending|
    requires step.LandLease? || step.DropLease? || step.LeaseDone? ==> r.leaseWrite.Some?
    requires step.BootArms? ==> r.lease.Some?
  {
    match step
    case WriteStartLease(_, expiresAt) => r.(lease := Some(expiresAt))
    case BootLooks(_) => r.(boot := NoNewerSeen)
    case BootArms(_, _) => r.(boot := Armed, fence := AfterOp(r.fence, Renew(r.lease.value), true))
    case CheckWrite(_) => r.(pending := r.pending + [now])
    case RefuseWrite(_) => r.(fence := AfterOp(r.fence, Check(now), true))
    case LandWrite(_, k) => r.(pending := Without(r.pending, k))
    case DropWrite(_, k) => r.(pending := Without(r.pending, k))
    case CheckLease(_, final) =>
      r.(leaseWrite := Some(LeaseWrite(now, now + (if final then 0 else LEASE_TTL_MS), final, false)))
    case LandLease(_) =>
      r.(lease := Some(r.leaseWrite.value.expiresAt), leaseWrite := Some(r.leaseWrite.value.(landed := true)))
    case DropLease(_) => r.(leaseWrite := None, fence := FinishLease(r.fence, r.leaseWrite.value))
    case LeaseDone(_) => r.(leaseWrite := None, fence := FinishLease(r.fence, r.leaseWrite.value))
    case Supersede(_) => r.(fence := AfterOp(r.fence, Close, true))
    case _ => r
  }

  ghost function After(s: State, step: Step): State
    requires Enabled(s, step)
  {
    match step
    case Tick(ms) => s.(now := s.now + ms)
    case CreateRun => s.(runs := s.runs + [Fresh])
    case _ => s.(runs := s.runs[step.n := RunAfter(s.now, step, s.runs[step.n])])
  }

  /** A write of run `n` (to the log, the repository, or its lease file) reaches the disk in this step. */
  ghost predicate Lands(step: Step, n: nat) {
    (step.LandWrite? || step.LandLease?) && step.n == n
  }

  // ----- Keeping releases quiet -----

  ghost predicate Releasing(r: Run) {
    r.leaseWrite.Some? && r.leaseWrite.value.final
  }

  /** A release starts with no other write of its run in flight, and none starts until the fence is closed. */
  ghost predicate Quiet(s: State, step: Step)
    requires Enabled(s, step)
  {
    && (step.CheckLease? && step.final ==> s.runs[step.n].pending == [])
    && (step.CheckWrite? ==> !Releasing(s.runs[step.n]))
  }

  // ----- The invariant -----

  /** What holds of a run at time `now`; `latest` when no later run exists. */
  ghost predicate RunInv(now: int, r: Run, latest: bool) {
    && (r.boot.Armed? ==> r.lease.Some?)
    && (!r.boot.Armed? ==> r.pending == [] && r.leaseWrite.None? && !r.fence.closed)
    && WritesInTime(now, r)
    && (forall p | p in r.pending :: p <= now)
    && (r.leaseWrite.Some? ==> r.boot.Armed? && LeaseWriteInv(now, r, r.leaseWrite.value))
    // Whatever has been checked lands before the lease on disk runs out.
    && (forall p | p in r.pending :: r.lease.Some? && p + FENCE_MARGIN_MS < r.lease.value)
    // The fence never trusts more than the disk says, except while the writer of a landed lease wakes up.
    && (r.boot.Armed? && !LeaseLanded(r) ==> r.fence.closed || r.fence.validUntil <= r.lease.value)
    // A run is followed by another only when its lease is gone.
    && (!latest ==> r.lease.Some? && r.lease.value <= now)
  }

  ghost predicate LeaseLanded(r: Run) {
    r.leaseWrite.Some? && r.leaseWrite.value.landed
  }

  ghost predicate LeaseWriteInv(now: int, r: Run, w: LeaseWrite)
    requires r.boot.Armed? ==> r.lease.Some?
  {
    && w.checkedAt <= now
    && w.expiresAt == w.checkedAt + (if w.final then 0 else LEASE_TTL_MS)
    && (w.final ==> r.pending == [])
    && r.lease.Some?
    && (if w.landed then r.lease.value == w.expiresAt else w.checkedAt + FENCE_MARGIN_MS < r.lease.value)
  }

  ghost predicate Inv(s: State) {
    forall n: nat | Exists(s, n) :: RunInv(s.now, s.runs[n], Latest(s, n))
  }

  /** A passing check finds the disk lease valid for longer than the write may take. */
  lemma CheckedInTime(now: int, r: Run, latest: bool)
    requires RunInv(now, r, latest) && r.boot.Armed?
    requires MayWrite(r.fence, now) && !Releasing(r)
    ensures now + FENCE_MARGIN_MS < r.lease.value
  {
  }

  /** A run whose successor exists has nothing left to land, and its fence lets nothing start. */
  lemma FollowedRunIsSilent(now: int, r: Run)
    requires RunInv(now, r, false)
    ensures r.pending == []
    ensures r.leaseWrite.Some? ==> r.leaseWrite.value.landed && r.leaseWrite.value.final
    ensures r.boot.Armed? && !Releasing(r) ==> !MayWrite(r.fence, now)
  {
    assert r.pending != [] ==> r.pending[0] in r.pending && InTime(now, r.pending[0]);
  }

  lemma RemovedIsSubset(xs: seq<int>, k: nat)
    requires k < |xs|
    ensures forall p | p in Without(xs, k) :: p in xs
  {
  }

  /** What `Enabled` and `Quiet` mean for the run a step is about. */
  ghost predicate Allowed(now: int, step: Step, r: Run, latest: bool) {
    match step
    case WriteStartLease(_, _) => r.lease.None?
    case BootLooks(_) => latest && r.boot.Absent?
    case BootArms(_, _) => r.boot.NoNewerSeen? && r.lease.Some?
    case CheckWrite(_) => r.boot.Armed? && MayWrite(r.fence, now) && !Releasing(r)
    case LandWrite(_, k) => k < |r.pending|
    case DropWrite(_, k) => k < |r.pending|
    case CheckLease(_, final) =>
      r.boot.Armed? && r.leaseWrite.None? && MayWrite(r.fence, now) && (final ==> r.pending == [])
    case LandLease(_) => r.leaseWrite.Some? && !r.leaseWrite.value.landed
    case DropLease(_) => r.leaseWrite.Some? && !r.leaseWrite.value.landed
    case LeaseDone(_) => r.leaseWrite.Some? && r.leaseWrite.value.landed
    case RefuseWrite(_) => r.boot.Armed? && !MayWrite(r.fence, now)
    case Supersede(_) => r.boot.Armed?
    case _ => false
  }

  lemma OwnStepKeepsRun(now: int, step: Step, r: Run, latest: bool)
    requires RunInv(now, r, latest) && Allowed(now, step, r, latest)
    ensures RunInv(now, RunAfter(now, step, r), latest)
  {
    if !latest {
      FollowedRunIsSilent(now, r);
    }
    match step
    case LandWrite(_, k) => RemovedIsSubset(r.pending, k);
    case DropWrite(_, k) => RemovedIsSubset(r.pending, k);
    case CheckWrite(_) => CheckedInTime(now, r, latest);
    case CheckLease(_, _) => CheckedInTime(now, r, latest);
    case _ =>
  }

  lemma TimeKeepsRun(now: int, ms: int, r: Run, latest: bool)
    requires RunInv(now, r, latest) && ms > 0 && WritesInTime(now + ms, r)
    ensures RunInv(now + ms, r, latest)
  {
  }

  lemma StepKeepsInv(s: State, step: Step)
    requires Inv(s) && Enabled(s, step) && Quiet(s, step)
    ensures Inv(After(s, step))
  {
    var s' := After(s, step);
    forall n: nat | Exists(s', n) ensures RunInv(s'.now, s'.runs[n], Latest(s', n)) {
      if Exists(s, n) {
        var r := s.runs[n];
        assert RunInv(s.now, r, Latest(s, n));
        if step.Tick? {
          assert r in s.runs;
          TimeKeepsRun(s.now, step.ms, r, Latest(s, n));
        } else if !step.CreateRun? && step.n == n {
          OwnStepKeepsRun(s.now, step, r, Latest(s, n));
        }
      }
    }
  }

  /** A write can only land while its run is the latest. */
  lemma LandingRunIsLatest(s: State, step: Step, n: nat)
    requires Inv(s) && Enabled(s, step) && Lands(step, n)
    ensures Latest(s, n)
  {
    assert RunInv(s.now, s.runs[n], Latest(s, n));
    if !Latest(s, n) {
      FollowedRunIsSilent(s.now, s.runs[n]);
    }
  }

  // ----- Whole executions -----

  const Start := State(0, [])

  /** The states an execution passes through, from `s`. */
  ghost predicate Executes(s: State, steps: seq<Step>)
    decreases |steps|
  {
    steps == [] || (Enabled(s, steps[0]) && Executes(After(s, steps[0]), steps[1..]))
  }

  ghost predicate QuietThroughout(s: State, steps: seq<Step>)
    requires Executes(s, steps)
    decreases |steps|
  {
    steps == [] || (Quiet(s, steps[0]) && QuietThroughout(After(s, steps[0]), steps[1..]))
  }

  ghost function Final(s: State, steps: seq<Step>): State
    requires Executes(s, steps)
    decreases |steps|
  {
    if steps == [] then s else Final(After(s, steps[0]), steps[1..])
  }

  /** Every write that lands belongs to the latest run there is. */
  ghost predicate Exclusive(s: State, steps: seq<Step>)
    requires Executes(s, steps)
    decreases |steps|
  {
    steps == [] ||
      (&& (forall n: nat | Lands(steps[0], n) :: Latest(s, n))
       && Exclusive(After(s, steps[0]), steps[1..]))
  }

  /** Run exclusion: in every execution whose releases are quiet, no write of a run lands once a later run
      exists, also while a 90 s lease is replacing a longer starting lease. */
  lemma {:induction false} OneRunWrites(s: State, steps: seq<Step>)
    requires Inv(s) && Executes(s, steps) && QuietThroughout(s, steps)
    ensures Exclusive(s, steps) && Inv(Final(s, steps))
    decreases |steps|
  {
    if steps != [] {
      forall n: nat | Lands(steps[0], n) ensures Latest(s, n) {
        LandingRunIsLatest(s, steps[0], n);
      }
      StepKeepsInv(s, steps[0]);
      OneRunWrites(After(s, steps[0]), steps[1..]);
    }
  }

  lemma RunExclusion(steps: seq<Step>)
    requires Executes(Start, steps) && QuietThroughout(Start, steps)
    ensures Exclusive(Start, steps)
  {
    OneRunWrites(Start, steps);
  }

  /** Once a lease has run out it stays out: reading it and creating the next run need not be one step. */
  lemma LapsedLeaseStaysLapsed(s: State, step: Step, n: nat)
    requires Inv(s) && Enabled(s, step) && Quiet(s, step)
    requires Exists(s, n) && s.runs[n].lease.Some? && s.runs[n].lease.value <= s.now
    ensures var r := After(s, step).runs[n]; r.lease.Some? && r.lease.value <= After(s, step).now
  {
    assert RunInv(s.now, s.runs[n], Latest(s, n));
  }

  // ----- Release -----

  /** The release has landed, or the fence is closed behind it. */
  ghost predicate Released(r: Run) {
    (Releasing(r) && r.leaseWrite.value.landed) || (r.fence.closed && r.leaseWrite.None?)
  }

  /** What the chain of lease writes means here: after the expired lease of a release has landed, the lease file of
      the run stays as it is. (`LeaseChain` shows that its promises keep lease writes apart and close the fence.) */
  lemma ReleaseIsFinal(s: State, step: Step, n: nat)
    requires Enabled(s, step) && Exists(s, n) && s.runs[n].boot.Armed? && s.runs[n].lease.Some?
    requires Released(s.runs[n])
    ensures var r := After(s, step).runs[n];
            Released(r) && r.boot.Armed? && r.lease == s.runs[n].lease
  {
  }

  // ----- The window of a release that is not quiet -----

  /** Run `n` has put its expired lease on disk but has not closed its fence yet; its other writes are unrestricted. */
  ghost predicate AtRelease(s: State, n: nat) {
    && Latest(s, n)
    && (forall m: nat | m < n :: RunInv(s.now, s.runs[m], false))
    && Releasing(s.runs[n]) && s.runs[n].leaseWrite.value.landed
    && RunInv(s.now, s.runs[n].(pending := []), true)
    && (forall p | p in s.runs[n].pending :: p <= s.now && InTime(s.now, p))
  }

  /** The release of run `n` has been checked and has not landed; the other writes of the run are unrestricted. */
  ghost predicate ReleaseUnderway(s: State, n: nat) {
    && Latest(s, n)
    && (forall m: nat | m < n :: RunInv(s.now, s.runs[m], false))
    && ReleaseUnlanded(s.now, s.runs[n])
  }

  ghost predicate ReleaseUnlanded(now: int, r: Run) {
    && Releasing(r) && !r.leaseWrite.value.landed
    && RunInv(now, r.(pending := []), true) && r.boot.Armed?
    && (forall p | p in r.pending :: p <= now && InTime(now, p) && p + FENCE_MARGIN_MS < r.lease.value)
  }

  /** A release may start at any time: from there on it is under way, quiet or not. */
  lemma ReleaseStarts(s: State, n: nat)
    requires Inv(s) && Enabled(s, CheckLease(n, true))
    ensures ReleaseUnderway(After(s, CheckLease(n, true)), n)
  {
    var r := s.runs[n];
    assert RunInv(s.now, r, Latest(s, n));
    if !Latest(s, n) {
      FollowedRunIsSilent(s.now, r);
    }
    assert RunInv(s.now, r.(pending := []), true);
    OwnStepKeepsRun(s.now, CheckLease(n, true), r.(pending := []), true);
    forall m: nat | m < n ensures RunInv(s.now, s.runs[m], false) {
      assert RunInv(s.now, s.runs[m], Latest(s, m));
    }
  }

  lemma UnlandedStays(now: int, step: Step, r: Run)
    requires ReleaseUnlanded(now, r)
    requires match step
             case CheckWrite(_) => MayWrite(r.fence, now)
             case RefuseWrite(_) => !MayWrite(r.fence, now)
             case LandWrite(_, k) => k < |r.pending|
             case DropWrite(_, k) => k < |r.pending|
             case Supersede(_) => true
             case _ => false
    ensures ReleaseUnlanded(now, RunAfter(now, step, r))
  {
    match step
    case LandWrite(_, k) => RemovedIsSubset(r.pending, k);
    case DropWrite(_, k) => RemovedIsSubset(r.pending, k);
    case CheckWrite(_) =>
    case RefuseWrite(_) => OwnStepKeepsRun(now, step, r.(pending := []), true);
    case Supersede(_) => OwnStepKeepsRun(now, step, r.(pending := []), true);
  }

  /** No later run is created while it is under way, and every other step keeps it. */
  lemma UnderwayStays(s: State, step: Step, n: nat)
    requires ReleaseUnderway(s, n) && Enabled(s, step) && (Quiet(s, step) || (step.CheckWrite? && step.n == n))
    requires step != LandLease(n) && step != DropLease(n)
    ensures !step.CreateRun? && ReleaseUnderway(After(s, step), n)
  {
    var r := s.runs[n];
    var s' := After(s, step);
    if step.Tick? {
      forall m: nat | m < n ensures RunInv(s'.now, s.runs[m], false) {
        assert s.runs[m] in s.runs;
        TimeKeepsRun(s.now, step.ms, s.runs[m], false);
      }
      assert r in s.runs;
      TimeKeepsRun(s.now, step.ms, r.(pending := []), true);
    } else if step.n == n {
      UnlandedStays(s.now, step, r);
    } else {
      OwnStepKeepsRun(s.now, step, s.runs[step.n], false);
    }
  }

  /** When it lands, the run is in its window. */
  lemma ReleaseLands(s: State, n: nat)
    requires ReleaseUnderway(s, n)
    ensures Enabled(s, LandLease(n)) && AtRelease(After(s, LandLease(n)), n)
  {
    OwnStepKeepsRun(s.now, LandLease(n), s.runs[n].(pending := []), true);
  }

  ghost predicate LeavesLease(steps: seq<Step>, n: nat) {
    forall i | 0 <= i < |steps| :: steps[i] != LandLease(n) && steps[i] != DropLease(n)
  }

  lemma {:induction false} UnderwayStaysThroughout(s: State, steps: seq<Step>, n: nat)
    requires ReleaseUnderway(s, n) && Executes(s, steps) && QuietElsewhere(s, steps, n) && LeavesLease(steps, n)
    ensures ReleaseUnderway(Final(s, steps), n)
    decreases |steps|
  {
    if steps != [] {
      UnderwayStays(s, steps[0], n);
      UnderwayStaysThroughout(After(s, steps[0]), steps[1..], n);
    }
  }

  /** Every release that lands reaches the window, whatever the run was writing before and writes meanwhile. */
  lemma ReleaseReachesWindow(s: State, steps: seq<Step>, n: nat)
    requires Inv(s) && Enabled(s, CheckLease(n, true))
    requires Executes(After(s, CheckLease(n, true)), steps)
    requires QuietElsewhere(After(s, CheckLease(n, true)), steps, n) && LeavesLease(steps, n)
    ensures var t := Final(After(s, CheckLease(n, true)), steps);
            Enabled(t, LandLease(n)) && AtRelease(After(t, LandLease(n)), n)
  {
    ReleaseStarts(s, n);
    UnderwayStaysThroughout(After(s, CheckLease(n, true)), steps, n);
    ReleaseLands(Final(After(s, CheckLease(n, true)), steps), n);
  }

  /** Another write of the run is in flight, or would still be admitted. */
  ghost predicate Exposed(now: int, r: Run) {
    r.pending != [] || MayWrite(r.fence, now)
  }

  /** Only steps of run `n` may break the quiet of a release. */
  ghost predicate QuietElsewhere(s: State, steps: seq<Step>, n: nat)
    requires Executes(s, steps)
    decreases |steps|
  {
    steps == [] ||
      (&& (Quiet(s, steps[0]) || (steps[0].CheckWrite? && steps[0].n == n))
       && QuietElsewhere(After(s, steps[0]), steps[1..], n))
  }

  ghost predicate Overlaps(s: State, steps: seq<Step>, n: nat) {
    Executes(s, steps) && QuietElsewhere(s, steps, n) && !Exclusive(s, steps)
  }

  lemma LateLanding(s: State, n: nat) returns (steps: seq<Step>)
    requires Exists(s, n) && !Latest(s, n) && s.runs[n].pending != []
    ensures Overlaps(s, steps, n)
  {
    var step := LandWrite(n, 0);
    steps := [step];
    assert Lands(step, n);
    assert steps[1..] == [];
    assert Executes(After(s, step), []);
  }

  lemma Precede(s: State, step: Step, rest: seq<Step>, n: nat) returns (steps: seq<Step>)
    requires Enabled(s, step) && (Quiet(s, step) || (step.CheckWrite? && step.n == n))
    requires Overlaps(After(s, step), rest, n)
    ensures Overlaps(s, steps, n)
  {
    steps := [step] + rest;
    assert steps[1..] == rest;
  }

  lemma ExposedReleaseBreaksExclusion(s: State, n: nat) returns (steps: seq<Step>)
    requires AtRelease(s, n) && Exposed(s.now, s.runs[n])
    ensures Overlaps(s, steps, n)
  {
    var r := s.runs[n];
    var s1 := After(s, CreateRun);
    assert s1.runs[n] == r;
    if r.pending != [] {
      steps := LateLanding(s1, n);
    } else {
      var s2 := After(s1, CheckWrite(n));
      steps := LateLanding(s2, n);
      steps := Precede(s1, CheckWrite(n), steps, n);
    }
    steps := Precede(s, CreateRun, steps, n);
  }

  /** Nothing of run `n` is in flight but its release, and its fence lets nothing start. */
  ghost predicate Shut(s: State, n: nat) {
    && Exists(s, n)
    && s.runs[n].boot.Armed? && s.runs[n].lease.Some?
    && Released(s.runs[n])
    && s.runs[n].pending == [] && !MayWrite(s.runs[n].fence, s.now)
  }

  lemma ShutStaysShut(s: State, step: Step, n: nat)
    requires Shut(s, n) && Enabled(s, step)
    ensures Shut(After(s, step), n) && !(step.CheckWrite? && step.n == n)
  {
    ReleaseIsFinal(s, step, n);
  }

  lemma {:induction false} ShutReleaseKeepsExclusion(s: State, steps: seq<Step>, n: nat)
    requires Inv(s) && Shut(s, n)
    requires Executes(s, steps) && QuietElsewhere(s, steps, n)
    ensures Exclusive(s, steps)
    decreases |steps|
  {
    if steps != [] {
      ShutStaysShut(s, steps[0], n);
      forall m: nat | Lands(steps[0], m) ensures Latest(s, m) {
        LandingRunIsLatest(s, steps[0], m);
      }
      StepKeepsInv(s, steps[0]);
      ShutReleaseKeepsExclusion(After(s, steps[0]), steps[1..], n);
    }
  }

  /** Exactly when a release gives up exclusion: between its expired lease landing and its fence closing, a
      write of the same run that is in flight, or that the fence still admits, can land after a new run exists. */
  lemma ReleaseWindow(s: State, n: nat)
    requires AtRelease(s, n)
    ensures (exists steps :: Overlaps(s, steps, n)) <==> Exposed(s.now, s.runs[n])
  {
    var r := s.runs[n];
    if Exposed(s.now, r) {
      var steps := ExposedReleaseBreaksExclusion(s, n);
    } else {
      assert r.(pending := []) == r;
      assert Shut(s, n) && Inv(s);
      forall steps | Executes(s, steps) && QuietElsewhere(s, steps, n) ensures !Overlaps(s, steps, n) {
        ShutReleaseKeepsExclusion(s, steps, n);
      }
    }
  }

  /** The window is real: from the very start, an execution in which the released run writes after its successor
      exists. */
  lemma ReleaseCanOverlap() returns (steps: seq<Step>)
    ensures Executes(Start, steps) && !Exclusive(Start, steps)
  {
    var s1 := After(Start, CreateRun);
    var s2 := After(s1, WriteStartLease(0, 180_000));
    var s3 := After(s2, BootLooks(0));
    var s4 := After(s3, BootArms(0, 0));
    var s5 := After(s4, CheckLease(0, true));
    var s6 := After(s5, LandLease(0));
    var rest := ExposedReleaseBreaksExclusion(s6, 0);
    steps := [LandLease(0)] + rest;
    assert steps[1..] == rest;
    assert Executes(s5, steps) && !Exclusive(s5, steps);
    steps := Before(s4, CheckLease(0, true), steps);
    steps := Before(s3, BootArms(0, 0), steps);
    steps := Before(s2, BootLooks(0), steps);
    steps := Before(s1, WriteStartLease(0, 180_000), steps);
    steps := Before(Start, CreateRun, steps);
  }

  lemma Before(s: State, step: Step, rest: seq<Step>) returns (steps: seq<Step>)
    requires Enabled(s, step) && Executes(After(s, step), rest) && !Exclusive(After(s, step), rest)
    ensures Executes(s, steps) && !Exclusive(s, steps)
  {
    steps := [step] + rest;
    assert steps[1..] == rest;
  }
}
