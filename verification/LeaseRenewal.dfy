/**
 What renewing achieves (`RunLease` of ts-apps/cloud-agent/src/lease.ts): a lease that was written and reported lets its
 run write up to the margin before it runs out, longer or shorter than the one before, and a run that renews in time is
 never refused.
 */
module LeaseRenewal {
  import opened Wrappers
  import opened Fences
  import C = LeaseChain
  import R = RunExclusion

  // ----- For a run among the others -----

  /** Run `n` learns that a lease it renewed is on disk. */
  predicate Reports(s: R.State, step: R.Step, n: nat) {
    && step == R.LeaseDone(n) && R.Exists(s, n)
    && s.runs[n].leaseWrite.Some? && !s.runs[n].leaseWrite.value.final
  }

  /** Steps that write no new lease into the fence of run `n` and do not shut it. */
  predicate LeavesFence(step: R.Step, n: nat) {
    !(step == R.LeaseDone(n) || step == R.RefuseWrite(n) || step == R.Supersede(n) || step == R.DropLease(n)
      || (step.BootArms? && step.n == n))
  }

  lemma {:induction false} FenceStands(s: R.State, steps: seq<R.Step>, n: nat)
    requires R.Executes(s, steps) && R.Exists(s, n) && s.runs[n].boot.Armed?
    requires forall step | step in steps :: LeavesFence(step, n)
    ensures var t := R.Final(s, steps);
            R.Exists(t, n) && t.runs[n].boot.Armed? && t.runs[n].fence == s.runs[n].fence
    decreases |steps|
  {
    if steps != [] {
      assert steps[0] in steps;
      FenceStands(R.After(s, steps[0]), steps[1..], n);
    }
  }

  /**
   From the report of a lease that runs out at `x` until the next report, refusal or close: a write is let through
   exactly when the fence is open and the time is before the margin of `x`, whatever lease counted before.
   */
  lemma RenewalCounts(s: R.State, n: nat, x: int, steps: seq<R.Step>)
    requires R.Enabled(s, R.LeaseDone(n)) && Reports(s, R.LeaseDone(n), n) && s.runs[n].boot.Armed?
    requires s.runs[n].leaseWrite.value.expiresAt == x
    requires R.Executes(R.After(s, R.LeaseDone(n)), steps) && forall step | step in steps :: LeavesFence(step, n)
    ensures var t := R.Final(R.After(s, R.LeaseDone(n)), steps);
            R.Enabled(t, R.CheckWrite(n)) <==> !s.runs[n].fence.closed && t.now < x - FENCE_MARGIN_MS
  {
    FenceStands(R.After(s, R.LeaseDone(n)), steps, n);
  }

  /** The expiry of the lease that run `n` has had reported last, `x` before this step. */
  function Newest(s: R.State, step: R.Step, n: nat, x: int): int {
    if Reports(s, step, n) then s.runs[n].leaseWrite.value.expiresAt else x
  }

  /** The run is not given up, and time always stays before the margin of the lease reported last. */
  ghost predicate KeepsUp(s: R.State, steps: seq<R.Step>, n: nat, x: int)
    requires R.Executes(s, steps)
    decreases |steps|
  {
    && s.now < x - FENCE_MARGIN_MS
    && (steps == [] ||
        (&& steps[0] != R.Supersede(n) && steps[0] != R.CheckLease(n, true)
         && KeepsUp(R.After(s, steps[0]), steps[1..], n, Newest(s, steps[0], n, x))))
  }

  /** The fence of run `n` stands open until `x`, and no release is under way. */
  ghost predicate OpenUntil(s: R.State, n: nat, x: int) {
    && R.Exists(s, n) && s.runs[n].boot.Armed? && !R.Releasing(s.runs[n])
    && !s.runs[n].fence.closed && s.runs[n].fence.validUntil == x
  }

  lemma {:induction false} KeepingUpPasses(s: R.State, steps: seq<R.Step>, n: nat, x: int)
    requires OpenUntil(s, n, x) && R.Executes(s, steps) && KeepsUp(s, steps, n, x)
    ensures R.RefuseWrite(n) !in steps
    ensures R.Enabled(R.Final(s, steps), R.CheckWrite(n))
    decreases |steps|
  {
    if steps != [] {
      KeepingUpPasses(R.After(s, steps[0]), steps[1..], n, Newest(s, steps[0], n, x));
      assert steps == [steps[0]] + steps[1..];
    }
  }

  /**
   From boot on: a run whose renewals keep up with its leases, and that is neither superseded nor released, is never
   refused a write.
   */
  lemma RenewedRunIsNeverRefused(s: R.State, n: nat, sampled: int, steps: seq<R.Step>)
    requires R.Inv(s) && R.Enabled(s, R.BootArms(n, sampled))
    requires R.Executes(R.After(s, R.BootArms(n, sampled)), steps)
    requires KeepsUp(R.After(s, R.BootArms(n, sampled)), steps, n, s.runs[n].lease.value)
    ensures R.RefuseWrite(n) !in steps
    ensures R.Enabled(R.Final(R.After(s, R.BootArms(n, sampled)), steps), R.CheckWrite(n))
  {
    assert R.RunInv(s.now, s.runs[n], R.Latest(s, n));
    KeepingUpPasses(R.After(s, R.BootArms(n, sampled)), steps, n, s.runs[n].lease.value);
  }

  // ----- For the promise chain -----

  /** The chain learns that a lease it renewed is on disk. */
  predicate ChainReports(c: C.Chain, act: C.Act) {
    act.Reports? && C.Possible(c, act) && !c.jobs[c.done].write.value.final
  }

  /** Nothing is reported, refused or closed in this step. */
  predicate LeavesChainFence(c: C.Chain, act: C.Act)
    requires C.Possible(c, act)
  {
    match act
    case RenewFinds(newer) => !newer
    case Supersede => false
    case Release => c.held
    case OtherCheck => MayWrite(c.fence, c.now)
    case Microtask(_) => !c.tasks[0].CloseFence? && (c.tasks[0].RunJob? ==> MayWrite(c.fence, c.now))
    case Reports(_) => false
    case _ => true
  }

  ghost predicate LeavesChainFenceThroughout(c: C.Chain, acts: seq<C.Act>)
    requires C.Executes(c, acts)
    decreases |acts|
  {
    acts == [] || (LeavesChainFence(c, acts[0]) && LeavesChainFenceThroughout(C.Next(c, acts[0]), acts[1..]))
  }

  lemma {:induction false} ChainFenceStands(c: C.Chain, acts: seq<C.Act>)
    requires C.Executes(c, acts) && LeavesChainFenceThroughout(c, acts)
    ensures C.Last(c, acts).fence == c.fence
    decreases |acts|
  {
    if acts != [] {
      ChainFenceStands(C.Next(c, acts[0]), acts[1..]);
    }
  }

  /** The same for the chain. */
  lemma ChainRenewalCounts(c: C.Chain, hops: nat, x: int, acts: seq<C.Act>)
    requires ChainReports(c, C.Reports(hops)) && c.jobs[c.done].write.value.expiresAt == x
    requires C.Executes(C.Next(c, C.Reports(hops)), acts)
    requires LeavesChainFenceThroughout(C.Next(c, C.Reports(hops)), acts)
    ensures var d := C.Last(C.Next(c, C.Reports(hops)), acts);
            MayWrite(d.fence, d.now) <==> !c.fence.closed && d.now < x - FENCE_MARGIN_MS
  {
    ChainFenceStands(C.Next(c, C.Reports(hops)), acts);
  }

  function ChainNewest(c: C.Chain, act: C.Act, x: int): int {
    if ChainReports(c, act) then c.jobs[c.done].write.value.expiresAt else x
  }

  ghost predicate ChainKeepsUp(c: C.Chain, acts: seq<C.Act>, x: int)
    requires C.Executes(c, acts)
    decreases |acts|
  {
    && c.now < x - FENCE_MARGIN_MS
    && (acts == [] ||
        (&& acts[0] !in {C.Supersede, C.Release, C.RenewFinds(true)}
         && ChainKeepsUp(C.Next(c, acts[0]), acts[1..], ChainNewest(c, acts[0], x))))
  }

  /** No release was ever called. */
  ghost predicate Unreleased(c: C.Chain) {
    && C.Inv(c) && C.CloseFence !in c.tasks
    && forall i | 0 <= i < |c.jobs| :: !c.jobs[i].expired
  }

  /** The fence stands open until `x`. */
  ghost predicate ChainOpenUntil(c: C.Chain, x: int) {
    !c.fence.closed && c.fence.validUntil == x
  }

  lemma TaskUnreleased(c: C.Chain, hops: nat)
    requires Unreleased(c) && c.tasks != [] && c.now < c.fence.validUntil - FENCE_MARGIN_MS && !c.fence.closed
    requires C.Inv(C.Next(c, C.Microtask(hops)))
    ensures var d := C.Next(c, C.Microtask(hops)); Unreleased(d) && d.fence == c.fence && d.held == c.held
  {
    var d := C.Next(c, C.Microtask(hops));
    assert c.tasks[0] in c.tasks;
    match c.tasks[0]
    case Settle(n, left) =>
      if left == 0 {
        C.FirstTask(c);
        assert C.JobInv(c, n);
        assert C.CloseFence !in c.jobs[n].reactions;
      }
      hide C.Inv;
    case _ => hide C.Inv;
  }

  lemma EndUnreleased(c: C.Chain, hops: nat)
    requires Unreleased(c) && C.Underway(c) && C.Inv(C.Finish(c, hops)) && !c.fence.closed
    ensures Unreleased(C.Finish(c, hops)) && C.Finish(c, hops).held == c.held
    ensures var w, d := c.jobs[c.done].write.value, C.Finish(c, hops);
            !w.final && d.fence == if w.landed then c.fence.(validUntil := w.expiresAt) else c.fence
  {
    assert C.JobInv(c, c.done);
    hide C.Inv;
  }

  /** Neither a microtask nor the end of a write. */
  lemma OtherUnreleased(c: C.Chain, act: C.Act)
    requires Unreleased(c) && C.Possible(c, act) && C.Inv(C.Next(c, act))
    requires MayWrite(c.fence, c.now)
    requires act !in {C.Supersede, C.Release, C.RenewFinds(true)}
    requires !act.Microtask? && !act.Reports? && !act.Fails?
    ensures var d := C.Next(c, act); Unreleased(d) && d.fence == c.fence && (c.held ==> d.held)
  {
    hide C.Inv;
  }

  lemma ActUnreleased(c: C.Chain, act: C.Act)
    requires Unreleased(c) && C.Possible(c, act) && C.Inv(C.Next(c, act))
    requires MayWrite(c.fence, c.now)
    requires act !in {C.Supersede, C.Release, C.RenewFinds(true)}
    ensures var d := C.Next(c, act);
            Unreleased(d) && ChainOpenUntil(d, ChainNewest(c, act, c.fence.validUntil)) && (c.held ==> d.held)
    ensures C.Next(c, act).fence.violated == c.fence.violated
  {
    hide C.Inv, Unreleased, C.Finish, C.RunTask;
    match act
    case Microtask(hops) => TaskUnreleased(c, hops);
    case Reports(hops) => EndUnreleased(c, hops);
    case Fails(hops) => EndUnreleased(c, hops);
    case _ => OtherUnreleased(c, act);
  }

  /** A run whose renewals keep up is never refused, and stays the holder of its lease. */
  lemma {:induction false} RenewedChainIsNeverRefused(c: C.Chain, acts: seq<C.Act>, x: int)
    requires Unreleased(c) && C.Executes(c, acts) && ChainKeepsUp(c, acts, x) && ChainOpenUntil(c, x)
    ensures var d := C.Last(c, acts);
            MayWrite(d.fence, d.now) && (c.held ==> d.held) && d.fence.violated == c.fence.violated
    decreases |acts|
  {
    hide Unreleased;
    if acts != [] {
      hide C.Next;
      assert C.Inv(c) by {
        UnreleasedInv(c);
      }
      C.StepKeepsInv(c, acts[0]);
      ActUnreleased(c, acts[0]);
      RenewedChainIsNeverRefused(C.Next(c, acts[0]), acts[1..], ChainNewest(c, acts[0], x));
    }
  }

  lemma UnreleasedInv(c: C.Chain)
    requires Unreleased(c)
    ensures C.Inv(c)
  {
  }

  lemma FreshUnreleased(c: C.Chain)
    requires C.Fresh(c)
    ensures Unreleased(c)
  {
    C.FreshInv(c);
  }

  /** From the first lease on, with the fence armed until `x`. */
  lemma RenewingKeepsThePermission(c: C.Chain, acts: seq<C.Act>, x: int)
    requires C.Fresh(c) && c.fence.validUntil == x && C.Executes(c, acts) && ChainKeepsUp(c, acts, x)
    ensures var d := C.Last(c, acts); MayWrite(d.fence, d.now) && d.fence.violated == c.fence.violated
  {
    FreshUnreleased(c);
    RenewedChainIsNeverRefused(c, acts, x);
  }
}
