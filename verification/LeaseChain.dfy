/**
 The lease writes of one run (`RunLease` of ts-apps/cloud-agent/src/lease.ts): renewals that look for a newer run before
 they write, writes chained by promises, and a release that resumes when its own write settles.

 A promise settles in a microtask; its reactions are then queued in the order in which they were registered, and
 microtasks run first in, first out. Everything else (timers, callers, the disk) may act between any two of them.
 */
module LeaseChain {
  import opened Wrappers
  import opened Fences
  import R = RunExclusion

  /** A queued microtask. */
  datatype Task =
    | CloseFence                    // `release` resumes: its `finally` closes the fence
    | Caught(n: nat)                // the `catch` in front of job `n` has let it through
    | RunJob(n: nat)                // job `n` starts
    | Settle(n: nat, hops: nat)     // job `n` has ended; its promise settles `hops` microtasks later

  datatype Phase = Waiting | Writing | Settling | Settled

  /** A call of `write`: its progress, what it checked and wrote, and the reactions registered on its promise. */
  datatype Job = Job(expired: bool, phase: Phase, write: Option<R.LeaseWrite>, reactions: seq<Task>)

  datatype Chain = Chain(
    now: int,
    lease: Option<int>,             // expiry in the lease file
    fence: FenceState,
    held: bool,
    looking: nat,                   // renewals that passed `held` and wait to hear whether a newer run exists
    jobs: seq<Job>,                 // in the order of the calls
    tasks: seq<Task>,
    done: nat,                      // how many jobs have settled
    slot: Option<R.LeaseWrite>)       // the write as `RunExclusion` sees it; no step looks at it

  datatype Act =
    | Pass(ms: nat)
    | Begin                         // `start`
    | RenewLooks
    | RenewFinds(newer: bool)
    | RenewFails                    // looking failed
    | SetState                      // `set`
    | Supersede
    | Release
    | OtherCheck                    // another writer asks the fence
    | Microtask(hops: nat)
    | Lands                         // the rename of the write under way
    | Reports(hops: nat)            // the writer learns that it happened
    | Fails(hops: nat)              // or that the write failed

  predicate Underway(c: Chain) {
    c.done < |c.jobs| && c.jobs[c.done].phase == Writing && c.jobs[c.done].write.Some?
  }

  predicate Possible(c: Chain, act: Act) {
    match act
    case Begin => c.jobs == [] && !c.held
    case RenewLooks => c.held
    case RenewFinds(_) => c.looking > 0
    case RenewFails => c.looking > 0
    case Microtask(_) => c.tasks != []
    case Lands => Underway(c) && !c.jobs[c.done].write.value.landed
    case Reports(_) => Underway(c) && c.jobs[c.done].write.value.landed
    case Fails(_) => Underway(c) && !c.jobs[c.done].write.value.landed
    case _ => true
  }

  // ----- The code -----

  /** `write`: chained behind the last call; a caller that waits for it registers `reactions` at once. */
  function Write(c: Chain, expired: bool, reactions: seq<Task>): Chain {
    var n := |c.jobs|;
    var job := Job(expired, Waiting, None, reactions);
    if n == 0 || c.jobs[n - 1].phase == Settled then
      c.(jobs := c.jobs + [job], tasks := c.tasks + [Caught(n)])
    else
      var last := c.jobs[n - 1];
      c.(jobs := c.jobs[n - 1 := last.(reactions := last.reactions + [Caught(n)])] + [job])
  }

  /** `supersede` of the runner: the fence closes and the lease is not renewed any more. */
  function Stop(c: Chain): Chain {
    c.(held := false, fence := AfterOp(c.fence, Close, true))
  }

  /** A refused check; the first violation makes the runner stop. */
  function Refuse(c: Chain): Chain {
    c.(fence := AfterOp(c.fence, Check(c.now), true), held := c.held && (c.fence.closed || c.fence.violated))
  }

  function WithJob(c: Chain, n: nat, job: Job): Chain
    requires n < |c.jobs|
  {
    c.(jobs := c.jobs[n := job])
  }

  function Start(c: Chain, n: nat, hops: nat): Chain {
    if n >= |c.jobs| then c
    else if MayWrite(c.fence, c.now) then
      var job := c.jobs[n];
      var w := R.LeaseWrite(c.now, c.now + (if job.expired then 0 else R.LEASE_TTL_MS), job.expired, false);
      WithJob(c, n, job.(phase := Writing, write := Some(w))).(slot := Some(w))
    else
      Refuse(WithJob(c, n, c.jobs[n].(phase := Settling))).(tasks := c.tasks + [Settle(n, hops)])
  }

  function SettleNow(c: Chain, n: nat): Chain {
    if n >= |c.jobs| then c
    else
      var job := c.jobs[n];
      WithJob(c, n, job.(phase := Settled, reactions := [])).(tasks := c.tasks + job.reactions, done := n + 1)
  }

  function RunTask(c: Chain, task: Task, hops: nat): Chain {
    match task
    case CloseFence => c.(fence := AfterOp(c.fence, Close, true), slot := None)
    case Caught(n) => c.(tasks := c.tasks + [RunJob(n)])
    case RunJob(n) => Start(c, n, hops)
    case Settle(n, left) => if left > 0 then c.(tasks := c.tasks + [Settle(n, left - 1)]) else SettleNow(c, n)
  }

  /** The write under way has ended, well or not. */
  function Finish(c: Chain, hops: nat): Chain
    requires Underway(c)
  {
    var job, w := c.jobs[c.done], c.jobs[c.done].write.value;
    WithJob(c, c.done, job.(phase := Settling)).(
      fence := if w.landed && !w.final then AfterOp(c.fence, Renew(w.expiresAt), true) else c.fence,
      slot := if w.final then c.slot else None,
      tasks := c.tasks + [Settle(c.done, hops)])
  }

  function Next(c: Chain, act: Act): Chain
    requires Possible(c, act)
  {
    match act
    case Pass(ms) => c.(now := c.now + ms)
    case Begin => Write(c.(held := true), false, [])
    case RenewLooks => c.(looking := c.looking + 1)
    case RenewFinds(newer) =>
      var d := c.(looking := c.looking - 1);
      if newer then Stop(d) else Write(d, false, [])
    case RenewFails => c.(looking := c.looking - 1)
    case SetState => if c.held then Write(c, false, []) else c
    case Supersede => Stop(c)
    case Release =>
      if c.held then Write(c.(held := false), true, [CloseFence])
      else c.(fence := AfterOp(c.fence, Close, true))
    case OtherCheck => if MayWrite(c.fence, c.now) then c else Refuse(c)
    case Microtask(hops) => RunTask(c.(tasks := c.tasks[1..]), c.tasks[0], hops)
    case Lands =>
      var w := c.jobs[c.done].write.value.(landed := true);
      WithJob(c, c.done, c.jobs[c.done].(write := Some(w))).(lease := Some(w.expiresAt), slot := Some(w))
    case Reports(hops) => Finish(c, hops)
    case Fails(hops) => Finish(c, hops)
  }

  /** `checkRun` has armed the fence with the lease on disk; nothing has been written. */
  predicate Fresh(c: Chain) {
    && c.lease.Some? && !c.fence.closed && !c.held && c.looking == 0
    && c.jobs == [] && c.tasks == [] && c.done == 0 && c.slot == None
  }

  // ----- The invariant -----

  /** The tasks that drive jobs. */
  function Driving(tasks: seq<Task>): seq<Task> {
    if tasks == [] then []
    else Driving(tasks[..|tasks| - 1]) + if tasks[|tasks| - 1].CloseFence? then [] else [tasks[|tasks| - 1]]
  }

  predicate Drives(task: Task, n: nat, phase: Phase) {
    match task
    case CloseFence => false
    case Caught(m) => m == n && phase == Waiting
    case RunJob(m) => m == n && phase == Waiting
    case Settle(m, _) => m == n && phase == Settling
  }

  /** One task drives the first unsettled job, unless that is writing; no task drives any other. */
  ghost predicate DriverInv(c: Chain) {
    c.done <= |c.jobs| &&
    var ts := Driving(c.tasks);
    if c.done == |c.jobs| || c.jobs[c.done].phase == Writing then ts == []
    else |ts| == 1 && Drives(ts[0], c.done, c.jobs[c.done].phase)
  }

  /** The release comes first, then the next job of `count`. */
  function Reactions(expired: bool, i: nat, count: nat): seq<Task> {
    (if expired then [CloseFence] else []) + if i + 1 < count then [Caught(i + 1)] else []
  }

  predicate JobInv(c: Chain, i: nat)
    requires i < |c.jobs|
  {
    var job := c.jobs[i];
    && (job.phase == Settled <==> i < c.done)
    && (i > c.done ==> job.phase == Waiting)
    && (job.phase == Waiting ==> job.write.None?)
    && (job.phase == Writing ==> job.write.Some?)
    && (job.write.Some? ==> job.write.value.final == job.expired)
    && (i >= c.done ==> job.reactions == Reactions(job.expired, i, |c.jobs|))
  }

  ghost predicate JobsInv(c: Chain) {
    c.done <= |c.jobs| && forall i: nat | i < |c.jobs| :: JobInv(c, i)
  }

  ghost predicate ChainInv(c: Chain) {
    JobsInv(c) && DriverInv(c)
  }

  predicate IsRelease(c: Chain, r: nat) {
    r < |c.jobs| && c.jobs[r].expired
  }

  /** Behind a settled release the fence is closed, or closing it is the very next microtask; nothing later was
      checked. */
  predicate ReleaseInv(c: Chain, r: nat)
    requires r < |c.jobs|
  {
    && !c.held
    && (forall i | r < i < |c.jobs| :: c.jobs[i].write.None? && !c.jobs[i].expired)
    && (r < c.done ==> c.fence.closed || (c.tasks != [] && c.tasks[0] == CloseFence))
  }

  ghost predicate ReleasesInv(c: Chain) {
    && (forall r: nat | IsRelease(c, r) :: ReleaseInv(c, r))
    && (CloseFence in c.tasks ==> exists r: nat :: IsRelease(c, r) && r < c.done)
  }

  ghost predicate WriteInv(c: Chain) {
    if Underway(c) then c.slot == c.jobs[c.done].write else c.slot.Some? ==> SlotInv(c)
  }

  ghost predicate Inv(c: Chain) {
    ChainInv(c) && ReleasesInv(c) && WriteInv(c)
  }

  /** A write that is over but not let go of yet is that of a release. */
  ghost predicate SlotInv(c: Chain) {
    exists r: nat {:trigger IsRelease(c, r)} ::
      IsRelease(c, r) && r <= c.done && c.jobs[r].write == c.slot && c.jobs[r].phase in {Settling, Settled}
  }

  // ----- Every step keeps it -----

  lemma {:induction false} DrivingAppend(a: seq<Task>, b: seq<Task>)
    ensures Driving(a + b) == Driving(a) + Driving(b)
  {
    if b == [] {
      assert a + b == a;
    } else {
      var k := |b| - 1;
      DrivingAppend(a, b[..k]);
      assert (a + b)[..|a + b| - 1] == a + b[..k];
    }
  }

  lemma DrivingOne(task: Task)
    ensures Driving([task]) == if task.CloseFence? then [] else [task]
  {
    assert [task][..0] == [];
  }

  lemma DrivingReactions(expired: bool, i: nat, count: nat)
    ensures Driving(Reactions(expired, i, count)) == if i + 1 < count then [Caught(i + 1)] else []
  {
    DrivingAppend(if expired then [CloseFence] else [], if i + 1 < count then [Caught(i + 1)] else []);
    DrivingOne(CloseFence);
    DrivingOne(Caught(i + 1));
  }

  lemma MoreReactions(expired: bool, i: nat, n: nat)
    requires i < n
    ensures Reactions(expired, i, n + 1) == Reactions(expired, i, n) + if i + 1 == n then [Caught(n)] else []
    ensures Reactions(expired, n, n + 1) == if expired then [CloseFence] else []
  {
  }

  lemma WriteKeepsJobs(c: Chain, expired: bool)
    requires JobsInv(c)
    ensures JobsInv(Write(c, expired, if expired then [CloseFence] else []))
  {
    hide Reactions;
    var n := |c.jobs|;
    var d := Write(c, expired, if expired then [CloseFence] else []);
    if n > 0 {
      assert JobInv(c, n - 1);
      MoreReactions(expired, n - 1, n);
    } else {
      NoReactions(expired);
    }
    forall i: nat | i < |d.jobs| ensures JobInv(d, i) {
      if i < n {
        assert JobInv(c, i);
        MoreReactions(c.jobs[i].expired, i, n);
      }
    }
  }

  lemma NoReactions(expired: bool)
    ensures Reactions(expired, 0, 1) == if expired then [CloseFence] else []
  {
  }

  lemma WriteKeepsChain(c: Chain, expired: bool)
    requires ChainInv(c)
    ensures ChainInv(Write(c, expired, if expired then [CloseFence] else []))
  {
    hide Driving;
    var n := |c.jobs|;
    WriteKeepsJobs(c, expired);
    if n > 0 {
      assert JobInv(c, n - 1);
    }
    DrivingAppend(c.tasks, [Caught(n)]);
    DrivingOne(Caught(n));
    hide JobsInv;
  }

  lemma ChangedJobKeepsJobs(c: Chain, job: Job)
    requires JobsInv(c) && c.done < |c.jobs|
    requires job.expired == c.jobs[c.done].expired && job.reactions == c.jobs[c.done].reactions
    requires job.phase != Settled && (job.phase == Waiting ==> job.write.None?)
    requires (job.phase == Writing ==> job.write.Some?) && (job.write.Some? ==> job.write.value.final == job.expired)
    ensures JobsInv(WithJob(c, c.done, job))
  {
    var d := WithJob(c, c.done, job);
    forall i: nat | i < |d.jobs| ensures JobInv(d, i) {
      assert JobInv(c, i);
    }
  }

  lemma SameJobs(c: Chain, d: Chain)
    requires JobsInv(c) && d.jobs == c.jobs && d.done == c.done
    ensures JobsInv(d)
  {
    forall i: nat | i < |d.jobs| ensures JobInv(d, i) {
      assert JobInv(c, i);
    }
  }

  lemma StartKeepsChain(c: Chain, n: nat, hops: nat)
    requires c.tasks != [] && c.tasks[0] == RunJob(n) && ChainInv(c)
    ensures ChainInv(Start(c.(tasks := c.tasks[1..]), n, hops)) && n == c.done < |c.jobs|
  {
    hide Driving;
    FirstTask(c);
    var b := c.(tasks := c.tasks[1..]);
    var d := Start(b, n, hops);
    assert JobInv(c, n);
    SameJobs(c, b);
    ChangedJobKeepsJobs(b, d.jobs[n]);
    assert d.jobs == b.jobs[n := d.jobs[n]];
    SameJobs(WithJob(b, n, d.jobs[n]), d);
    DrivingAppend(b.tasks, [Settle(n, hops)]);
    DrivingOne(Settle(n, hops));
    hide JobsInv, JobInv;
  }

  /** Taking the first task off the queue leaves no other driving one, if it was one. */
  lemma FirstTask(c: Chain)
    requires c.tasks != [] && DriverInv(c)
    ensures Driving(c.tasks) == Driving([c.tasks[0]]) + Driving(c.tasks[1..])
    ensures !c.tasks[0].CloseFence? ==>
              && c.done < |c.jobs| && Drives(c.tasks[0], c.done, c.jobs[c.done].phase)
              && Driving(c.tasks[1..]) == []
    ensures c.tasks[0].CloseFence? ==> Driving(c.tasks[1..]) == Driving(c.tasks)
  {
    assert c.tasks == [c.tasks[0]] + c.tasks[1..];
    DrivingAppend([c.tasks[0]], c.tasks[1..]);
    DrivingOne(c.tasks[0]);
    if !c.tasks[0].CloseFence? {
      assert Driving(c.tasks)[0] == c.tasks[0];
    }
  }

  lemma SettleKeepsJobs(c: Chain)
    requires JobsInv(c) && c.done < |c.jobs|
    ensures JobsInv(SettleNow(c, c.done))
  {
    var d := SettleNow(c, c.done);
    forall i: nat | i < |d.jobs| ensures JobInv(d, i) {
      assert JobInv(c, i);
    }
  }

  lemma SettleKeepsChain(c: Chain, n: nat)
    requires c.tasks != [] && c.tasks[0] == Settle(n, 0) && ChainInv(c)
    ensures ChainInv(SettleNow(c.(tasks := c.tasks[1..]), n)) && n == c.done < |c.jobs|
  {
    hide Driving;
    FirstTask(c);
    assert JobInv(c, n);
    assert n + 1 < |c.jobs| ==> JobInv(c, n + 1);
    var b := c.(tasks := c.tasks[1..]);
    SameJobs(c, b);
    SettleKeepsJobs(b);
    DrivingAppend(b.tasks, c.jobs[n].reactions);
    DrivingReactions(c.jobs[n].expired, n, |c.jobs|);
    hide JobsInv, Reactions;
  }

  /** A task that only makes way for the next one of the same job. */
  lemma HandOver(c: Chain, task: Task)
    requires c.tasks != [] && ChainInv(c) && !c.tasks[0].CloseFence?
    requires c.done < |c.jobs| && Drives(task, c.done, c.jobs[c.done].phase)
    ensures ChainInv(c.(tasks := c.tasks[1..] + [task]))
  {
    hide Driving;
    FirstTask(c);
    DrivingAppend(c.tasks[1..], [task]);
    DrivingOne(task);
    SameJobs(c, c.(tasks := c.tasks[1..] + [task]));
    hide JobsInv;
  }

  lemma TaskKeepsChain(c: Chain, hops: nat)
    requires c.tasks != [] && ChainInv(c)
    ensures ChainInv(RunTask(c.(tasks := c.tasks[1..]), c.tasks[0], hops))
  {
    hide Driving, JobsInv;
    FirstTask(c);
    match c.tasks[0]
    case CloseFence =>
      SameJobs(c, RunTask(c.(tasks := c.tasks[1..]), CloseFence, hops));
    case Caught(n) => HandOver(c, RunJob(n));
    case RunJob(n) => StartKeepsChain(c, n, hops);
    case Settle(n, left) =>
      if left > 0 {
        HandOver(c, Settle(n, left - 1));
      } else {
        SettleKeepsChain(c, n);
      }
  }

  lemma FinishKeepsChain(c: Chain, hops: nat)
    requires Underway(c) && ChainInv(c)
    ensures ChainInv(Finish(c, hops))
  {
    hide Driving;
    var d := Finish(c, hops);
    assert JobInv(c, c.done);
    ChangedJobKeepsJobs(c, d.jobs[c.done]);
    assert d.jobs == c.jobs[c.done := d.jobs[c.done]];
    SameJobs(WithJob(c, c.done, d.jobs[c.done]), d);
    DrivingAppend(c.tasks, [Settle(c.done, hops)]);
    DrivingOne(Settle(c.done, hops));
  }

  lemma LandKeepsChain(c: Chain)
    requires Possible(c, Lands) && ChainInv(c)
    ensures ChainInv(Next(c, Lands))
  {
    var d := Next(c, Lands);
    assert JobInv(c, c.done);
    ChangedJobKeepsJobs(c, d.jobs[c.done]);
    assert d.jobs == c.jobs[c.done := d.jobs[c.done]];
    SameJobs(WithJob(c, c.done, d.jobs[c.done]), d);
  }

  lemma ActKeepsChain(c: Chain, act: Act)
    requires Possible(c, act) && ChainInv(c)
    ensures ChainInv(Next(c, act))
  {
    hide Driving, JobsInv;
    match act
    case Begin =>
      SameJobs(c, c.(held := true));
      WriteKeepsChain(c.(held := true), false);
    case RenewFinds(newer) =>
      var d := c.(looking := c.looking - 1);
      SameJobs(c, d);
      if newer {
        SameJobs(c, Stop(d));
      } else {
        WriteKeepsChain(d, false);
      }
    case SetState =>
      if c.held {
        WriteKeepsChain(c, false);
      }
    case Release =>
      if c.held {
        SameJobs(c, c.(held := false));
        WriteKeepsChain(c.(held := false), true);
      } else {
        SameJobs(c, Next(c, Release));
      }
    case Microtask(hops) => TaskKeepsChain(c, hops);
    case Lands => LandKeepsChain(c);
    case Reports(hops) => FinishKeepsChain(c, hops);
    case Fails(hops) => FinishKeepsChain(c, hops);
    case Pass(_) => SameJobs(c, Next(c, act));
    case RenewLooks => SameJobs(c, Next(c, act));
    case RenewFails => SameJobs(c, Next(c, act));
    case Supersede => SameJobs(c, Next(c, act));
    case OtherCheck => SameJobs(c, Next(c, act));
  }

  // ----- Releases -----

  lemma {:induction false} OnlyCloses(tasks: seq<Task>)
    requires Driving(tasks) == []
    ensures forall t | t in tasks :: t == CloseFence
  {
    if tasks != [] {
      var init, last := tasks[..|tasks| - 1], tasks[|tasks| - 1];
      OnlyCloses(init);
      assert tasks == init + [last] && last.CloseFence?;
    }
  }

  /** No job behind a release writes. */
  lemma UnderwayIsNotBehind(c: Chain, r: nat)
    requires ReleasesInv(c) && Underway(c) && IsRelease(c, r)
    ensures c.done <= r
  {
    assert ReleaseInv(c, r);
  }

  /** A call of `write` other than that of a release. */
  lemma WriteKeepsReleases(c: Chain)
    requires ChainInv(c) && ReleasesInv(c)
    ensures ReleasesInv(Write(c, false, []))
  {
    var d := Write(c, false, []);
    forall r: nat | IsRelease(d, r) ensures ReleaseInv(d, r) {
      assert IsRelease(c, r) && ReleaseInv(c, r);
    }
    if CloseFence in d.tasks {
      var r: nat :| IsRelease(c, r) && r < c.done;
      assert IsRelease(d, r);
    }
  }

  lemma ReleaseKeepsReleases(c: Chain)
    requires ChainInv(c) && ReleasesInv(c) && c.held
    ensures ReleasesInv(Write(c.(held := false), true, [CloseFence]))
  {
    var d := Write(c.(held := false), true, [CloseFence]);
    HeldIsNotReleased(c);
    forall r: nat | IsRelease(d, r) ensures ReleaseInv(d, r) {
      assert r < |c.jobs| ==> IsRelease(c, r);
    }
  }

  lemma HeldIsNotReleased(c: Chain)
    requires ReleasesInv(c)
    ensures CloseFence in c.tasks ==> !c.held
    ensures forall r: nat | IsRelease(c, r) :: !c.held
  {
    forall r: nat | IsRelease(c, r) ensures !c.held {
      assert ReleaseInv(c, r);
    }
  }

  lemma StartKeepsReleases(c: Chain, n: nat, hops: nat)
    requires ChainInv(c) && ReleasesInv(c) && c.tasks != [] && c.tasks[0] == RunJob(n)
    ensures ReleasesInv(Start(c.(tasks := c.tasks[1..]), n, hops))
  {
    FirstTask(c);
    hide DriverInv, Driving;
    var d := Start(c.(tasks := c.tasks[1..]), n, hops);
    forall r: nat | IsRelease(d, r) ensures ReleaseInv(d, r) {
      assert IsRelease(c, r) && ReleaseInv(c, r);
    }
    if CloseFence in d.tasks {
      var r: nat :| IsRelease(c, r) && r < c.done;
      assert IsRelease(d, r);
    }
  }

  lemma SettleKeepsReleases(c: Chain, n: nat)
    requires ChainInv(c) && ReleasesInv(c) && c.tasks != [] && c.tasks[0] == Settle(n, 0)
    ensures ReleasesInv(SettleNow(c.(tasks := c.tasks[1..]), n))
  {
    FirstTask(c);
    OnlyCloses(c.tasks[1..]);
    assert JobInv(c, n);
    hide DriverInv, Driving;
    var d := SettleNow(c.(tasks := c.tasks[1..]), n);
    forall r: nat | IsRelease(d, r) ensures ReleaseInv(d, r) {
      assert IsRelease(c, r) && ReleaseInv(c, r);
    }
    if CloseFence in d.tasks {
      if c.jobs[n].expired {
        assert IsRelease(d, n);
      } else {
        var r: nat :| IsRelease(c, r) && r < c.done;
        assert IsRelease(d, r);
      }
    }
  }

  /** Steps that change no job but the one that is writing, put nothing in front of the queue, and open nothing. */
  lemma OthersKeepReleases(c: Chain, d: Chain)
    requires ReleasesInv(c) && |d.jobs| == |c.jobs| && d.done == c.done
    requires forall i | 0 <= i < |c.jobs| :: d.jobs[i].expired == c.jobs[i].expired
    requires forall i | 0 <= i < |c.jobs| :: d.jobs[i].write == c.jobs[i].write || (Underway(c) && i == c.done)
    requires (d.held ==> c.held) && (c.fence.closed ==> d.fence.closed)
    requires d.fence.closed || c.tasks <= d.tasks
    requires CloseFence in d.tasks ==> CloseFence in c.tasks
    ensures ReleasesInv(d)
  {
    forall r: nat | IsRelease(d, r) ensures ReleaseInv(d, r) {
      assert IsRelease(c, r) && ReleaseInv(c, r);
      if Underway(c) {
        UnderwayIsNotBehind(c, r);
      }
    }
    if CloseFence in d.tasks {
      var r: nat :| IsRelease(c, r) && r < c.done;
      assert IsRelease(d, r);
    }
  }

  /** A task that is not a job's start or end, and does not close the fence. */
  lemma HandOverKeepsReleases(c: Chain, task: Task)
    requires ReleasesInv(c) && c.tasks != [] && !c.tasks[0].CloseFence? && !task.CloseFence?
    ensures ReleasesInv(c.(tasks := c.tasks[1..] + [task]))
  {
    var d := c.(tasks := c.tasks[1..] + [task]);
    forall r: nat | IsRelease(d, r) ensures ReleaseInv(d, r) {
      assert IsRelease(c, r) && ReleaseInv(c, r);
    }
    if CloseFence in d.tasks {
      var r: nat :| IsRelease(c, r) && r < c.done;
      assert IsRelease(d, r);
    }
  }

  lemma TaskKeepsReleases(c: Chain, hops: nat)
    requires c.tasks != [] && ChainInv(c) && ReleasesInv(c)
    ensures ReleasesInv(RunTask(c.(tasks := c.tasks[1..]), c.tasks[0], hops))
  {
    hide ChainInv, ReleasesInv, Driving;
    match c.tasks[0]
    case CloseFence => ClosedKeepsReleases(c);
    case Caught(n) => HandOverKeepsReleases(c, RunJob(n));
    case RunJob(n) => StartKeepsReleases(c, n, hops);
    case Settle(n, left) =>
      if left > 0 {
        HandOverKeepsReleases(c, Settle(n, left - 1));
      } else {
        SettleKeepsReleases(c, n);
      }
  }

  lemma ClosedKeepsReleases(c: Chain)
    requires c.tasks != [] && c.tasks[0] == CloseFence && ReleasesInv(c)
    ensures ReleasesInv(RunTask(c.(tasks := c.tasks[1..]), CloseFence, 0))
  {
    var d := RunTask(c.(tasks := c.tasks[1..]), CloseFence, 0);
    forall r: nat | IsRelease(d, r) ensures ReleaseInv(d, r) {
      assert IsRelease(c, r) && ReleaseInv(c, r);
    }
    var r: nat :| IsRelease(c, r) && r < c.done;
    assert IsRelease(d, r);
  }

  lemma ActKeepsReleases(c: Chain, act: Act)
    requires Possible(c, act) && ChainInv(c) && ReleasesInv(c)
    ensures ReleasesInv(Next(c, act))
  {
    hide ChainInv, ReleasesInv;
    match act
    case Begin =>
      SameChain(c, c.(held := true));
      NoReleases(c);
      WriteKeepsReleases(c.(held := true));
    case RenewFinds(newer) =>
      var d := c.(looking := c.looking - 1);
      OthersKeepReleases(c, d);
      if newer {
        OthersKeepReleases(d, Stop(d));
      } else {
        SameChain(c, d);
        WriteKeepsReleases(d);
      }
    case SetState =>
      if c.held {
        WriteKeepsReleases(c);
      }
    case Release =>
      if c.held {
        ReleaseKeepsReleases(c);
      } else {
        OthersKeepReleases(c, Next(c, Release));
      }
    case Microtask(hops) => TaskKeepsReleases(c, hops);
    case Lands => OthersKeepReleases(c, Next(c, act));
    case Reports(_) => OthersKeepReleases(c, Next(c, act));
    case Fails(_) => OthersKeepReleases(c, Next(c, act));
    case Pass(_) => OthersKeepReleases(c, Next(c, act));
    case RenewLooks => OthersKeepReleases(c, Next(c, act));
    case RenewFails => OthersKeepReleases(c, Next(c, act));
    case Supersede => OthersKeepReleases(c, Next(c, act));
    case OtherCheck => OthersKeepReleases(c, Next(c, act));
  }

  lemma NoReleases(c: Chain)
    requires c.jobs == [] && ReleasesInv(c)
    ensures ReleasesInv(c.(held := true))
  {
  }

  lemma SameChain(c: Chain, d: Chain)
    requires ChainInv(c) && d.jobs == c.jobs && d.done == c.done && d.tasks == c.tasks
    ensures ChainInv(d)
  {
    SameJobs(c, d);
  }

  // ----- The write that other runs see -----

  lemma ReleaseHasWritten(c: Chain)
    requires ChainInv(c) && ReleasesInv(c) && c.slot.Some? && SlotInv(c)
    ensures c.slot.value.final
    ensures forall i | c.done < i < |c.jobs| :: c.jobs[i].write.None?
  {
    var r: nat :| IsRelease(c, r) && r <= c.done && c.jobs[r].write == c.slot && c.jobs[r].phase in {Settling, Settled};
    assert JobInv(c, r);
    assert ReleaseInv(c, r);
  }

  /** A job starts only when nothing is held in the slot: it is first in the chain and no release is unfinished. */
  lemma SlotIsFree(c: Chain, n: nat)
    requires Inv(c) && c.tasks != [] && c.tasks[0] == RunJob(n) && MayWrite(c.fence, c.now)
    ensures n == c.done < |c.jobs| && c.jobs[n].phase == Waiting && c.slot == None
  {
    hide Driving;
    FirstTask(c);
    assert JobInv(c, n);
    if c.slot.Some? {
      TakenIsClosed(c);
    }
  }

  lemma TakenIsClosed(c: Chain)
    requires ChainInv(c) && ReleasesInv(c) && c.slot.Some? && SlotInv(c)
    requires c.tasks != [] && c.tasks[0] != CloseFence && c.done < |c.jobs| && c.jobs[c.done].phase == Waiting
    ensures c.fence.closed
  {
    var r: nat :| IsRelease(c, r) && r <= c.done && c.jobs[r].write == c.slot && c.jobs[r].phase in {Settling, Settled};
    assert ReleaseInv(c, r);
  }

  lemma SlotMoves(c: Chain, d: Chain)
    requires WriteInv(c) && !Underway(c) && !Underway(d) && d.slot in {c.slot, None}
    requires |c.jobs| <= |d.jobs| && c.done <= d.done
    requires forall i | 0 <= i < |c.jobs| ::
               d.jobs[i].expired == c.jobs[i].expired && d.jobs[i].write == c.jobs[i].write
    requires forall i | 0 <= i < |c.jobs| :: c.jobs[i].phase in {Settling, Settled} ==>
              d.jobs[i].phase in {Settling, Settled}
    ensures WriteInv(d)
  {
    if d.slot.Some? {
      var r: nat :| IsRelease(c, r) && r <= c.done && c.jobs[r].write == c.slot &&
        c.jobs[r].phase in {Settling, Settled};
      assert IsRelease(d, r);
    }
  }

  lemma TaskKeepsWrite(c: Chain, hops: nat)
    requires c.tasks != [] && Inv(c)
    ensures WriteInv(RunTask(c.(tasks := c.tasks[1..]), c.tasks[0], hops))
  {
    hide Driving;
    FirstTask(c);
    var b := c.(tasks := c.tasks[1..]);
    var d := RunTask(b, c.tasks[0], hops);
    match c.tasks[0]
    case CloseFence => ClosingIsIdle(c);
    case Caught(_) => SameWrite(c, d);
    case RunJob(n) =>
      assert JobInv(c, n);
      if !MayWrite(c.fence, c.now) {
        SlotMoves(c, d);
      }
    case Settle(n, left) =>
      assert JobInv(c, n);
      assert n + 1 < |c.jobs| ==> JobInv(c, n + 1);
      SlotMoves(c, d);
  }

  lemma SameWrite(c: Chain, d: Chain)
    requires WriteInv(c) && d.jobs == c.jobs && d.done == c.done && d.slot == c.slot
    ensures WriteInv(d)
  {
    if d.slot.Some? && !Underway(d) {
      var r: nat :| IsRelease(c, r) && r <= c.done && c.jobs[r].write == c.slot &&
        c.jobs[r].phase in {Settling, Settled};
      assert IsRelease(d, r);
    }
  }

  /** When the release resumes no write is under way, and what is left in the slot is its own. */
  lemma ClosingIsIdle(c: Chain)
    requires c.tasks != [] && c.tasks[0] == CloseFence && Inv(c)
    ensures !Underway(c) && (c.slot.Some? ==> c.slot.value.final)
  {
    var r: nat :| IsRelease(c, r) && r < c.done;
    assert ReleaseInv(c, r);
    if !Underway(c) && c.slot.Some? {
      ReleaseHasWritten(c);
    }
  }

  lemma WriteKeepsWrite(c: Chain, expired: bool, reactions: seq<Task>)
    requires ChainInv(c) && WriteInv(c)
    ensures WriteInv(Write(c, expired, reactions))
  {
    var d := Write(c, expired, reactions);
    if Underway(c) {
      assert Underway(d);
    } else {
      assert |c.jobs| > 0 ==> JobInv(c, |c.jobs| - 1);
      SlotMoves(c, d);
    }
  }

  lemma FinishKeepsWrite(c: Chain, hops: nat)
    requires Inv(c) && Underway(c)
    ensures WriteInv(Finish(c, hops))
  {
    assert JobInv(c, c.done);
    assert c.jobs[c.done].expired ==> IsRelease(Finish(c, hops), c.done);
  }

  lemma ActKeepsWrite(c: Chain, act: Act)
    requires Possible(c, act) && Inv(c)
    ensures WriteInv(Next(c, act))
  {
    hide ReleasesInv, Driving, WriteInv;
    match act
    case Begin =>
      SameChain(c, c.(held := true));
      SameWrite(c, c.(held := true));
      WriteKeepsWrite(c.(held := true), false, []);
    case RenewFinds(newer) =>
      var d := c.(looking := c.looking - 1);
      SameChain(c, d);
      SameWrite(c, d);
      if newer {
        SameWrite(d, Stop(d));
      } else {
        WriteKeepsWrite(d, false, []);
      }
    case SetState =>
      if c.held {
        WriteKeepsWrite(c, false, []);
      }
    case Release =>
      SameChain(c, c.(held := false));
      SameWrite(c, c.(held := false));
      if c.held {
        WriteKeepsWrite(c.(held := false), true, [CloseFence]);
      } else {
        SameWrite(c, Next(c, Release));
      }
    case Microtask(hops) => TaskKeepsWrite(c, hops);
    case Lands => LandedKeepsWrite(c);
    case Reports(hops) => FinishKeepsWrite(c, hops);
    case Fails(hops) => FinishKeepsWrite(c, hops);
    case Pass(_) => SameWrite(c, Next(c, act));
    case RenewLooks => SameWrite(c, Next(c, act));
    case RenewFails => SameWrite(c, Next(c, act));
    case Supersede => SameWrite(c, Next(c, act));
    case OtherCheck => SameWrite(c, Next(c, act));
  }

  lemma LandedKeepsWrite(c: Chain)
    requires Possible(c, Lands)
    ensures WriteInv(Next(c, Lands))
  {
  }

  lemma StepKeepsInv(c: Chain, act: Act)
    requires Possible(c, act) && Inv(c)
    ensures Inv(Next(c, act))
  {
    hide ChainInv, ReleasesInv, WriteInv;
    ActKeepsChain(c, act);
    ActKeepsReleases(c, act);
    ActKeepsWrite(c, act);
  }

  // ----- It is the run of RunExclusion -----

  /** The run as the shared disk and the other runs know it, with its other checked writes. */
  function View(c: Chain, pending: seq<int>): R.Run {
    R.Run(c.lease, R.Armed, c.fence, pending, c.slot)
  }

  /** What a step means there; nothing, when it only moves the chain. */
  function Meaning(c: Chain, act: Act, n: nat): Option<R.Step>
    requires Possible(c, act)
  {
    match act
    case RenewFinds(newer) => if newer then Some(R.Supersede(n)) else None
    case Supersede => Some(R.Supersede(n))
    case Release => if c.held then None else Some(R.Supersede(n))
    case OtherCheck => if MayWrite(c.fence, c.now) then None else Some(R.RefuseWrite(n))
    case Microtask(_) => TaskMeaning(c, c.tasks[0], n)
    case Lands => Some(R.LandLease(n))
    case Reports(_) => if c.jobs[c.done].write.value.final then None else Some(R.LeaseDone(n))
    case Fails(_) => if c.jobs[c.done].write.value.final then None else Some(R.DropLease(n))
    case _ => None
  }

  function TaskMeaning(c: Chain, task: Task, n: nat): Option<R.Step> {
    match task
    case CloseFence =>
      Some(if c.slot.None? then R.Supersede(n) else if c.slot.value.landed then R.LeaseDone(n) else R.DropLease(n))
    case RunJob(m) =>
      if m >= |c.jobs| then None
      else if MayWrite(c.fence, c.now) then Some(R.CheckLease(n, c.jobs[m].expired))
      else Some(R.RefuseWrite(n))
    case _ => None
  }

  ghost predicate Matches(c: Chain, d: Chain, step: Option<R.Step>, s: R.State, n: nat, pending: seq<int>) {
    && R.Exists(s, n) && s.runs[n] == View(c, pending)
    && match step
       case None => View(d, pending) == View(c, pending)
       case Some(st) =>
         && !st.Tick? && !st.CreateRun? && st.n == n && R.Enabled(s, st)
         && R.After(s, st) == s.(runs := s.runs[n := View(d, pending)])
  }

  lemma TaskRefines(c: Chain, hops: nat, s: R.State, n: nat, pending: seq<int>)
    requires Inv(c) && c.tasks != [] && s.now == c.now
    requires R.Exists(s, n) && s.runs[n] == View(c, pending)
    ensures Matches(c, Next(c, Microtask(hops)), TaskMeaning(c, c.tasks[0], n), s, n, pending)
  {
    match c.tasks[0]
    case CloseFence => ClosingIsIdle(c);
    case Caught(_) =>
    case RunJob(m) =>
      FirstTask(c);
      if MayWrite(c.fence, c.now) {
        SlotIsFree(c, m);
      }
    case Settle(_, _) =>
  }

  /**
   Every step of the chain is one of `RunExclusion`, or none: its writes of one run follow each other, a write is
   checked only when the one before is over, and a release lets go of its write only by closing the fence.
   */
  lemma Refines(c: Chain, act: Act, s: R.State, n: nat, pending: seq<int>)
    requires Inv(c) && Possible(c, act) && !act.Pass? && s.now == c.now
    requires R.Exists(s, n) && s.runs[n] == View(c, pending)
    ensures Matches(c, Next(c, act), Meaning(c, act, n), s, n, pending)
  {
    match act
    case Microtask(hops) => TaskRefines(c, hops, s, n, pending);
    case Reports(_) => assert JobInv(c, c.done);
    case Fails(_) => assert JobInv(c, c.done);
    case _ =>
  }

  /** Only the passing of time moves the clock. */
  lemma TimeStands(c: Chain, act: Act)
    requires Possible(c, act) && !act.Pass?
    ensures Next(c, act).now == c.now
  {
  }

  // ----- A release is final -----

  ghost predicate ReleaseLanded(c: Chain) {
    exists r: nat {:trigger IsRelease(c, r)} ::
      IsRelease(c, r) && c.jobs[r].write.Some? && c.jobs[r].write.value.landed
  }

  /**
   After the expired lease of a release has landed no lease write lands: not of a renewal that was looking for a newer
   run, nor of one that waits in the chain, nor of any that follows.
   */
  lemma ReleaseIsFinal(c: Chain, act: Act)
    requires Inv(c) && Possible(c, act) && ReleaseLanded(c)
    ensures !act.Lands? && Next(c, act).lease == c.lease && ReleaseLanded(Next(c, act))
  {
    hide Driving;
    var r: nat :| IsRelease(c, r) && c.jobs[r].write.Some? && c.jobs[r].write.value.landed;
    assert JobInv(c, r);
    if Underway(c) {
      UnderwayIsNotBehind(c, r);
      assert c.done == r;
    }
    var d := Next(c, act);
    if act.Microtask? && c.tasks[0].RunJob? {
      FirstTask(c);
      assert JobInv(c, c.done);
    }
    assert IsRelease(d, r) && d.jobs[r].write == c.jobs[r].write;
  }

  ghost predicate Executes(c: Chain, acts: seq<Act>)
    decreases |acts|
  {
    acts == [] || (Possible(c, acts[0]) && Executes(Next(c, acts[0]), acts[1..]))
  }

  ghost function Last(c: Chain, acts: seq<Act>): Chain
    requires Executes(c, acts)
    decreases |acts|
  {
    if acts == [] then c else Last(Next(c, acts[0]), acts[1..])
  }

  lemma {:induction false} ReleaseIsFinalForever(c: Chain, acts: seq<Act>)
    requires Inv(c) && ReleaseLanded(c) && Executes(c, acts)
    ensures Last(c, acts).lease == c.lease
    decreases |acts|
  {
    if acts != [] {
      ReleaseIsFinal(c, acts[0]);
      StepKeepsInv(c, acts[0]);
      ReleaseIsFinalForever(Next(c, acts[0]), acts[1..]);
    }
  }

  lemma {:induction false} ExecutionKeepsInv(c: Chain, acts: seq<Act>)
    requires Inv(c) && Executes(c, acts)
    ensures Inv(Last(c, acts))
    decreases |acts|
  {
    if acts != [] {
      StepKeepsInv(c, acts[0]);
      ExecutionKeepsInv(Next(c, acts[0]), acts[1..]);
    }
  }

  lemma FreshInv(c: Chain)
    requires Fresh(c)
    ensures Inv(c)
  {
  }

  /** In every execution of a run, whatever follows the landing of its release leaves the lease file alone. */
  lemma ReleaseEndsTheLease(c: Chain, acts: seq<Act>, more: seq<Act>)
    requires Fresh(c) && Executes(c, acts) && ReleaseLanded(Last(c, acts)) && Executes(Last(c, acts), more)
    ensures Last(Last(c, acts), more).lease == Last(c, acts).lease
  {
    FreshInv(c);
    ExecutionKeepsInv(c, acts);
    ReleaseIsFinalForever(Last(c, acts), more);
  }

  /** Renewals that are late do get behind a release: the property is about them. */
  lemma LateRenewalQueues(c: Chain)
    requires Inv(c) && c.held && c.looking > 0
    ensures Possible(Next(c, Release), RenewFinds(false))
    ensures var d := Next(Next(c, Release), RenewFinds(false)); var r := |c.jobs|;
            && |d.jobs| == r + 2 && IsRelease(d, r) && !d.jobs[r + 1].expired
            && d.jobs[r].reactions == [CloseFence, Caught(r + 1)]
  {
  }
}
