/** The write fence of ts-apps/cloud-agent/src/lease.ts: a run's permission to write. */
module Fences {
  import opened Wrappers

  const FENCE_MARGIN_MS := 15_000

  datatype FenceState = FenceState(validUntil: int, closed: bool, violated: bool)

  predicate MayWrite(f: FenceState, now: int) {
    !f.closed && now < f.validUntil - FENCE_MARGIN_MS
  }

  datatype FenceOp = Renew(expiresAt: int) | Check(now: int) | Close

  /** What one call does to the fence. `stops` says whether the violation hook closes it, as the runner's does. */
  function AfterOp(f: FenceState, op: FenceOp, stops: bool): FenceState {
    match op
    case Renew(expiresAt) => if f.closed then f else f.(validUntil := expiresAt)
    case Check(now) =>
      if f.closed || MayWrite(f, now) then f
      else FenceState(f.validUntil, stops && !f.violated, true)
    case Close => f.(closed := true)
  }

  function AfterOps(f: FenceState, ops: seq<FenceOp>, stops: bool): FenceState
    decreases |ops|
  {
    if ops == [] then f else AfterOps(AfterOp(f, ops[0], stops), ops[1..], stops)
  }

  /** Once the fence of a runner has refused one write it refuses every later one, whatever leases are
      written, checked or found in between and at whatever times. */
  lemma {:induction false} RefusalIsForGood(f: FenceState, now: int, ops: seq<FenceOp>, later: int)
    requires f.violated ==> f.closed
    requires !MayWrite(f, now)
    ensures !MayWrite(AfterOps(AfterOp(f, Check(now), true), ops, true), later)
  {
    ClosedStaysClosed(AfterOp(f, Check(now), true), ops, true);
  }

  lemma {:induction false} ClosedStaysClosed(f: FenceState, ops: seq<FenceOp>, stops: bool)
    requires f.closed
    ensures AfterOps(f, ops, stops).closed
    decreases |ops|
  {
    if ops != [] {
      ClosedStaysClosed(AfterOp(f, ops[0], stops), ops[1..], stops);
    }
  }

  /** A runner's fence is closed as soon as it is violated. */
  lemma {:induction false} ViolatedIsClosed(f: FenceState, ops: seq<FenceOp>)
    requires f.violated ==> f.closed
    ensures AfterOps(f, ops, true).violated ==> AfterOps(f, ops, true).closed
    decreases |ops|
  {
    if ops != [] {
      ViolatedIsClosed(AfterOp(f, ops[0], true), ops[1..]);
    }
  }

  /** The fence of a runner, from its construction on: whatever was called before and is called after. */
  lemma RunnerFenceStaysShut(before: seq<FenceOp>, now: int, after: seq<FenceOp>, later: int)
    requires !MayWrite(AfterOps(FenceState(0, false, false), before, true), now)
    ensures var refused := AfterOp(AfterOps(FenceState(0, false, false), before, true), Check(now), true);
            !MayWrite(AfterOps(refused, after, true), later)
  {
    ViolatedIsClosed(FenceState(0, false, false), before);
    RefusalIsForGood(AfterOps(FenceState(0, false, false), before, true), now, after, later);
  }

  /** The expiry of the last renewal among `ops`. */
  function LastRenewal(ops: seq<FenceOp>): Option<int>
    decreases |ops|
  {
    if ops == [] then None
    else
      var rest := LastRenewal(ops[1..]);
      if rest.Some? then rest else if ops[0].Renew? then Some(ops[0].expiresAt) else None
  }

  lemma {:induction false} WithoutHookAfterOps(f: FenceState, ops: seq<FenceOp>)
    ensures var g := AfterOps(f, ops, false);
            && (g.closed <==> f.closed || Close in ops)
            && (!g.closed ==> g.validUntil == if LastRenewal(ops).Some? then LastRenewal(ops).value else f.validUntil)
    decreases |ops|
  {
    if ops != [] {
      WithoutHookAfterOps(AfterOp(f, ops[0], false), ops[1..]);
      assert ops == [ops[0]] + ops[1..];
    }
  }

  /**
   Without the hook the fence alone would open again: after a refusal a later check passes exactly when the fence is
   open, was not closed in between, and the last lease written in between reaches past the margin.
   */
  lemma HookIsNeeded(f: FenceState, now: int, ops: seq<FenceOp>, later: int)
    requires !MayWrite(f, now) && now <= later
    ensures MayWrite(AfterOps(AfterOp(f, Check(now), false), ops, false), later) <==>
            && !f.closed && Close !in ops
            && LastRenewal(ops).Some? && later < LastRenewal(ops).value - FENCE_MARGIN_MS
  {
    WithoutHookAfterOps(AfterOp(f, Check(now), false), ops);
  }

  /** Every check in `ops` comes before the margin of the lease written last, `until` at first, and none closes. */
  predicate KeptUp(until: int, ops: seq<FenceOp>)
    decreases |ops|
  {
    ops == [] ||
    match ops[0]
    case Renew(expiresAt) => KeptUp(expiresAt, ops[1..])
    case Check(now) => now < until - FENCE_MARGIN_MS && KeptUp(until, ops[1..])
    case Close => false
  }

  /** With the hook: a write passes exactly when every one before passed, and the newest lease reaches past it. */
  lemma {:induction false} RunnerFencePassesIff(until: int, ops: seq<FenceOp>, later: int)
    ensures MayWrite(AfterOps(FenceState(until, false, false), ops, true), later) <==>
            && KeptUp(until, ops)
            && later < (if LastRenewal(ops).Some? then LastRenewal(ops).value else until) - FENCE_MARGIN_MS
    decreases |ops|
  {
    if ops != [] {
      match ops[0]
      case Renew(expiresAt) => RunnerFencePassesIff(expiresAt, ops[1..], later);
      case Check(now) =>
        if now < until - FENCE_MARGIN_MS {
          RunnerFencePassesIff(until, ops[1..], later);
        } else {
          ClosedStaysClosed(FenceState(until, true, true), ops[1..], true);
        }
      case Close => ClosedStaysClosed(FenceState(until, true, false), ops[1..], true);
    }
  }

  class Fence {
    var validUntil: int
    var closed: bool
    var violated: bool
    /** The `onViolation` hook of the runner supersedes the run, which closes this fence. */
    const stops: bool

    ghost function State(): FenceState
      reads this
    {
      FenceState(validUntil, closed, violated)
    }

    constructor (stops: bool)
      ensures State() == FenceState(0, false, false) && this.stops == stops
    {
      validUntil, closed, violated, this.stops := 0, false, false, stops;
    }

    method Renewed(expiresAt: int)
      modifies this
      ensures State() == AfterOp(old(State()), Renew(expiresAt), stops)
    {
      if !closed {
        validUntil := expiresAt;
      }
    }

    /** Whether a write may go ahead; `false` stands for the thrown `SupersededError`. */
    method Check(now: int) returns (ok: bool)
      modifies this
      ensures ok <==> MayWrite(old(State()), now)
      ensures State() == AfterOp(old(State()), FenceOp.Check(now), stops)
    {
      if closed {
        return false;
      }
      if now < validUntil - FENCE_MARGIN_MS {
        return true;
      }
      if !violated {
        violated := true;
        if stops {
          Close();
        }
      }
      return false;
    }

    method Close()
      modifies this
      ensures State() == AfterOp(old(State()), FenceOp.Close, stops)
    {
      closed := true;
    }
  }
}
