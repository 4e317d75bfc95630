/**
 Racing writers that claim consecutive numbers with exclusive creates and then rewrite a counter file
 (`sendCommand` and `claimDevRun` of ts-apps/cloud-agent/src/dev.ts), together with a reader that opens only
 numbers the counter has announced. Every interleaving of their steps is allowed; a writer that takes no
 further step has crashed.
 */
module NumberClaims {
  import opened Wrappers

  datatype Claimer =
    | Starting                // has not read the counter yet
    | Trying(n: nat)          // about to create number n exclusively
    | Claimed(n: nat)         // created it, content not written yet
    | Written(n: nat)         // about to read the counter again
    | Announcing(n: nat)      // found the counter below n, about to overwrite it
    | Finished(n: nat)

  datatype Content = Empty | Complete(author: nat)

  datatype State = State(
    files: map<nat, Content>,
    counter: Option<nat>,     // None: the file does not exist yet
    claimers: seq<Claimer>,
    seen: nat)                // the highest counter value any reader has acted on

  datatype Step =
    | Arrive
    | CreateCounter           // the harness creates it as 0 if it is missing
    | ReadCounter(i: nat)
    | TryCreate(i: nat)
    | WriteContent(i: nat)
    | ReadAgain(i: nat)
    | Announce(i: nat)
    | Look                    // a reader polls the counter

  const Start := State(map[], None, [], 0)

  function CounterValue(s: State): nat {
    if s.counter.Some? then s.counter.value else 0
  }

  predicate Enabled(s: State, step: Step) {
    match step
    case Arrive => true
    case CreateCounter => s.counter.None?
    case ReadCounter(i) => i < |s.claimers| && s.claimers[i].Starting?
    case TryCreate(i) => i < |s.claimers| && s.claimers[i].Trying?
    case WriteContent(i) => i < |s.claimers| && s.claimers[i].Claimed?
    case ReadAgain(i) => i < |s.claimers| && s.claimers[i].Written?
    case Announce(i) => i < |s.claimers| && s.claimers[i].Announcing?
    case Look => true
  }

  function After(s: State, step: Step): State
    requires Enabled(s, step)
  {
    match step
    case Arrive => s.(claimers := s.claimers + [Starting])
    case CreateCounter => s.(counter := Some(0))
    case ReadCounter(i) => s.(claimers := s.claimers[i := Trying(CounterValue(s) + 1)])
    case TryCreate(i) =>
      var n := s.claimers[i].n;
      if n in s.files then s.(claimers := s.claimers[i := Trying(n + 1)])
      else s.(files := s.files[n := Empty], claimers := s.claimers[i := Claimed(n)])
    case WriteContent(i) =>
      var n := s.claimers[i].n;
      s.(files := s.files[n := Complete(i)], claimers := s.claimers[i := Written(n)])
    case ReadAgain(i) =>
      var n := s.claimers[i].n;
      s.(claimers := s.claimers[i := if CounterValue(s) < n then Announcing(n) else Finished(n)])
    case Announce(i) =>
      var n := s.claimers[i].n;
      s.(counter := Some(n), claimers := s.claimers[i := Finished(n)])
    case Look => s.(seen := if s.seen < CounterValue(s) then CounterValue(s) else s.seen)
  }

  function Run(s: State, steps: seq<Step>): Option<State>
    decreases |steps|
  {
    if steps == [] then Some(s)
    else if Enabled(s, steps[0]) then Run(After(s, steps[0]), steps[1..])
    else None
  }

  /** The number a claimer holds, once its exclusive create has succeeded. */
  predicate Holds(c: Claimer, n: nat) {
    (c.Claimed? || c.Written? || c.Announcing? || c.Finished?) && c.n == n
  }

  // ----- What every interleaving keeps -----

  ghost predicate GapFree(files: map<nat, Content>, top: nat) {
    forall n: nat :: n in files <==> 1 <= n <= top
  }

  ghost predicate ClaimerInv(s: State, top: nat, i: nat)
    requires i < |s.claimers| && GapFree(s.files, top)
  {
    var c := s.claimers[i];
    && (c.Trying? ==> 1 <= c.n <= top + 1)
    && (!c.Starting? && !c.Trying? ==> 1 <= c.n <= top)
    && (c.Claimed? ==> s.files[c.n] == Empty)
    && (c.Written? || c.Announcing? || c.Finished? ==> s.files[c.n] == Complete(i))
  }

  /** The claimed numbers are 1..top, each held by one writer, and no counter value anyone acts on exceeds them. */
  ghost predicate Inv(s: State, top: nat) {
    && GapFree(s.files, top)
    && CounterValue(s) <= top
    && s.seen <= top
    && (forall i: nat | i < |s.claimers| :: ClaimerInv(s, top, i))
    && OneHolder(s.claimers)
    && (forall n: nat | n in s.files :: exists i: nat :: i < |s.claimers| && Holds(s.claimers[i], n))
  }

  /** No number has two holders. */
  ghost predicate OneHolder(claimers: seq<Claimer>) {
    forall i: nat, j: nat, n: nat | i < |claimers| && j < |claimers| && Holds(claimers[i], n) &&
      Holds(claimers[j], n) ::
      i == j
  }

  ghost function TopAfter(s: State, step: Step, top: nat): nat
    requires Enabled(s, step)
  {
    if step.TryCreate? && s.claimers[step.i].n !in s.files then top + 1 else top
  }

  /** A file that a claimer has finished with is not touched by the others. */
  lemma OthersLeaveFile(s: State, step: Step, top: nat, i: nat)
    requires Inv(s, top) && Enabled(s, step) && i < |s.claimers| && s.claimers[i] == After(s, step).claimers[i]
    requires !s.claimers[i].Starting? && !s.claimers[i].Trying?
    ensures s.claimers[i].n in s.files && After(s, step).files[s.claimers[i].n] == s.files[s.claimers[i].n]
  {
    assert ClaimerInv(s, top, i);
    if step.WriteContent? {
      assert ClaimerInv(s, top, step.i);
      assert Holds(s.claimers[step.i], s.claimers[step.i].n) && Holds(s.claimers[i], s.claimers[i].n);
    }
  }

  lemma StepKeepsClaimer(s: State, step: Step, top: nat, i: nat)
    requires Inv(s, top) && Enabled(s, step) && i < |After(s, step).claimers|
    requires GapFree(After(s, step).files, TopAfter(s, step, top))
    ensures ClaimerInv(After(s, step), TopAfter(s, step, top), i)
  {
    if i < |s.claimers| {
      assert ClaimerInv(s, top, i);
      if s.claimers[i] == After(s, step).claimers[i] && !s.claimers[i].Starting? && !s.claimers[i].Trying? {
        OthersLeaveFile(s, step, top, i);
      }
    }
  }

  lemma StepKeepsFiles(s: State, step: Step, top: nat)
    requires Inv(s, top) && Enabled(s, step)
    ensures GapFree(After(s, step).files, TopAfter(s, step, top)) && top <= TopAfter(s, step, top)
    ensures CounterValue(After(s, step)) <= top && After(s, step).seen <= top
  {
    if step.TryCreate? || step.WriteContent? || step.Announce? {
      assert ClaimerInv(s, top, step.i);
    }
  }

  lemma StepKeepsHolders(s: State, step: Step, top: nat)
    requires Inv(s, top) && Enabled(s, step)
    ensures OneHolder(After(s, step).claimers)
    ensures forall n: nat | n in After(s, step).files ::
              exists i: nat :: i < |After(s, step).claimers| && Holds(After(s, step).claimers[i], n)
  {
    var s' := After(s, step);
    forall i: nat, j: nat, n: nat
      | i < |s'.claimers| && j < |s'.claimers| && Holds(s'.claimers[i], n) && Holds(s'.claimers[j], n)
      ensures i == j
    {
      KeepsHolding(s, step, top, i, n);
      KeepsHolding(s, step, top, j, n);
    }
    forall n: nat | n in s'.files ensures exists i: nat :: i < |s'.claimers| && Holds(s'.claimers[i], n) {
      if n in s.files {
        var i: nat :| i < |s.claimers| && Holds(s.claimers[i], n);
        assert Holds(s'.claimers[i], n);
      } else {
        assert Holds(s'.claimers[step.i], n);
      }
    }
  }

  lemma StepKeepsInv(s: State, step: Step, top: nat)
    requires Inv(s, top) && Enabled(s, step)
    ensures Inv(After(s, step), TopAfter(s, step, top))
  {
    StepKeepsFiles(s, step, top);
    forall i: nat | i < |After(s, step).claimers| ensures ClaimerInv(After(s, step), TopAfter(s, step, top), i) {
      StepKeepsClaimer(s, step, top, i);
    }
    StepKeepsHolders(s, step, top);
    hide ClaimerInv, OneHolder, GapFree, After, TopAfter, CounterValue, Holds;
  }

  /** Who holds a number after a step held it before, or has just created it as a new number. */
  lemma KeepsHolding(s: State, step: Step, top: nat, i: nat, n: nat)
    requires Inv(s, top) && Enabled(s, step)
    requires i < |After(s, step).claimers| && Holds(After(s, step).claimers[i], n)
    ensures i < |s.claimers|
    ensures Holds(s.claimers[i], n) || (step == TryCreate(i) && n !in s.files)
    ensures Holds(s.claimers[i], n) ==> n in s.files
  {
    assert i < |s.claimers| ==> ClaimerInv(s, top, i);
  }

  lemma {:induction false} RunKeepsInv(s: State, steps: seq<Step>, top: nat) returns (top': nat)
    requires Inv(s, top) && Run(s, steps).Some?
    ensures Inv(Run(s, steps).value, top')
    decreases |steps|
  {
    top' := top;
    if steps != [] {
      StepKeepsInv(s, steps[0], top);
      top' := RunKeepsInv(After(s, steps[0]), steps[1..], TopAfter(s, steps[0], top));
    }
  }

  /** For every interleaving: claimed numbers are distinct and form a gap-free prefix, the counter is never
      above it, and neither is anything a reader has seen, so a reader only opens names that exist. */
  lemma ClaimsAreDistinctAndGapFree(steps: seq<Step>) returns (top: nat)
    requires Run(Start, steps).Some?
    ensures var s := Run(Start, steps).value;
            && GapFree(s.files, top)
            && OneHolder(s.claimers)
            && CounterValue(s) <= top && s.seen <= top
  {
    top := RunKeepsInv(Start, steps, 0);
  }

  /** The claimer has written its file. */
  predicate HasWritten(c: Claimer) {
    c.Written? || c.Announcing? || c.Finished?
  }

  lemma WrittenStays(s: State, step: Step, top: nat, i: nat)
    requires Inv(s, top) && Enabled(s, step) && i < |s.claimers| && HasWritten(s.claimers[i])
    ensures var c := After(s, step).claimers[i]; HasWritten(c) && c.n == s.claimers[i].n
  {
  }

  /** What a writer put into its file is there at the end of every execution: no other sender replaces it. */
  lemma {:induction false} WrittenKeepsItsFile(s: State, steps: seq<Step>, top: nat, i: nat)
    requires Inv(s, top) && Run(s, steps).Some? && i < |s.claimers| && HasWritten(s.claimers[i])
    ensures var t := Run(s, steps).value;
            && i < |t.claimers| && HasWritten(t.claimers[i]) && t.claimers[i].n == s.claimers[i].n
            && s.claimers[i].n in t.files && t.files[s.claimers[i].n] == Complete(i)
    decreases |steps|
  {
    if steps == [] {
      assert ClaimerInv(s, top, i);
    } else {
      StepKeepsInv(s, steps[0], top);
      WrittenStays(s, steps[0], top, i);
      WrittenKeepsItsFile(After(s, steps[0]), steps[1..], TopAfter(s, steps[0], top), i);
    }
  }

  // ----- The counter -----

  /** The counter goes back exactly when a sender announces a number that it has overtaken. */
  lemma CounterGoesBackIff(s: State, step: Step)
    requires Enabled(s, step)
    ensures CounterValue(After(s, step)) < CounterValue(s) <==>
            step.Announce? && s.claimers[step.i].n < CounterValue(s)
  {
  }

  lemma {:induction false} FinishedIsDone(s: State, steps: seq<Step>, i: nat)
    requires Run(s, steps).Some? && i < |s.claimers| && s.claimers[i].Finished?
    ensures Announce(i) !in steps
    decreases |steps|
  {
    if steps != [] {
      assert steps == [steps[0]] + steps[1..];
      FinishedIsDone(After(s, steps[0]), steps[1..], i);
    }
  }

  /** A sender that finds the counter at or above its number leaves it alone for good. */
  lemma SatisfiedSenderIsDone(s: State, i: nat, steps: seq<Step>)
    requires Enabled(s, ReadAgain(i)) && s.claimers[i].n <= CounterValue(s)
    requires Run(After(s, ReadAgain(i)), steps).Some?
    ensures Announce(i) !in steps
  {
    FinishedIsDone(After(s, ReadAgain(i)), steps, i);
  }

  lemma {:induction false} RunSplits(s: State, steps: seq<Step>, k: nat)
    requires Run(s, steps).Some? && k < |steps|
    ensures Run(s, steps[..k]).Some? && Run(s, steps[..k + 1]).Some?
    ensures Enabled(Run(s, steps[..k]).value, steps[k])
    ensures Run(s, steps[..k + 1]).value == After(Run(s, steps[..k]).value, steps[k])
    decreases |steps|
  {
    var head := steps[..k + 1];
    assert head[1..] == steps[1..][..k];
    if k == 0 {
      assert steps[..0] == [] && head[1..] == [];
    } else {
      RunSplits(After(s, steps[0]), steps[1..], k - 1);
      assert steps[..k][1..] == steps[1..][..k - 1] && steps[..k][0] == steps[0];
    }
  }

  /** The counter when step `k` of an execution is taken. */
  function CounterBefore(steps: seq<Step>, k: nat): nat
    requires Run(Start, steps).Some? && k <= |steps|
  {
    if k == |steps| then CounterValue(Run(Start, steps).value)
    else
      RunSplits(Start, steps, k);
      CounterValue(Run(Start, steps[..k]).value)
  }

  lemma CounterOf(steps: seq<Step>, k: nat)
    requires Run(Start, steps).Some? && k <= |steps|
    ensures Run(Start, steps[..k]).Some? && CounterBefore(steps, k) == CounterValue(Run(Start, steps[..k]).value)
  {
    if k == |steps| {
      assert steps[..k] == steps;
    } else {
      RunSplits(Start, steps, k);
    }
  }

  /** A sender that is about to announce `n` has read a smaller counter before. */
  lemma {:induction false} HasRead(steps: seq<Step>, i: nat, k: nat) returns (j: nat)
    requires Run(Start, steps).Some? && k <= |steps|
    requires Run(Start, steps[..k]).Some? && i < |Run(Start, steps[..k]).value.claimers|
    requires Run(Start, steps[..k]).value.claimers[i].Announcing?
    ensures j < k && steps[j] == ReadAgain(i)
    ensures CounterBefore(steps, j) < Run(Start, steps[..k]).value.claimers[i].n
    decreases k
  {
    assert steps[..0] == [];
    j := k - 1;
    RunSplits(Start, steps, j);
    if steps[j] != ReadAgain(i) {
      j := HasRead(steps, i, j);
    }
  }

  /** Between two moments, of which the counter is at most `n` at the first and above it at the second, a number above
      `n` was announced. */
  lemma {:induction false} WasRaised(steps: seq<Step>, from: nat, end: nat, n: nat) returns (k: nat, m: nat)
    requires Run(Start, steps).Some? && from <= end <= |steps|
    requires CounterBefore(steps, from) <= n < CounterBefore(steps, end)
    ensures from <= k < end && steps[k] == Announce(m)
    ensures Run(Start, steps[..k]).Some? && m < |Run(Start, steps[..k]).value.claimers|
    ensures var c := Run(Start, steps[..k]).value.claimers[m]; c.Announcing? && n < c.n
    decreases end - from
  {
    assert from < end;
    k := end - 1;
    RunSplits(Start, steps, k);
    CounterOf(steps, k);
    CounterOf(steps, end);
    m := 0;
    if CounterBefore(steps, k) <= n {
      m := steps[k].i;
    } else {
      k, m := WasRaised(steps, from, k, n);
    }
  }

  /**
   The counter goes back only after a stale read: the sender that lowers it had read a counter below its number, and
   another one has announced a larger number since.
   */
  lemma CounterGoesBackAfterStaleRead(steps: seq<Step>, i: nat) returns (j: nat, k: nat, m: nat)
    requires Run(Start, steps).Some? && Enabled(Run(Start, steps).value, Announce(i))
    requires var s := Run(Start, steps).value; CounterValue(After(s, Announce(i))) < CounterValue(s)
    ensures var n := Run(Start, steps).value.claimers[i].n;
            && j < k < |steps| && steps[j] == ReadAgain(i) && CounterBefore(steps, j) < n
            && steps[k] == Announce(m) && m != i
    ensures Run(Start, steps[..k]).Some? && m < |Run(Start, steps[..k]).value.claimers|
    ensures var c := Run(Start, steps[..k]).value.claimers[m];
            c.Announcing? && Run(Start, steps).value.claimers[i].n < c.n
  {
    var s := Run(Start, steps).value;
    var n := s.claimers[i].n;
    assert steps[..|steps|] == steps;
    j := HasRead(steps, i, |steps|);
    k, m := WasRaised(steps, j, |steps|, n);
    assert k != j;
    if m == i {
      RunSplits(Start, steps, k);
      NumberStays(steps, i, k + 1, |steps|);
    }
  }

  /** A finished sender stays as it is. */
  lemma {:induction false} NumberStays(steps: seq<Step>, i: nat, from: nat, end: nat)
    requires Run(Start, steps).Some? && from <= end <= |steps|
    requires Run(Start, steps[..from]).Some? && i < |Run(Start, steps[..from]).value.claimers|
    requires Run(Start, steps[..from]).value.claimers[i].Finished?
    ensures Run(Start, steps[..end]).Some? && i < |Run(Start, steps[..end]).value.claimers|
    ensures Run(Start, steps[..end]).value.claimers[i].Finished?
    decreases end - from
  {
    if from < end {
      NumberStays(steps, i, from, end - 1);
      RunSplits(Start, steps, end - 1);
    }
  }

  /** The numbers announced in an execution, in order. */
  function Announced(s: State, steps: seq<Step>): seq<nat>
    requires Run(s, steps).Some?
    decreases |steps|
  {
    if steps == [] then []
    else
      (if steps[0].Announce? then [s.claimers[steps[0].i].n] else []) + Announced(After(s, steps[0]), steps[1..])
  }

  function Highest(low: nat, ns: seq<nat>): (h: nat)
    ensures low <= h && (h == low || h in ns) && forall n | n in ns :: n <= h
    decreases |ns|
  {
    if ns == [] then low
    else
      assert ns == [ns[0]] + ns[1..];
      Highest(if low < ns[0] then ns[0] else low, ns[1..])
  }

  function LastOr(low: nat, ns: seq<nat>): nat {
    if ns == [] then low else ns[|ns| - 1]
  }

  lemma LastOrCons(low: nat, n: nat, ns: seq<nat>)
    ensures LastOr(low, [n] + ns) == LastOr(n, ns)
  {
  }

  /** The counter is what was announced last. */
  lemma {:induction false} CounterIsLastAnnounced(s: State, steps: seq<Step>)
    requires Run(s, steps).Some?
    ensures CounterValue(Run(s, steps).value) == LastOr(CounterValue(s), Announced(s, steps))
    decreases |steps|
  {
    if steps != [] {
      var t := After(s, steps[0]);
      CounterIsLastAnnounced(t, steps[1..]);
      if steps[0].Announce? {
        LastOrCons(CounterValue(s), s.claimers[steps[0].i].n, Announced(t, steps[1..]));
      } else {
        assert [] + Announced(t, steps[1..]) == Announced(t, steps[1..]);
      }
    }
  }

  // ----- Readers -----

  /** What the counter showed whenever a reader looked. */
  function Looked(s: State, steps: seq<Step>): seq<nat>
    requires Run(s, steps).Some?
    decreases |steps|
  {
    if steps == [] then []
    else (if steps[0].Look? then [CounterValue(s)] else []) + Looked(After(s, steps[0]), steps[1..])
  }

  /** Readers act on the highest counter any of them has seen, also after it has gone back. */
  lemma {:induction false} SeenIsHighest(s: State, steps: seq<Step>)
    requires Run(s, steps).Some?
    ensures Run(s, steps).value.seen == Highest(s.seen, Looked(s, steps))
    decreases |steps|
  {
    if steps != [] {
      var t := After(s, steps[0]);
      SeenIsHighest(t, steps[1..]);
      if steps[0].Look? {
        assert ([CounterValue(s)] + Looked(t, steps[1..]))[1..] == Looked(t, steps[1..]);
      } else {
        assert [] + Looked(t, steps[1..]) == Looked(t, steps[1..]);
      }
    }
  }

  /** Once the harness has created the counter, or a sender has announced a number, the file is there for good. */
  lemma {:induction false} CounterStays(s: State, steps: seq<Step>)
    requires Run(s, steps).Some?
    ensures s.counter.Some? || (exists step :: step in steps && (step.CreateCounter? || step.Announce?)) ==>
              Run(s, steps).value.counter.Some?
    decreases |steps|
  {
    if steps != [] {
      assert steps == [steps[0]] + steps[1..];
      CounterStays(After(s, steps[0]), steps[1..]);
    }
  }

  /** Up to `high`, everything that finished senders hold has been announced. */
  ghost predicate Covered(s: State, high: nat) {
    CounterValue(s) <= high && forall i | 0 <= i < |s.claimers| && s.claimers[i].Finished? :: s.claimers[i].n <= high
  }

  lemma {:induction false} FinishedIsCovered(s: State, steps: seq<Step>, top: nat, high: nat) returns (top': nat)
    requires Inv(s, top) && Run(s, steps).Some? && Covered(s, high) && high <= top
    ensures Inv(Run(s, steps).value, top')
    ensures Covered(Run(s, steps).value, Highest(high, Announced(s, steps)))
    ensures Highest(high, Announced(s, steps)) <= top'
    decreases |steps|
  {
    top' := top;
    if steps != [] {
      var step, t := steps[0], After(s, steps[0]);
      StepKeepsInv(s, step, top);
      StepKeepsFiles(s, step, top);
      var rest := Announced(t, steps[1..]);
      var next := if step.Announce? && high < s.claimers[step.i].n then s.claimers[step.i].n else high;
      if step.Announce? {
        assert ClaimerInv(s, top, step.i);
        var n: nat := s.claimers[step.i].n;
        assert ([n] + rest)[1..] == rest;
      } else {
        assert [] + rest == rest;
      }
      top' := FinishedIsCovered(t, steps[1..], TopAfter(s, step, top), next);
    }
  }

  /**
   When all senders are through, the highest number announced is the highest claimed, and the counter shows it exactly
   when it was announced last. Otherwise the counter stays too low until the next sender comes.
   */
  lemma CounterAtRest(steps: seq<Step>) returns (top: nat)
    requires Run(Start, steps).Some?
    requires var s := Run(Start, steps).value; forall i | 0 <= i < |s.claimers| :: s.claimers[i].Finished?
    ensures var s, announced := Run(Start, steps).value, Announced(Start, steps);
            && GapFree(s.files, top) && Highest(0, announced) == top
            && (CounterValue(s) == top <==> LastOr(0, announced) == Highest(0, announced))
  {
    top := FinishedIsCovered(Start, steps, 0, 0);
    var s := Run(Start, steps).value;
    CounterIsLastAnnounced(Start, steps);
    if top > 0 {
      assert top in s.files;
      var i: nat :| i < |s.claimers| && Holds(s.claimers[i], top);
    }
  }

  lemma {:induction false} RunThenStep(s: State, steps: seq<Step>, step: Step)
    requires Run(s, steps).Some? && Enabled(Run(s, steps).value, step)
    ensures Run(s, steps + [step]) == Some(After(Run(s, steps).value, step))
    decreases |steps|
  {
    if steps == [] {
      assert [step][1..] == [];
    } else {
      assert (steps + [step])[1..] == steps[1..] + [step];
      RunThenStep(After(s, steps[0]), steps[1..], step);
    }
  }

  lemma Then(steps: seq<Step>, s: State, step: Step) returns (steps': seq<Step>, s': State)
    requires Run(Start, steps) == Some(s) && Enabled(s, step)
    ensures steps' == steps + [step] && s' == After(s, step) && Run(Start, steps') == Some(s')
  {
    RunThenStep(Start, steps, step);
    steps', s' := steps + [step], After(s, step);
  }

  /** The counter itself may go backwards: a slower writer overwrites a larger number with a smaller one. */
  lemma CounterCanGoBack() returns (steps: seq<Step>, step: Step)
    ensures Run(Start, steps).Some? && Enabled(Run(Start, steps).value, step)
    ensures var s := Run(Start, steps).value; CounterValue(After(s, step)) < CounterValue(s)
  {
    var s := Start;
    steps := [];
    steps, s := Then(steps, s, Arrive);
    steps, s := Then(steps, s, Arrive);
    steps, s := Then(steps, s, ReadCounter(0));
    steps, s := Then(steps, s, TryCreate(0));
    steps, s := Then(steps, s, WriteContent(0));
    steps, s := Then(steps, s, ReadAgain(0));
    steps, s := Then(steps, s, ReadCounter(1));
    steps, s := Then(steps, s, TryCreate(1));
    steps, s := Then(steps, s, TryCreate(1));
    steps, s := Then(steps, s, WriteContent(1));
    steps, s := Then(steps, s, ReadAgain(1));
    steps, s := Then(steps, s, Announce(1));
    step := Announce(0);
  }
}
