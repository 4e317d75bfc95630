/**
 The reader of the command queue (ts-apps/cloud-agent/src/command-reader.ts): numbers are handed out in
 order, and `commands.done` follows the contiguous prefix of what has been handled.
 */
module CommandReaders {
  import opened Wrappers

  const COMMAND_GRACE_MS := 15_000
  const COMMAND_TRANSIENT_GRACE_MS := 60_000

  // ----- Which numbers have been handled -----

  /** Every number up to `done`, and the numbers in `above`. */
  datatype Handled = Handled(done: nat, above: set<nat>) {
    predicate Contains(n: nat) {
      n <= done || n in above
    }

    ghost predicate Valid() {
      forall k | k in above :: done < k
    }

    /** `done` has taken in every number it could. */
    ghost predicate Settled() {
      done + 1 !in above
    }
  }

  /** `done` moved over the numbers directly above it. */
  function Advance(h: Handled): (h': Handled)
    ensures h.Valid() ==> h'.Valid()
    ensures h'.Settled()
    ensures forall k: nat :: h'.Contains(k) <==> h.Contains(k)
    ensures h.done <= h'.done
    decreases |h.above|
  {
    if h.done + 1 in h.above then
      var next := Handled(h.done + 1, h.above - {h.done + 1});
      assert |next.above| < |h.above|;
      Advance(next)
    else h
  }

  /** `markHandled` */
  function Mark(h: Handled, n: nat): (h': Handled)
    ensures h.Valid() ==> h'.Valid()
    ensures forall k: nat :: h'.Contains(k) <==> h.Contains(k) || k == n
    ensures h.done <= h'.done
    ensures h.Settled() ==> h'.Settled()
  {
    if n <= h.done then h else Advance(h.(above := h.above + {n}))
  }

  /** `markHandledThrough`, which knows that only delivered numbers can be handled. */
  function MarkThrough(h: Handled, n: nat, delivered: nat): (h': Handled)
    ensures h.done <= h'.done
    ensures h.Valid() ==> h'.Valid()
    ensures n <= delivered ==> n <= h'.done && forall k: nat :: h'.Contains(k) <==> h.Contains(k) || k <= n
  {
    var above := set k | k in h.above && k > n;
    var through := if n < delivered then n else delivered;
    Handled(if h.done < through then through else h.done, above)
  }

  // ----- Reading one command file -----

  /** What a read of a command file can meet. */
  datatype Raw<T> =
    | TransientError                  // one of the passing errno codes
    | PermanentError
    | Missing
    | Torn                            // not JSON yet
    | Foreign                         // carries another id
    | Invalid                         // refused by the protocol
    | Readable(command: T)

  datatype Read<T> = Wait | Skip | Deliver(command: T)

  datatype Stuck = Stuck(n: nat, at: int)

  /** How long this failure may last. */
  function Grace<T>(raw: Raw<T>): int {
    if raw.TransientError? then COMMAND_TRANSIENT_GRACE_MS else COMMAND_GRACE_MS
  }

  predicate MayPass<T>(raw: Raw<T>) {
    raw.TransientError? || raw.Missing? || raw.Torn?
  }

  /** When the file of number `n` was first found unreadable, as far as it is now. */
  function FirstFailed(stuck: Option<Stuck>, n: nat, now: int): int {
    if stuck.Some? && stuck.value.n == n then stuck.value.at else now
  }

  /** It has been unreadable for 15 s by now, or for 60 s when the read fails with a passing error. */
  predicate GraceIsOver<T>(stuck: Option<Stuck>, n: nat, raw: Raw<T>, now: int) {
    && stuck.Some? && stuck.value.n == n
    && (raw.TransientError? ==> now - stuck.value.at >= 60_000)
    && (raw.Missing? || raw.Torn? ==> now - stuck.value.at >= 15_000)
  }

  /** An older failure does not count for this number. */
  lemma OldFailure<T>(stuck: Option<Stuck>, n: nat, raw: Raw<T>, now: int)
    requires stuck.Some? ==> stuck.value.n < n
    ensures !GraceIsOver(stuck, n, raw, now) && FirstFailed(stuck, n, now) == now
  {
  }

  class CommandReader<T> {
    var highWater: nat
    var handled: Handled
    var delivered: nat
    var stuckSince: Option<Stuck>
    /** The content of `commands.done`. */
    var file: nat
    /** The numbers handed out by this reader, oldest first, and where it started. */
    ghost var handedOut: seq<nat>
    ghost var openedAt: nat

    ghost predicate Valid()
      reads this
    {
      && handled.Valid()
      && handled.done <= delivered <= highWater
      && (forall k | k in handled.above :: k <= delivered)
      && file == handled.done
      && openedAt <= delivered
      && Increasing(handedOut)
      && (forall n | n in handedOut :: openedAt < n <= delivered)
      && (stuckSince.Some? ==> stuckSince.value.n <= delivered + 1)
    }

    ghost static predicate Increasing(ns: seq<nat>) {
      forall i, j | 0 <= i < j < |ns| :: ns[i] < ns[j]
    }

    static lemma IncreasingAppend(ns: seq<nat>, n: nat)
      requires Increasing(ns) && forall m | m in ns :: m < n
      ensures Increasing(ns + [n])
    {
      forall i, j | 0 <= i < j < |ns + [n]| ensures (ns + [n])[i] < (ns + [n])[j] {
        assert ns[i] in ns;
      }
    }

    /** `open`, with the number in `commands.done`, 0 when it is missing or invalid. */
    constructor (recorded: nat)
      ensures Valid() && handled == Handled(recorded, {}) && delivered == highWater == openedAt == recorded
      ensures handedOut == []
    {
      highWater, delivered, file, openedAt := recorded, recorded, recorded, recorded;
      handled := Handled(recorded, {});
      stuckSince := None;
      handedOut := [];
    }

    method MarkHandled(n: nat)
      requires Valid() && n <= delivered
      modifies this`handled, this`file
      ensures Valid() && handled == Mark(old(handled), n)
    {
      if n <= handled.done {
        return;
      }
      var above: set<nat> := handled.above + {n};
      var next: nat := handled.done;
      ghost var start := Handled(next, above);
      while next + 1 in above
        invariant Handled(next, above).Valid()
        invariant forall k | k in above :: k <= delivered
        invariant handled.done <= next <= delivered
        invariant Advance(Handled(next, above)) == Advance(start)
        decreases |above|
      {
        next := next + 1;
        assert |above - {next}| < |above|;
        above := above - {next};
      }
      Persist(next, above);
    }

    method MarkHandledThrough(n: nat)
      requires Valid()
      modifies this`handled, this`file
      ensures Valid() && handled == MarkThrough(old(handled), n, delivered)
    {
      var above := set k | k in handled.above && k > n;
      var through := if n < delivered then n else delivered;
      Persist(if handled.done < through then through else handled.done, above);
    }

    /** `persist`, with its write taken to succeed. */
    method Persist(next: nat, above: set<nat>)
      requires Valid() && handled.done <= next <= delivered
      requires forall k | k in above :: next < k <= delivered
      modifies this`handled, this`file
      ensures Valid() && handled == Handled(next, above)
    {
      handled := Handled(next, above);
      if next > file {
        file := next;
      }
    }

    /** `read` and `stuck` */
    method ReadOne(n: nat, raw: Raw<T>, now: int) returns (r: Read<T>)
      modifies this`stuckSince
      ensures raw.Readable? ==> r == Deliver(raw.command)
      ensures raw.Foreign? || raw.Invalid? || raw.PermanentError? ==> r.Skip?
      ensures MayPass(raw) ==> !r.Deliver? && (r.Skip? <==> GraceIsOver(old(stuckSince), n, raw, now))
      ensures r.Wait? ==> stuckSince == Some(Stuck(n, FirstFailed(old(stuckSince), n, now)))
      ensures !r.Wait? ==> stuckSince.None? || stuckSince == old(stuckSince)
    {
      match raw {
        case Readable(command) =>
          stuckSince := None;
          r := Deliver(command);
        case Foreign => r := Skip;
        case Invalid => r := Skip;
        case PermanentError =>
          stuckSince := None;
          r := Skip;
        case _ =>
          if stuckSince.None? || stuckSince.value.n != n {
            stuckSince := Some(Stuck(n, now));
            return Wait;
          }
          if now - stuckSince.value.at < Grace(raw) {
            return Wait;
          }
          stuckSince := None;
          r := Skip;
      }
    }

    /** The numbers above `from` up to `upto` are in `out`, as they were read, or newly among the handled ones. */
    ghost static predicate PassedOver(raw: nat -> Raw<T>, from: nat, upto: nat, before: Handled, after: Handled,
                                      out: seq<(nat, T)>)
    {
      && (forall k: nat :: k in Numbers(out) <==> from < k <= upto && raw(k).Readable?)
      && (forall i | 0 <= i < |out| :: raw(out[i].0) == Readable(out[i].1))
      && (forall k: nat ::
            after.Contains(k) <==> before.Contains(k) || (from < k <= upto && !raw(k).Readable?))
    }

    /** Of the numbers above `from` up to `upto`, those that may still become readable have had their grace. */
    ghost static predicate WaitedFor(raw: nat -> Raw<T>, stuck: Option<Stuck>, from: nat, upto: nat, now: int) {
      forall k: nat | from < k <= upto && MayPass(raw(k)) :: GraceIsOver(stuck, k, raw(k), now)
    }

    static lemma NothingPassed(raw: nat -> Raw<T>, from: nat, handled: Handled)
      ensures PassedOver(raw, from, from, handled, handled, [])
      ensures Numbers([]) == []
      ensures forall stuck, now :: WaitedFor(raw, stuck, from, from, now)
    {
    }

    static lemma OneWaitedFor(raw: nat -> Raw<T>, stuck: Option<Stuck>, from: nat, n: nat, now: int)
      requires from < n && WaitedFor(raw, stuck, from, n - 1, now)
      requires MayPass(raw(n)) ==> GraceIsOver(stuck, n, raw(n), now)
      ensures WaitedFor(raw, stuck, from, n, now)
    {
    }

    static lemma OneSkipped(raw: nat -> Raw<T>, from: nat, n: nat, before: Handled, after: Handled, out: seq<(nat, T)>)
      requires from < n && PassedOver(raw, from, n - 1, before, after, out) && !raw(n).Readable?
      ensures PassedOver(raw, from, n, before, Mark(after, n), out)
    {
    }

    static lemma OneDelivered(raw: nat -> Raw<T>, from: nat, n: nat, before: Handled, after: Handled,
                              out: seq<(nat, T)>, command: T)
      requires from < n && PassedOver(raw, from, n - 1, before, after, out) && raw(n) == Readable(command)
      ensures PassedOver(raw, from, n, before, after, out + [(n, command)])
    {
      NumbersOfAppend(out, n, command);
    }

    /** `poll`: `announced` is what `commands.seq` holds (0 when missing, `None` when invalid), `raw` what each
        command file reads as. Returns the commands that became ready, with their numbers. */
    method Poll(announced: Option<nat>, raw: nat -> Raw<T>, now: int) returns (out: seq<(nat, T)>)
      requires Valid()
      modifies this
      ensures Valid() && openedAt == old(openedAt)
      // The high-water mark follows the counter up and never down.
      ensures highWater == if announced.Some? &&
                announced.value > old(highWater) then announced.value else old(highWater)
      ensures old(delivered) <= delivered
      // Every number passed over is either handed out, as it was read, or recorded as handled.
      ensures PassedOver(raw, old(delivered), delivered, old(handled), handled, out)
      ensures handedOut == old(handedOut) + Numbers(out)
      // It stops early only at a file that may still become readable, and remembers since when it has not been.
      ensures delivered < highWater ==> MayPass(raw(delivered + 1))
      ensures delivered < highWater ==>
                stuckSince == Some(Stuck(delivered + 1, FirstFailed(old(stuckSince), delivered + 1, now)))
      ensures delivered < highWater ==> !GraceIsOver(old(stuckSince), delivered + 1, raw(delivered + 1), now)
      // Such a file is passed over exactly when its grace is over.
      ensures WaitedFor(raw, old(stuckSince), old(delivered), delivered, now)
    {
      hide GraceIsOver, FirstFailed, Mark, PassedOver, WaitedFor, Increasing, Numbers;
      NothingPassed(raw, delivered, handled);
      assert handedOut + [] == handedOut;
      if announced.Some? && announced.value > highWater {
        highWater := announced.value;
      }
      out := [];
      while delivered < highWater
        invariant Valid() && openedAt == old(openedAt)
        invariant highWater == if announced.Some? &&
                  announced.value > old(highWater) then announced.value else old(highWater)
        invariant old(delivered) <= delivered <= highWater
        invariant PassedOver(raw, old(delivered), delivered, old(handled), handled, out)
        invariant handedOut == old(handedOut) + Numbers(out)
        invariant stuckSince.None? || stuckSince == old(stuckSince)
        invariant delivered > old(delivered) ==> stuckSince.Some? ==> stuckSince.value.n <= delivered
        invariant delivered == old(delivered) ==> stuckSince == old(stuckSince)
        invariant WaitedFor(raw, old(stuckSince), old(delivered), delivered, now)
      {
        ghost var n: nat := delivered + 1;
        if delivered > old(delivered) {
          OldFailure(stuckSince, n, raw(n), now);
          OldFailure(old(stuckSince), n, raw(n), now);
        }
        ghost var before := handled;
        var number, result := TakeNext(raw, now);
        if result.Wait? {
          break;
        }
        OneWaitedFor(raw, old(stuckSince), old(delivered), n, now);
        if result.Skip? {
          OneSkipped(raw, old(delivered), n, old(handled), before, out);
        }
        if result.Deliver? {
          OneDelivered(raw, old(delivered), n, old(handled), before, out, result.command);
          NumbersOfAppend(out, n, result.command);
          out := out + [(number, result.command)];
        }
      }
    }

    /** The body of the loop: the next file is read, and passed over unless it is waited for. */
    method TakeNext(raw: nat -> Raw<T>, now: int) returns (n: nat, result: Read<T>)
      requires Valid() && delivered < highWater
      modifies this`delivered, this`handled, this`file, this`handedOut, this`stuckSince
      ensures Valid() && n == old(delivered) + 1
      ensures raw(n).Readable? <==> result.Deliver?
      ensures result.Deliver? ==> raw(n) == Readable(result.command)
      ensures MayPass(raw(n)) ==> (result.Skip? <==> GraceIsOver(old(stuckSince), n, raw(n), now))
      ensures result.Wait? ==> MayPass(raw(n)) && stuckSince == Some(Stuck(n, FirstFailed(old(stuckSince), n, now)))
      ensures result.Wait? ==> delivered == old(delivered) && handled == old(handled) && handedOut == old(handedOut)
      ensures !result.Wait? ==> delivered == n && (stuckSince.None? || stuckSince == old(stuckSince))
      ensures result.Skip? ==> handled == Mark(old(handled), n) && handedOut == old(handedOut)
      ensures result.Deliver? ==> handled == old(handled) && handedOut == old(handedOut) + [n]
    {
      hide GraceIsOver, FirstFailed, Mark, Increasing;
      n := delivered + 1;
      result := ReadOne(n, raw(n), now);
      if !result.Wait? {
        PassOver(n, result.Deliver?);
      }
    }

    /** The reader moves past number `n`, which was handed out or is skipped. */
    method PassOver(n: nat, handOut: bool)
      requires Valid() && n == delivered + 1 <= highWater
      modifies this`delivered, this`handled, this`file, this`handedOut
      ensures Valid() && delivered == n
      ensures handled == if handOut then old(handled) else Mark(old(handled), n)
      ensures handedOut == if handOut then old(handedOut) + [n] else old(handedOut)
    {
      delivered := n;
      if handOut {
        IncreasingAppend(handedOut, n);
        handedOut := handedOut + [n];
      } else {
        MarkHandled(n);
      }
    }

    static function Numbers(out: seq<(nat, T)>): seq<nat> {
      seq(|out|, i requires 0 <= i < |out| => out[i].0)
    }

    static lemma NumbersOfAppend(out: seq<(nat, T)>, n: nat, command: T)
      ensures Numbers(out + [(n, command)]) == Numbers(out) + [n]
    {
    }
  }
}
