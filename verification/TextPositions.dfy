/**
 ts-shared/legalese-agent/src/text-positions.ts: offsets and (line, character) positions of a text of UTF-16 code
 units whose lines end with CRLF, LF or a lone CR.
 */
module TextPositions {
  newtype Unit = u: int | 0 <= u < 0x1_0000

  const LF: Unit := 10
  const CR: Unit := 13

  datatype Position = Position(line: int, character: int)

  // ----- Lines -----

  /** The offset lies between the two halves of a CRLF. */
  predicate InsideCrlf(t: seq<Unit>, o: int) {
    0 < o < |t| && t[o - 1] == CR && t[o] == LF
  }

  /** A line starts here: at the beginning, or right after a terminator. */
  predicate IsStart(t: seq<Unit>, o: int) {
    o == 0 || (0 < o <= |t| && t[o - 1] in {CR, LF} && !InsideCrlf(t, o))
  }

  /** The starts up to offset `n`. */
  function StartsUpTo(t: seq<Unit>, n: nat): (s: seq<nat>)
    requires n <= |t|
    ensures s != [] && s[0] == 0 && forall i | 0 <= i < |s| :: s[i] <= n
  {
    if n == 0 then [0]
    else StartsUpTo(t, n - 1) + if IsStart(t, n) then [n] else []
  }

  function Starts(t: seq<Unit>): seq<nat> {
    StartsUpTo(t, |t|)
  }

  /** Exactly the starts, in order. */
  lemma {:induction false} StartsAre(t: seq<Unit>, n: nat)
    requires n <= |t|
    ensures var s := StartsUpTo(t, n);
            && (forall i | 0 <= i < |s| :: IsStart(t, s[i]))
            && (forall i, j | 0 <= i < j < |s| :: s[i] < s[j])
            && (forall o | s[|s| - 1] < o <= n :: !IsStart(t, o))
  {
    if n > 0 {
      StartsAre(t, n - 1);
    }
  }

  lemma {:induction false} StartsExtend(t: seq<Unit>, m: nat, n: nat)
    requires m <= n <= |t|
    ensures StartsUpTo(t, m) <= StartsUpTo(t, n)
    ensures forall i | |StartsUpTo(t, m)| <= i < |StartsUpTo(t, n)| :: m < StartsUpTo(t, n)[i]
  {
    if m < n {
      StartsExtend(t, m, n - 1);
    }
  }

  /** The i-th start is among those up to `n` exactly when it is at most `n`. */
  lemma StartIsUpTo(t: seq<Unit>, n: nat, i: nat)
    requires n <= |t|
    ensures i < |StartsUpTo(t, n)| <==> i < |Starts(t)| && Starts(t)[i] <= n
    ensures i < |StartsUpTo(t, n)| ==> StartsUpTo(t, n)[i] == Starts(t)[i]
  {
    StartsExtend(t, n, |t|);
    StartsAre(t, n);
  }

  lemma StartsFirst(t: seq<Unit>)
    ensures StartsUpTo(t, 0) == [0]
  {
  }

  lemma StartsGrow(t: seq<Unit>, n: nat)
    requires n < |t|
    ensures StartsUpTo(t, n + 1) == StartsUpTo(t, n) + if IsStart(t, n + 1) then [n + 1] else []
  {
  }

  /** The end of the content of the line that `s` is in: its first terminator, or the end of the text. */
  function ContentEnd(t: seq<Unit>, s: nat): (e: nat)
    requires s <= |t|
    ensures s <= e <= |t| && (e < |t| ==> t[e] in {CR, LF})
    ensures forall k | s <= k < e :: t[k] !in {CR, LF}
    decreases |t| - s
  {
    if s == |t| || t[s] in {CR, LF} then s else ContentEnd(t, s + 1)
  }

  lemma ContentEndIs(t: seq<Unit>, s: nat, e: nat)
    requires s <= e <= |t| && (e < |t| ==> t[e] in {CR, LF})
    requires forall k | s <= k < e :: t[k] !in {CR, LF}
    ensures ContentEnd(t, s) == e
  {
    var found := ContentEnd(t, s);
    assert found == |t| || t[found] in {CR, LF};
    assert e == |t| || t[e] in {CR, LF};
  }

  function Least(a: int, b: int): int {
    if a < b then a else b
  }

  function Greatest(a: int, b: int): int {
    if a < b then b else a
  }

  // ----- What the two conversions mean -----

  /** The line is the one whose start was passed last; inside a CRLF counts as the end of the line's content. */
  function PositionOf(t: seq<Unit>, offset: int): Position {
    var o := Greatest(0, Least(offset, |t|));
    var s := StartsUpTo(t, o);
    var start := s[|s| - 1];
    Position(|s| - 1, Least(o, ContentEnd(t, start)) - start)
  }

  function OffsetOf(t: seq<Unit>, p: Position): (o: int)
    ensures 0 <= o <= |t|
  {
    if p.line < 0 then 0
    else if p.line >= |Starts(t)| then |t|
    else
      var start := Starts(t)[p.line];
      Least(start + Greatest(0, p.character), ContentEnd(t, start))
  }

  /** The positions an editor shows. */
  predicate IsPosition(t: seq<Unit>, p: Position) {
    && 0 <= p.line < |Starts(t)| && 0 <= p.character
    && Starts(t)[p.line] + p.character <= ContentEnd(t, Starts(t)[p.line])
  }

  predicate AtMost(p: Position, q: Position) {
    p.line < q.line || (p.line == q.line && p.character <= q.character)
  }

  // ----- The code -----

  method LineStarts(text: seq<Unit>) returns (starts: seq<nat>)
    ensures starts == Starts(text)
  {
    hide StartsUpTo;
    starts := [0];
    StartsFirst(text);
    var i := 0;
    while i < |text|
      invariant 0 <= i <= |text|
      invariant starts == StartsUpTo(text, i)
    {
      var c := text[i];
      if c == CR {
        if i + 1 < |text| && text[i + 1] == LF {
          assert !IsStart(text, i + 1);
          StartsGrow(text, i);
          i := i + 1;
        }
        assert IsStart(text, i + 1);
        starts := starts + [i + 1];
      } else if c == LF {
        assert IsStart(text, i + 1);
        starts := starts + [i + 1];
      }
      StartsGrow(text, i);
      i := i + 1;
    }
  }

  /** Before the next line's start lies one terminator and before that none. */
  lemma NextStart(t: seq<Unit>, line: nat)
    requires line + 1 < |Starts(t)|
    ensures forall k | Starts(t)[line] < k < Starts(t)[line + 1] :: !IsStart(t, k)
    ensures IsStart(t, Starts(t)[line]) && IsStart(t, Starts(t)[line + 1])
  {
    var next := Starts(t)[line + 1];
    StartsAre(t, |t|);
    StartIsUpTo(t, next - 1, line);
    StartIsUpTo(t, next - 1, line + 1);
    StartsAre(t, next - 1);
  }

  /** The line's content ends where the terminator before the next start begins. */
  lemma EndBeforeNext(t: seq<Unit>, start: nat, next: nat, end: nat)
    requires start < next <= |t| && IsStart(t, start) && IsStart(t, next)
    requires forall k | start < k < next :: !IsStart(t, k)
    requires end == if t[next - 1] == CR || next == 1 || t[next - 2] != CR then next - 1 else next - 2
    ensures start <= end && ContentEnd(t, start) == end
  {
    assert t[next - 1] in {CR, LF};
    if end == next - 2 {
      assert InsideCrlf(t, next - 1);
    }
    forall k | start <= k < end ensures t[k] !in {CR, LF} {
      assert !IsStart(t, k + 1);
      assert k + 2 < next ==> !IsStart(t, k + 2);
    }
    ContentEndIs(t, start, end);
  }

  lemma LastHasNoNext(t: seq<Unit>, line: nat)
    requires line + 1 == |Starts(t)|
    ensures ContentEnd(t, Starts(t)[line]) == |t|
  {
    var start := Starts(t)[line];
    StartsAre(t, |t|);
    forall k | start <= k < |t| ensures t[k] !in {CR, LF} {
      assert !IsStart(t, k + 1);
      assert k + 2 <= |t| ==> !IsStart(t, k + 2);
    }
    ContentEndIs(t, start, |t|);
  }

  /** Stripping back from the next start finds the first terminator of the line. */
  method LineEnd(text: seq<Unit>, starts: seq<nat>, line: nat) returns (end: nat)
    requires starts == Starts(text) && line < |starts|
    ensures end == ContentEnd(text, starts[line])
  {
    if line + 1 >= |starts| {
      LastHasNoNext(text, line);
      return |text|;
    }
    NextStart(text, line);
    StartsAre(text, |text|);
    end := starts[line + 1];
    ghost var next := end;
    if end > 0 && text[end - 1] == LF {
      end := end - 1;
    }
    if end > 0 && text[end - 1] == CR {
      end := end - 1;
    }
    EndBeforeNext(text, starts[line], next, end);
  }

  method PositionAt(text: seq<Unit>, offset: int) returns (p: Position)
    ensures p == PositionOf(text, offset)
  {
    var clamped := Greatest(0, Least(offset, |text|));
    var starts := LineStarts(text);
    ghost var seen := StartsUpTo(text, clamped);
    StartIsUpTo(text, clamped, |seen| - 1);
    var lo, hi := 0, |starts| - 1;
    while lo < hi
      invariant 0 <= lo < |seen| && |seen| - 1 <= hi < |starts|
    {
      var mid := (lo + hi + 1) / 2;
      StartIsUpTo(text, clamped, mid);
      if starts[mid] <= clamped {
        lo := mid;
      } else {
        hi := mid - 1;
      }
    }
    var lineStart := starts[lo];
    var end := LineEnd(text, starts, lo);
    return Position(lo, Least(clamped, end) - lineStart);
  }

  method OffsetAt(text: seq<Unit>, position: Position) returns (o: int)
    ensures o == OffsetOf(text, position)
  {
    var starts := LineStarts(text);
    if position.line < 0 {
      return 0;
    }
    if position.line >= |starts| {
      return |text|;
    }
    var lineStart := starts[position.line];
    var end := LineEnd(text, starts, position.line);
    return Least(lineStart + Greatest(0, position.character), end);
  }

  /** `text.slice`, which gives nothing for ends out of order. */
  method TextInRange(text: seq<Unit>, start: Position, end: Position) returns (s: seq<Unit>)
    ensures s == if OffsetOf(text, start) <= OffsetOf(text, end)
                 then text[OffsetOf(text, start)..OffsetOf(text, end)] else []
  {
    var from := OffsetAt(text, start);
    var to := OffsetAt(text, end);
    return if from <= to then text[from..to] else [];
  }

  // ----- The laws -----

  lemma AfterCrlf(t: seq<Unit>, k: nat)
    requires InsideCrlf(t, k)
    ensures IsStart(t, k + 1)
  {
  }

  /** The position of an offset names the line it is in; the content of that line reaches up to it, or it is in a
      CRLF. */
  lemma LineOfOffset(t: seq<Unit>, o: nat)
    requires o <= |t|
    ensures var s := StartsUpTo(t, o); var start := s[|s| - 1];
            && |s| <= |Starts(t)| && Starts(t)[|s| - 1] == start <= o
            && Least(o, ContentEnd(t, start)) == if InsideCrlf(t, o) then o - 1 else o
  {
    var s := StartsUpTo(t, o);
    StartIsUpTo(t, o, |s| - 1);
    StartsAre(t, o);
    var start := s[|s| - 1];
    var end := ContentEnd(t, start);
    if end < o {
      assert !IsStart(t, end + 1);
      assert InsideCrlf(t, end + 1);
      AfterCrlf(t, end + 1);
    }
    assert InsideCrlf(t, o) ==> start < o && end <= o - 1;
  }

  /** Every offset comes back, except the one inside a CRLF, which comes back as the one before the CR. */
  lemma OffsetRoundTrip(t: seq<Unit>, o: nat)
    requires o <= |t|
    ensures IsPosition(t, PositionOf(t, o))
    ensures OffsetOf(t, PositionOf(t, o)) == if InsideCrlf(t, o) then o - 1 else o
  {
    LineOfOffset(t, o);
  }

  lemma NoStartInside(t: seq<Unit>, start: nat, o: nat)
    requires start <= |t| && start <= o <= ContentEnd(t, start)
    ensures forall k | start < k <= o :: !IsStart(t, k)
  {
  }

  /** The starts up to an offset on a line are those of the lines up to it. */
  lemma StartsOnLine(t: seq<Unit>, line: nat, o: nat)
    requires line < |Starts(t)| && Starts(t)[line] <= o <= ContentEnd(t, Starts(t)[line])
    ensures |StartsUpTo(t, o)| == line + 1
  {
    var start := Starts(t)[line];
    NoStartInside(t, start, o);
    StartsAre(t, |t|);
    StartIsUpTo(t, o, line);
    StartIsUpTo(t, o, line + 1);
  }

  /** A position comes back exactly when it is one that an editor shows. */
  lemma PositionRoundTrip(t: seq<Unit>, p: Position)
    ensures PositionOf(t, OffsetOf(t, p)) == p <==> IsPosition(t, p)
  {
    var o := OffsetOf(t, p);
    OffsetRoundTrip(t, o);
    if IsPosition(t, p) {
      StartsOnLine(t, p.line, o);
      LineOfOffset(t, o);
    }
  }

  /** A later offset never has an earlier position. */
  lemma PositionsIncrease(t: seq<Unit>, a: nat, b: nat)
    requires a <= b <= |t|
    ensures AtMost(PositionOf(t, a), PositionOf(t, b))
  {
    hide StartsUpTo, ContentEnd, IsStart, Least;
    var s := StartsUpTo(t, a);
    StartIsUpTo(t, a, |s| - 1);
    StartIsUpTo(t, b, |s| - 1);
    StartIsUpTo(t, b, |s|);
    PositionIs(t, a);
    PositionIs(t, b);
  }

  lemma PositionIs(t: seq<Unit>, o: nat)
    requires o <= |t|
    ensures var s := StartsUpTo(t, o);
            && |s| <= |Starts(t)| && Starts(t)[|s| - 1] == s[|s| - 1]
            && PositionOf(t, o) == Position(|s| - 1, (if InsideCrlf(t, o) then o - 1 else o) - s[|s| - 1])
  {
    hide StartsUpTo, IsStart;
    LineOfOffset(t, o);
  }

  /** A later position never has an earlier offset. */
  lemma OffsetsIncrease(t: seq<Unit>, p: Position, q: Position)
    requires AtMost(p, q)
    ensures OffsetOf(t, p) <= OffsetOf(t, q)
  {
    if 0 <= p.line < q.line < |Starts(t)| {
      NextStart(t, p.line);
      StartsAre(t, |t|);
      var start, next := Starts(t)[p.line], Starts(t)[p.line + 1];
      assert next <= Starts(t)[q.line];
      if ContentEnd(t, start) >= next {
        NoStartInside(t, start, next);
      }
    }
  }

  /** Neighbouring ranges join without loss. */
  lemma RangesJoin(t: seq<Unit>, p: Position, q: Position, r: Position)
    requires AtMost(p, q) && AtMost(q, r)
    ensures OffsetOf(t, p) <= OffsetOf(t, q) <= OffsetOf(t, r)
    ensures t[OffsetOf(t, p)..OffsetOf(t, q)] + t[OffsetOf(t, q)..OffsetOf(t, r)] == t[OffsetOf(t, p)..OffsetOf(t, r)]
  {
    OffsetsIncrease(t, p, q);
    OffsetsIncrease(t, q, r);
  }
}
