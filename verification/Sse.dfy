/**
 How ts-shared/legalese-agent/src/ai-client.ts cuts decoded text into raw server-sent-event frames: a buffer that
 is drained of complete frames as chunks arrive.
 */
module SseText {
  import opened Sequences

  // ----- Frame boundaries: \r?\n\r?\n -----

  /** The length of an optional `\r` and a `\n` at position `i`, 0 when they are not there. */
  function NewlineAt(t: string, i: nat): (n: nat)
    ensures n > 0 ==> i + n <= |t|
  {
    if i < |t| && t[i] == '\n' then 1
    else if i + 1 < |t| && t[i] == '\r' && t[i + 1] == '\n' then 2
    else 0
  }

  /** The length of the frame boundary at position `i`, 0 when there is none. */
  function BoundaryAt(t: string, i: nat): (n: nat)
    ensures n > 0 ==> i + n <= |t|
  {
    var first := NewlineAt(t, i);
    if first == 0 then 0
    else
      var second := NewlineAt(t, i + first);
      if second == 0 then 0 else first + second
  }

  /** A boundary is two line ends in a row, each of them with or without a carriage return. */
  lemma BoundaryIsExact(t: string, i: nat, n: nat)
    requires n > 0
    ensures BoundaryAt(t, i) == n <==>
            i + n <= |t| && t[i..i + n] in ["\n\n", "\r\n\n", "\n\r\n", "\r\n\r\n"]
  {
    if i + n <= |t| {
      var part := t[i..i + n];
      assert forall k | 0 <= k < n :: part[k] == t[i + k];
      assert part == "\n\n" <==> n == 2 && part[0] == '\n' && part[1] == '\n';
      assert part == "\r\n\n" <==> n == 3 && part[0] == '\r' && part[1] == '\n' && part[2] == '\n';
      assert part == "\n\r\n" <==> n == 3 && part[0] == '\n' && part[1] == '\r' && part[2] == '\n';
      assert part == "\r\n\r\n" <==>
             n == 4 && part[0] == '\r' && part[1] == '\n' && part[2] == '\r' && part[3] == '\n';
    }
  }

  /** The position of the first boundary at or after `i`, or the length of `t`. */
  function FindFrom(t: string, i: nat): (p: nat)
    requires i <= |t|
    ensures i <= p <= |t|
    ensures p < |t| ==> BoundaryAt(t, p) > 0
    ensures forall k | i <= k < p :: BoundaryAt(t, k) == 0
    decreases |t| - i
  {
    if i == |t| || BoundaryAt(t, i) > 0 then i else FindFrom(t, i + 1)
  }

  predicate HasBoundary(t: string) {
    FindFrom(t, 0) < |t|
  }

  /** `buffer.slice(0, match.index)` */
  function FirstRaw(t: string): string
    requires HasBoundary(t)
  {
    t[..FindFrom(t, 0)]
  }

  /** `buffer.slice(match.index + match[0].length)` */
  function AfterFirst(t: string): (u: string)
    requires HasBoundary(t)
    ensures |u| < |t|
  {
    var p := FindFrom(t, 0);
    t[p + BoundaryAt(t, p)..]
  }

  /** The complete raw frames at the start of a buffer. */
  function Drained(t: string): seq<string>
    decreases |t|
  {
    if HasBoundary(t) then [FirstRaw(t)] + Drained(AfterFirst(t)) else []
  }

  /** What stays in the buffer. */
  function Rest(t: string): (u: string)
    ensures !HasBoundary(u)
    decreases |t|
  {
    if HasBoundary(t) then Rest(AfterFirst(t)) else t
  }

  /** More text never moves or hides a boundary that is complete. */
  lemma BoundaryIsStable(t: string, more: string, p: nat)
    requires BoundaryAt(t, p) > 0
    requires forall k | 0 <= k < p :: BoundaryAt(t, k) == 0
    ensures BoundaryAt(t + more, p) == BoundaryAt(t, p)
    ensures forall k | 0 <= k < p :: BoundaryAt(t + more, k) == 0
  {
    var all := t + more;
    assert forall i | 0 <= i < |t| :: all[i] == t[i];
    forall k | 0 <= k < p ensures BoundaryAt(all, k) == 0 {
      assert BoundaryAt(t, k) == 0;
    }
  }

  lemma FoundAt(t: string, p: nat)
    requires BoundaryAt(t, p) > 0
    requires forall k | 0 <= k < p :: BoundaryAt(t, k) == 0
    ensures FindFrom(t, 0) == p
  {
    var q := FindFrom(t, 0);
    assert p < q ==> BoundaryAt(t, p) == 0;
  }

  lemma FirstIsStable(t: string, more: string)
    requires HasBoundary(t)
    ensures HasBoundary(t + more)
    ensures FirstRaw(t + more) == FirstRaw(t)
    ensures AfterFirst(t + more) == AfterFirst(t) + more
  {
    var all, p := t + more, FindFrom(t, 0);
    BoundaryIsStable(t, more, p);
    FoundAt(all, p);
    assert all[..p] == t[..p];
    var n := p + BoundaryAt(t, p);
    assert all[n..] == t[n..] + more;
  }

  lemma DrainStep(t: string, raw: string, u: string)
    requires HasBoundary(t) && raw == FirstRaw(t) && u == AfterFirst(t)
    ensures Drained(t) == [raw] + Drained(u)
    ensures Rest(t) == Rest(u)
  {
  }

  /** Draining in two goes gives the raw frames of draining once. */
  lemma {:induction false} DrainInParts(t: string, more: string)
    ensures Drained(t + more) == Drained(t) + Drained(Rest(t) + more)
    ensures Rest(t + more) == Rest(Rest(t) + more)
    decreases |t|
  {
    if HasBoundary(t) {
      var raw, u := FirstRaw(t), AfterFirst(t);
      FirstIsStable(t, more);
      DrainStep(t, raw, u);
      DrainStep(t + more, raw, u + more);
      DrainInParts(u, more);
      Associates([raw], Drained(u), Drained(Rest(u) + more));
    }
  }

  // ----- Text a server sends -----

  /** A raw frame and the blank line that ends it. */
  datatype Block = Block(raw: string, ending: string)

  /** The first boundary in the block's text is its ending. */
  ghost predicate Clean(b: Block) {
    var t := b.raw + b.ending;
    HasBoundary(t) && FirstRaw(t) == b.raw && AfterFirst(t) == ""
  }

  ghost predicate AllClean(blocks: seq<Block>) {
    forall i | 0 <= i < |blocks| :: Clean(blocks[i])
  }

  ghost function Text(blocks: seq<Block>): string {
    if blocks == [] then "" else blocks[0].raw + blocks[0].ending + Text(blocks[1..])
  }

  ghost function Raws(blocks: seq<Block>): seq<string> {
    if blocks == [] then [] else [blocks[0].raw] + Raws(blocks[1..])
  }

  /** Text that breaks off inside a block holds no boundary yet. */
  lemma NoEarlyBoundary(b: Block, sent: string)
    requires Clean(b) && |sent| < |b.raw + b.ending| && sent <= b.raw + b.ending
    ensures !HasBoundary(sent)
  {
    var t := b.raw + b.ending;
    var missing := t[|sent|..];
    assert sent + missing == t;
    if HasBoundary(sent) {
      FirstIsStable(sent, missing);
      assert false;
    }
  }

  lemma FirstBlockDrains(b: Block, tail: string)
    requires Clean(b)
    ensures Drained(b.raw + b.ending + tail) == [b.raw] + Drained(tail)
    ensures Rest(b.raw + b.ending + tail) == Rest(tail)
  {
    var t := b.raw + b.ending;
    FirstIsStable(t, tail);
    assert "" + tail == tail;
    DrainStep(t + tail, b.raw, tail);
  }

  /** The text of clean blocks drains to their raw frames and leaves nothing. */
  lemma {:induction false} TextDrains(blocks: seq<Block>)
    requires AllClean(blocks)
    ensures Drained(Text(blocks)) == Raws(blocks) && Rest(Text(blocks)) == ""
  {
    if blocks != [] {
      var b, rest := blocks[0], blocks[1..];
      FirstBlockDrains(b, Text(rest));
      TextDrains(rest);
    }
  }

  /** The text of blocks whose last one lacks its blank line. */
  ghost function Unended(blocks: seq<Block>): string
    requires blocks != []
  {
    if |blocks| == 1 then blocks[0].raw else blocks[0].raw + blocks[0].ending + Unended(blocks[1..])
  }

  lemma CleanEnds(b: Block)
    requires Clean(b)
    ensures b.ending != "" && !HasBoundary(b.raw)
  {
    assert b.ending == "" ==> b.raw + b.ending == b.raw;
    NoEarlyBoundary(b, b.raw);
  }

  lemma UnendedOne(b: Block)
    requires Clean(b)
    ensures Drained(b.raw) == [] && Rest(b.raw) == b.raw
    ensures Raws([b]) == [b.raw] && Text([b]) == b.raw + b.ending && Unended([b]) == b.raw
  {
    CleanEnds(b);
    assert [b][1..] == [] && b.raw + b.ending + "" == b.raw + b.ending;
  }

  /** It drains to the raw frames of the other blocks, and the last one is left over. */
  lemma {:induction false} UnendedDrains(blocks: seq<Block>)
    requires AllClean(blocks) && blocks != []
    ensures Drained(Unended(blocks)) == Raws(blocks[..|blocks| - 1])
    ensures Rest(Unended(blocks)) == blocks[|blocks| - 1].raw
    ensures Raws(blocks) == Raws(blocks[..|blocks| - 1]) + [blocks[|blocks| - 1].raw]
    ensures Unended(blocks) <= Text(blocks)
  {
    hide Clean, Drained, Rest;
    var b, rest := blocks[0], blocks[1..];
    if |blocks| == 1 {
      UnendedOne(b);
      assert blocks == [b] && rest == [] && blocks[..0] == [];
    } else {
      FirstBlockDrains(b, Unended(rest));
      UnendedDrains(rest);
      RawsTaken(blocks, |rest| - 1);
      assert rest[..|rest| - 1] == blocks[1..][..|rest| - 1];
    }
  }

  lemma RawsTaken(blocks: seq<Block>, m: nat)
    requires m < |blocks|
    ensures Raws(blocks[..m + 1]) == [blocks[0].raw] + Raws(blocks[1..][..m])
  {
    assert blocks[..m + 1] == [blocks[0]] + blocks[1..][..m];
  }

  lemma PastPrefix(t: string, u: string, sent: string) returns (tail: string)
    requires sent <= t + u && |t| <= |sent|
    ensures sent == t + tail && tail <= u
  {
    tail := sent[|t|..];
    assert (t + u)[..|t|] == t && (t + u)[|t|..] == u;
  }

  /** Any beginning of that text drains to the first few raw frames: a frame cut short is never seen. */
  lemma {:induction false} CutTextDrains(blocks: seq<Block>, sent: string) returns (n: nat)
    requires AllClean(blocks) && sent <= Text(blocks)
    ensures n <= |blocks| && Drained(sent) == Raws(blocks[..n])
    decreases |blocks|
  {
    n := 0;
    if blocks != [] {
      var b, rest := blocks[0], blocks[1..];
      var t := b.raw + b.ending;
      if |sent| < |t| {
        assert sent == Text(blocks)[..|sent|] == t[..|sent|];
        NoEarlyBoundary(b, sent);
      } else {
        var tail := PastPrefix(t, Text(rest), sent);
        FirstBlockDrains(b, tail);
        var m := CutTextDrains(rest, tail);
        n := m + 1;
        RawsTaken(blocks, m);
      }
    }
  }
}
