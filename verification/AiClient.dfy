/**
 `parseSse` and `streamResilient` of ts-shared/legalese-agent/src/ai-client.ts: one stream of events out of several
 connections, each of which may break off anywhere.
 */
module AiClients {
  import opened Wrappers
  import opened Sequences
  import opened SseText
  import opened SseFrames

  // ----- Frames and events of a text -----

  function ParsedOne(raw: string): seq<Frame> {
    match FrameOf(raw)
    case None => []
    case Some(f) => [f]
  }

  function Parsed(raws: seq<string>): seq<Frame> {
    FlatMap(ParsedOne, raws)
  }

  /** The frames of a response text: a last frame without its blank line counts only if the response ended normally. */
  function StreamFrames(text: string, closed: bool): seq<Frame> {
    Parsed(Drained(text)) + if closed && Trim(Rest(text)) != "" then ParsedOne(Rest(text)) else []
  }

  /** The last id among `frames`, or the cursor as it was. */
  function CursorAfter(frames: seq<Frame>, cursor: int): int {
    if frames == [] then cursor
    else
      var f := frames[|frames| - 1];
      if f.id.Some? then f.id.value else CursorAfter(frames[..|frames| - 1], cursor)
  }

  function Concat(chunks: seq<string>): string {
    if chunks == [] then "" else Concat(chunks[..|chunks| - 1]) + chunks[|chunks| - 1]
  }

  // ----- parseSse -----

  class SseCursor {
    var lastEventId: int

    constructor ()
      ensures lastEventId == 0
    {
      lastEventId := 0;
    }
  }

  /** The events of one raw frame; the cursor moves after them. */
  method TakeFrame<E>(interpret: Frame -> seq<E>, raw: string, cursor: SseCursor, ghost frames: seq<Frame>,
                      ghost start: int)
    returns (events: seq<E>)
    requires cursor.lastEventId == CursorAfter(frames, start)
    modifies cursor
    ensures events == FlatMap(interpret, ParsedOne(raw))
    ensures cursor.lastEventId == CursorAfter(frames + ParsedOne(raw), start)
  {
    var frame := ParseFrame(raw);
    if frame.None? {
      assert frames + [] == frames;
      return [];
    }
    assert (frames + [frame.value])[..|frames|] == frames;
    events := interpret(frame.value);
    FlatMapSnoc(interpret, [], frame.value);
    assert [] + [frame.value] == [frame.value];
    if frame.value.id.Some? {
      cursor.lastEventId := frame.value.id.value;
    }
  }

  /** The part of the loop that takes one frame off the buffer. */
  method NextRaw(buffer: string) returns (raw: string, after: string)
    requires HasBoundary(buffer)
    ensures |after| < |buffer|
    ensures Drained(buffer) == [raw] + Drained(after) && Rest(buffer) == Rest(after)
  {
    var index := FindFrom(buffer, 0);
    raw := buffer[..index];
    after := buffer[index + BoundaryAt(buffer, index)..];
    DrainStep(buffer, raw, after);
  }

  lemma NothingLeft(text: string)
    requires !HasBoundary(text)
    ensures Drained(text) == [] && Rest(text) == text
  {
  }

  /** The inner loop: every complete frame in the buffer. */
  method DrainBuffer<E>(interpret: Frame -> seq<E>, buffer: string, cursor: SseCursor, ghost frames: seq<Frame>,
                        ghost start: int)
    returns (events: seq<E>, left: string)
    requires cursor.lastEventId == CursorAfter(frames, start)
    modifies cursor
    ensures events == FlatMap(interpret, Parsed(Drained(buffer)))
    ensures cursor.lastEventId == CursorAfter(frames + Parsed(Drained(buffer)), start)
    ensures left == Rest(buffer)
  {
    events, left := [], buffer;
    ghost var raws: seq<string> := [];
    assert frames + Parsed(raws) == frames;
    while HasBoundary(left)
      invariant cursor.lastEventId == CursorAfter(frames + Parsed(raws), start)
      invariant events == FlatMap(interpret, Parsed(raws))
      invariant raws + Drained(left) == Drained(buffer)
      invariant Rest(left) == Rest(buffer)
      decreases |left|
    {
      var raw, after := NextRaw(left);
      var more := TakeFrame(interpret, raw, cursor, frames + Parsed(raws), start);
      Associates(raws, [raw], Drained(after));
      FlatMapSnoc(ParsedOne, raws, raw);
      FlatMapAppend(interpret, Parsed(raws), ParsedOne(raw));
      Associates(frames, Parsed(raws), ParsedOne(raw));
      raws := raws + [raw];
      events := events + more;
      left := after;
    }
    NothingLeft(left);
    assert raws + [] == raws;
  }

  /** However the text is cut into chunks, the events and the cursor are those of the whole text. */
  method ParseSse<E>(interpret: Frame -> seq<E>, chunks: seq<string>, closed: bool, cursor: SseCursor)
    returns (events: seq<E>)
    modifies cursor
    ensures events == FlatMap(interpret, StreamFrames(Concat(chunks), closed))
    ensures cursor.lastEventId == CursorAfter(StreamFrames(Concat(chunks), closed), old(cursor.lastEventId))
  {
    ghost var start := cursor.lastEventId;
    ghost var frames: seq<Frame> := [];
    var buffer := "";
    events := [];
    for i := 0 to |chunks|
      invariant frames == Parsed(Drained(Concat(chunks[..i])))
      invariant buffer == Rest(Concat(chunks[..i]))
      invariant events == FlatMap(interpret, frames)
      invariant cursor.lastEventId == CursorAfter(frames, start)
    {
      ghost var text := Concat(chunks[..i]);
      assert chunks[..i + 1][..i] == chunks[..i];
      DrainInParts(text, chunks[i]);
      FlatMapAppend(ParsedOne, Drained(text), Drained(buffer + chunks[i]));
      var more, left := DrainBuffer(interpret, buffer + chunks[i], cursor, frames, start);
      FlatMapAppend(interpret, frames, Parsed(Drained(buffer + chunks[i])));
      frames := frames + Parsed(Drained(buffer + chunks[i]));
      events := events + more;
      buffer := left;
    }
    assert chunks[..|chunks|] == chunks;
    if closed && Trim(buffer) != "" {
      var more := TakeFrame(interpret, buffer, cursor, frames, start);
      FlatMapAppend(interpret, frames, ParsedOne(buffer));
      events := events + more;
    } else {
      assert frames + [] == frames;
    }
  }

  // ----- The service -----

  predicate HasId(f: Frame) {
    f.id.Some? && f.id.value > 0
  }

  predicate IdsIncrease(f: Frame, g: Frame) {
    HasId(f) && HasId(g) && f.id.value < g.id.value
  }

  /** Every event frame carries an id, positive and larger than the one before. */
  ghost predicate Numbered(all: seq<Frame>) {
    && (forall i {:trigger HasId(all[i])} | 0 <= i < |all| :: HasId(all[i]))
    && (forall i, j {:trigger IdsIncrease(all[i], all[j])} | 0 <= i < j < |all| :: IdsIncrease(all[i], all[j]))
  }

  /** What the service replays to a client at cursor `c`. */
  ghost function Above(all: seq<Frame>, c: int): seq<Frame> {
    if all == [] then []
    else (if IsAbove(all[0], c) then [all[0]] else []) + Above(all[1..], c)
  }

  /** The cursor after the first `m` frames. */
  ghost function CursorAt(all: seq<Frame>, m: nat): int
    requires m <= |all|
  {
    if m > 0 && all[m - 1].id.Some? then all[m - 1].id.value else 0
  }

  predicate IsAbove(f: Frame, c: int) {
    f.id.Some? && f.id.value > c
  }

  lemma {:induction false} SkipsTo(all: seq<Frame>, m: nat, c: int)
    requires m <= |all|
    requires forall i | 0 <= i < |all| :: IsAbove(all[i], c) <==> i >= m
    ensures Above(all, c) == all[m..]
  {
    if all != [] {
      SkipsTo(all[1..], if m == 0 then 0 else m - 1, c);
    }
  }

  lemma AboveCursor(all: seq<Frame>, m: nat)
    requires Numbered(all) && m <= |all|
    ensures Above(all, CursorAt(all, m)) == all[m..]
  {
    var c := CursorAt(all, m);
    forall i | 0 <= i < |all| ensures IsAbove(all[i], c) <==> i >= m {
      assert HasId(all[i]);
      if m > 0 {
        assert HasId(all[m - 1]);
        assert i < m - 1 ==> IdsIncrease(all[i], all[m - 1]);
        assert m - 1 < i ==> IdsIncrease(all[m - 1], all[i]);
      }
    }
    SkipsTo(all, m, c);
  }

  /** How a connection ends: normally, by a network failure, by an answer that is an error, by the user. */
  datatype Ending = Closed | Dropped | Refused | Aborted

  /**
   A connection carries the text of `frames`, with other blocks between them that hold no data, up to some
   character; all of it if it ends normally, where the last blank line may be missing.
   */
  ghost predicate Carries(blocks: seq<Block>, frames: seq<Frame>, text: string, ending: Ending) {
    && AllClean(blocks) && Parsed(Raws(blocks)) == frames
    && text <= Text(blocks)
    && (ending == Closed ==> text == Text(blocks) || (blocks != [] && text == Unended(blocks)))
  }

  ghost predicate Serves(frames: seq<Frame>, text: string, ending: Ending) {
    exists blocks :: Carries(blocks, frames, text, ending)
  }

  ghost predicate Faithful(all: seq<Frame>, server: (nat, int) -> seq<string>, ending: nat -> Ending) {
    forall a: nat, c: int {:trigger server(a, c)} :: Serves(Above(all, c), Concat(server(a, c)), ending(a))
  }

  lemma {:induction false} RawsPrefix(blocks: seq<Block>, n: nat)
    requires n <= |blocks|
    ensures |Raws(blocks)| == |blocks| && Raws(blocks[..n]) == Raws(blocks)[..n]
  {
    if blocks != [] {
      RawsPrefix(blocks[1..], if n == 0 then 0 else n - 1);
      if n > 0 {
        RawsTaken(blocks, n - 1);
      }
    }
  }

  /** What looks empty holds no frame. */
  lemma {:induction false} BlankHoldsNothing(raw: string)
    requires Trim(raw) == ""
    ensures ParsedOne(raw) == []
  {
    var before, after := TrimCuts(raw);
    assert Blank(raw);
    BlankLines(raw);
    NoFieldsIn(Split(raw));
  }

  /** A response that ends normally without its last blank line gives the same frames as with it. */
  lemma UnendedYieldsAll(blocks: seq<Block>)
    requires AllClean(blocks) && blocks != []
    ensures StreamFrames(Unended(blocks), true) == StreamFrames(Text(blocks), true) == Parsed(Raws(blocks))
  {
    TextDrains(blocks);
    UnendedDrains(blocks);
    var init, last := Raws(blocks[..|blocks| - 1]), blocks[|blocks| - 1].raw;
    FlatMapSnoc(ParsedOne, init, last);
    if Trim(last) == "" {
      BlankHoldsNothing(last);
    }
    assert Parsed(Raws(blocks)) + [] == Parsed(Raws(blocks));
  }

  /** One connection yields some of the frames it was asked for, from the first on; all of them if it ends normally. */
  lemma ConnectionYieldsPrefix(frames: seq<Frame>, text: string, ending: Ending)
    requires Serves(frames, text, ending)
    ensures StreamFrames(text, ending == Closed) <= frames
    ensures ending == Closed ==> StreamFrames(text, true) == frames
  {
    var blocks :| Carries(blocks, frames, text, ending);
    TextDrains(blocks);
    var n := CutTextDrains(blocks, text);
    RawsPrefix(blocks, n);
    FlatMapPrefix(ParsedOne, Raws(blocks), n);
    assert Parsed(Drained(text)) + [] == Parsed(Drained(text));
    if blocks != [] {
      UnendedYieldsAll(blocks);
    }
  }

  /** The cursor moves along with the frames taken. */
  lemma CursorMoves(all: seq<Frame>, m: nat, frames: seq<Frame>)
    requires Numbered(all) && m <= |all| && frames <= all[m..]
    ensures CursorAfter(frames, CursorAt(all, m)) == CursorAt(all, m + |frames|)
  {
    if frames != [] {
      var last := m + |frames| - 1;
      assert HasId(all[last]) && frames[|frames| - 1] == all[last];
    }
  }

  // ----- streamResilient -----

  const MAX_REATTACHES: nat := 5

  /** The turn completes on connection `k`: it ends normally, and every earlier one was dropped and waited out. */
  ghost predicate CompletesOn(ending: nat -> Ending, stopped: nat -> bool, k: nat) {
    ending(k) == Closed && DroppedBefore(ending, stopped, k)
  }

  lemma EventsMove<E>(interpret: Frame -> seq<E>, all: seq<Frame>, m: nat, frames: seq<Frame>, events: seq<E>, k: nat)
    requires m <= |all| && frames <= all[m..] && k == |frames|
    requires events == FlatMap(interpret, frames)
    ensures FlatMap(interpret, all[..m]) + events == FlatMap(interpret, all[..m + k])
  {
    assert all[..m + k] == all[..m] + frames;
    FlatMapAppend(interpret, all[..m], frames);
  }

  ghost predicate DroppedBefore(ending: nat -> Ending, stopped: nat -> bool, r: nat) {
    forall j: nat | j < r :: ending(j) == Dropped && !stopped(j)
  }

  /** Some connection within the budget completes the turn. */
  ghost predicate Completes(ending: nat -> Ending, stopped: nat -> bool) {
    exists k: nat :: k <= MAX_REATTACHES && CompletesOn(ending, stopped, k)
  }

  /** After the drops before connection `r`, only that connection or a later one can complete the turn. */
  lemma DoesNotComplete(ending: nat -> Ending, stopped: nat -> bool, r: nat)
    requires ending(r) != Closed
    requires DroppedBefore(ending, stopped, r)
    requires ending(r) != Dropped || stopped(r) || r >= MAX_REATTACHES
    ensures !Completes(ending, stopped)
  {
    forall k: nat | k <= MAX_REATTACHES ensures !CompletesOn(ending, stopped, k) {
      assert k < r ==> ending(k) == Dropped;
    }
  }

  /** The events of the first `m` frames are out and the cursor is at the last of them. */
  ghost predicate CaughtUp<E(!new)>(interpret: Frame -> seq<E>, all: seq<Frame>, m: nat, events: seq<E>, cursor: int) {
    m <= |all| && events == FlatMap(interpret, all[..m]) && cursor == CursorAt(all, m)
  }

  lemma Advance<E(!new)>(interpret: Frame -> seq<E>, all: seq<Frame>, m: nat, before: seq<E>, cursor: int,
                         frames: seq<Frame>, more: seq<E>)
    requires Numbered(all) && CaughtUp(interpret, all, m, before, cursor)
    requires frames <= all[m..] && more == FlatMap(interpret, frames)
    ensures CaughtUp(interpret, all, m + |frames|, before + more, CursorAfter(frames, cursor))
  {
    CursorMoves(all, m, frames);
    EventsMove(interpret, all, m, frames, more, |frames|);
  }

  /** The frames of one connection are the next ones. */
  lemma NextFrames(all: seq<Frame>, m: nat, text: string, ending: Ending)
    requires Numbered(all) && m <= |all|
    requires Serves(Above(all, CursorAt(all, m)), text, ending)
    ensures StreamFrames(text, ending == Closed) <= all[m..]
    ensures ending == Closed ==> |StreamFrames(text, true)| == |all| - m
  {
    AboveCursor(all, m);
    ConnectionYieldsPrefix(all[m..], text, ending);
  }

  /** One connection of the turn. */
  method Connect<E(!new)>(interpret: Frame -> seq<E>, ghost all: seq<Frame>, ghost m: nat, before: seq<E>,
                          chunks: seq<string>, ending: Ending, cursor: SseCursor)
    returns (events: seq<E>, ghost n: nat)
    requires Numbered(all) && CaughtUp(interpret, all, m, before, cursor.lastEventId)
    requires Serves(Above(all, cursor.lastEventId), Concat(chunks), ending)
    modifies cursor
    ensures m <= n && CaughtUp(interpret, all, n, events, cursor.lastEventId)
    ensures ending == Closed ==> n == |all|
  {
    hide Serves, StreamFrames;
    ghost var frames := StreamFrames(Concat(chunks), ending == Closed);
    NextFrames(all, m, Concat(chunks), ending);
    ghost var start := cursor.lastEventId;
    var more := ParseSse(interpret, chunks, ending == Closed, cursor);
    events := before + more;
    n := m + |frames|;
    Advance(interpret, all, m, before, start, frames, more);
  }

  /**
   Against a service that keeps its frames, the events are those of an uninterrupted stream up to some frame, none
   twice and none left out; all of them exactly when some connection within the budget ends normally.
   */
  method StreamResilient<E(!new)>(interpret: Frame -> seq<E>, ghost all: seq<Frame>, server: (nat, int) -> seq<string>,
                            ending: nat -> Ending, stopped: nat -> bool)
    returns (events: seq<E>, completed: bool, reattaches: nat, ghost m: nat)
    requires Numbered(all) && Faithful(all, server, ending)
    ensures m <= |all| && events == FlatMap(interpret, all[..m])
    ensures completed ==> m == |all| && CompletesOn(ending, stopped, reattaches)
    ensures completed <==> Completes(ending, stopped)
    // Every connection before the last one was dropped and waited out, and there is no more to try.
    ensures reattaches <= 5 && DroppedBefore(ending, stopped, reattaches)
    ensures !completed ==> ending(reattaches) != Closed &&
                           (ending(reattaches) == Dropped && !stopped(reattaches) ==> reattaches == 5)
  {
    hide Serves;
    var cursor := new SseCursor();
    events, reattaches, m := [], 0, 0;
    while true
      invariant reattaches <= MAX_REATTACHES
      invariant CaughtUp(interpret, all, m, events, cursor.lastEventId)
      invariant DroppedBefore(ending, stopped, reattaches)
      decreases MAX_REATTACHES - reattaches
    {
      var chunks := server(reattaches, cursor.lastEventId);
      assert Serves(Above(all, cursor.lastEventId), Concat(chunks), ending(reattaches));
      events, m := Connect(interpret, all, m, events, chunks, ending(reattaches), cursor);
      if ending(reattaches) == Closed {
        assert CompletesOn(ending, stopped, reattaches);
        return events, true, reattaches, m;
      }
      if ending(reattaches) != Dropped || reattaches >= MAX_REATTACHES || stopped(reattaches) {
        DoesNotComplete(ending, stopped, reattaches);
        return events, false, reattaches, m;
      }
      reattaches := reattaches + 1;
    }
  }
}
