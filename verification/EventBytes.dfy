/**
 Event lines as bytes, and segments as files of lines. A byte is known by the line it belongs to and its
 place in it, so a torn line is recognisable; what the bytes look like is not modelled.
 */
module EventBytes {
  import opened Decimals
  import opened Sequences

  datatype Payload =
    | TextDelta(conversation: string, text: string)
    | ThinkingDelta(conversation: string, text: string)
    | Other(id: int, size: nat)

  datatype Line = Line(number: nat, payload: Payload)

  datatype Cell = Cell(line: Line, at: nat)

  type Bytes = seq<Cell>

  function PayloadSize(p: Payload): nat {
    match p
    case TextDelta(c, t) => |c| + |t|
    case ThinkingDelta(c, t) => |c| + |t|
    case Other(_, size) => size
  }

  /** The length of a formatted line in bytes. */
  function LineSize(l: Line): (n: nat)
    ensures n > 0
  {
    |Decimal(l.number)| + PayloadSize(l.payload)
  }

  /** `formatEventLine` */
  function Encode(l: Line): (b: Bytes)
    ensures |b| == LineSize(l)
  {
    seq(LineSize(l), i requires 0 <= i < LineSize(l) => Cell(l, i))
  }

  function EncodeAll(lines: seq<Line>): Bytes {
    if lines == [] then [] else Encode(lines[0]) + EncodeAll(lines[1..])
  }

  /** `b` starts with the complete line of its first byte. */
  predicate StartsWithLine(b: Bytes) {
    b != [] && LineSize(b[0].line) <= |b| && b[..LineSize(b[0].line)] == Encode(b[0].line)
  }

  /** The complete lines at the start of `b`. */
  function Decode(b: Bytes): seq<Line>
    decreases |b|
  {
    if StartsWithLine(b) then [b[0].line] + Decode(b[LineSize(b[0].line)..]) else []
  }

  lemma DecodeLine(l: Line, rest: Bytes)
    ensures StartsWithLine(Encode(l) + rest)
    ensures Decode(Encode(l) + rest) == [l] + Decode(rest)
  {
    var b := Encode(l) + rest;
    assert b[0] == Encode(l)[0] == Cell(l, 0);
    assert b[..LineSize(l)] == Encode(l) && b[LineSize(l)..] == rest;
  }

  lemma EncodeFirst(lines: seq<Line>, rest: Bytes)
    requires lines != []
    ensures EncodeAll(lines) + rest == Encode(lines[0]) + (EncodeAll(lines[1..]) + rest)
  {
  }

  /** Reading after complete lines continues with what follows, whole or torn. */
  lemma {:induction false} DecodeAfter(lines: seq<Line>, rest: Bytes)
    ensures Decode(EncodeAll(lines) + rest) == lines + Decode(rest)
    decreases |lines|
  {
    if lines == [] {
      assert EncodeAll(lines) + rest == rest;
    } else {
      var first, others := lines[0], lines[1..];
      DecodeAfter(others, rest);
      DecodeLine(first, EncodeAll(others) + rest);
      EncodeFirst(lines, rest);
      assert lines + Decode(rest) == [first] + (others + Decode(rest));
    }
  }

  lemma DecodeAll(lines: seq<Line>)
    ensures Decode(EncodeAll(lines)) == lines
  {
    DecodeAfter(lines, []);
    assert EncodeAll(lines) + [] == EncodeAll(lines);
    assert Decode([]) == [] && lines + [] == lines;
  }

  lemma {:induction false} EncodeAllConcat(xs: seq<Line>, ys: seq<Line>)
    ensures EncodeAll(xs + ys) == EncodeAll(xs) + EncodeAll(ys)
    decreases |xs|
  {
    if xs == [] {
      assert xs + ys == ys;
    } else {
      hide Encode;
      EncodeAllConcat(xs[1..], ys);
      assert (xs + ys)[0] == xs[0] && (xs + ys)[1..] == xs[1..] + ys;
      Associates(Encode(xs[0]), EncodeAll(xs[1..]), EncodeAll(ys));
    }
  }

  /** A file of complete lines. */
  ghost predicate Whole(b: Bytes) {
    b == EncodeAll(Decode(b))
  }

  lemma WholeLines(lines: seq<Line>)
    ensures Whole(EncodeAll(lines)) && Decode(EncodeAll(lines)) == lines
  {
    DecodeAll(lines);
  }

  lemma WholeConcat(a: Bytes, b: Bytes)
    requires Whole(a) && Whole(b)
    ensures Whole(a + b) && Decode(a + b) == Decode(a) + Decode(b)
  {
    EncodeAllConcat(Decode(a), Decode(b));
    DecodeAll(Decode(a) + Decode(b));
  }

  /** `lastSeqIn`: the number of the last complete line, 0 when there is none. */
  function LastSeqIn(b: Bytes): nat {
    var lines := Decode(b);
    if lines == [] then 0 else lines[|lines| - 1].number
  }

  // ----- Coalescing -----

  predicate Mergeable(a: Payload, b: Payload) {
    || (a.TextDelta? && b.TextDelta? && a.conversation == b.conversation)
    || (a.ThinkingDelta? && b.ThinkingDelta? && a.conversation == b.conversation)
  }

  function Merge(a: Payload, b: Payload): Payload
    requires Mergeable(a, b)
  {
    if a.TextDelta? then TextDelta(a.conversation, a.text + b.text)
    else ThinkingDelta(a.conversation, a.text + b.text)
  }

  /** A stream extended by one event, an adjacent delta of the same kind and conversation merged in. */
  function Push(stream: seq<Payload>, p: Payload): seq<Payload> {
    if stream != [] && Mergeable(stream[|stream| - 1], p) then
      stream[..|stream| - 1] + [Merge(stream[|stream| - 1], p)]
    else stream + [p]
  }

  /** `stream` extended by all of `events`. */
  function PushAll(stream: seq<Payload>, events: seq<Payload>): seq<Payload>
    decreases |events|
  {
    if events == [] then stream else PushAll(Push(stream, events[0]), events[1..])
  }

  /** The stream with all adjacent deltas of the same kind and conversation merged. */
  function Coalesce(events: seq<Payload>): seq<Payload> {
    PushAll([], events)
  }

  lemma {:induction false} PushAllConcat(stream: seq<Payload>, xs: seq<Payload>, ys: seq<Payload>)
    ensures PushAll(stream, xs + ys) == PushAll(PushAll(stream, xs), ys)
    decreases |xs|
  {
    if xs == [] {
      assert xs + ys == ys;
    } else {
      assert (xs + ys)[0] == xs[0] && (xs + ys)[1..] == xs[1..] + ys;
      PushAllConcat(Push(stream, xs[0]), xs[1..], ys);
    }
  }

  lemma PushMerged(stream: seq<Payload>, a: Payload, b: Payload)
    requires Mergeable(a, b)
    ensures Push(Push(stream, a), b) == Push(stream, Merge(a, b))
  {
    if stream != [] && Mergeable(stream[|stream| - 1], a) {
      var l := stream[|stream| - 1];
      assert (l.text + a.text) + b.text == l.text + (a.text + b.text);
    }
  }

  /** Merging two adjacent deltas before or after they join the stream comes to the same. */
  lemma MergeEarlyOrLate(events: seq<Payload>, a: Payload, b: Payload)
    requires Mergeable(a, b)
    ensures Coalesce(events + [a, b]) == Coalesce(events + [Merge(a, b)])
  {
    var c := Coalesce(events);
    PushAllConcat([], events, [a, b]);
    PushAllConcat([], events, [Merge(a, b)]);
    assert [a, b][1..] == [b] && [b][1..] == [] && [Merge(a, b)][1..] == [];
    assert PushAll(c, [a, b]) == PushAll(Push(c, a), [b]) == Push(Push(c, a), b);
    PushMerged(c, a, b);
  }

  /** Equal streams stay equal when the same events follow. */
  lemma CoalesceCongruent(xs: seq<Payload>, ys: seq<Payload>, more: seq<Payload>)
    requires Coalesce(xs) == Coalesce(ys)
    ensures Coalesce(xs + more) == Coalesce(ys + more)
  {
    PushAllConcat([], xs, more);
    PushAllConcat([], ys, more);
  }

  // ----- What coalescing keeps -----

  /** A character of a text or of a thought, with its conversation, or another event as a whole. */
  datatype Piece =
    | TextPiece(conversation: string, c: char)
    | ThinkingPiece(conversation: string, c: char)
    | OtherPiece(id: int, size: nat)

  function Pieces(p: Payload): (pieces: seq<Piece>)
    ensures p.Other? ==> |pieces| == 1
    ensures !p.Other? ==> |pieces| == |p.text|
  {
    match p
    case TextDelta(c, text) => seq(|text|, i requires 0 <= i < |text| => TextPiece(c, text[i]))
    case ThinkingDelta(c, text) => seq(|text|, i requires 0 <= i < |text| => ThinkingPiece(c, text[i]))
    case Other(id, size) => [OtherPiece(id, size)]
  }

  /** All that a stream says, whatever it is cut into. */
  function Said(events: seq<Payload>): seq<Piece> {
    FlatMap(Pieces, events)
  }

  predicate SameSpeaker(a: Payload, b: Payload) {
    || (a.TextDelta? && b.TextDelta? && a.conversation == b.conversation)
    || (a.ThinkingDelta? && b.ThinkingDelta? && a.conversation == b.conversation)
  }

  /** No two neighbours are deltas of one kind and conversation. */
  ghost predicate Separated(events: seq<Payload>) {
    forall i | 0 <= i < |events| - 1 :: !SameSpeaker(events[i], events[i + 1])
  }

  lemma MergePieces(a: Payload, b: Payload)
    requires Mergeable(a, b)
    ensures Pieces(Merge(a, b)) == Pieces(a) + Pieces(b)
  {
  }

  lemma SaidSnoc(events: seq<Payload>, p: Payload)
    ensures Said(events + [p]) == Said(events) + Pieces(p)
  {
    FlatMapSnoc(Pieces, events, p);
  }

  lemma PushSays(stream: seq<Payload>, p: Payload)
    ensures Said(Push(stream, p)) == Said(stream) + Pieces(p)
  {
    hide Pieces;
    if stream != [] && Mergeable(stream[|stream| - 1], p) {
      var init, last := stream[..|stream| - 1], stream[|stream| - 1];
      assert stream == init + [last];
      MergePieces(last, p);
      SaidSnoc(init, last);
      SaidSnoc(init, Merge(last, p));
      Associates(Said(init), Pieces(last), Pieces(p));
    } else {
      SaidSnoc(stream, p);
    }
  }

  lemma PushSeparates(stream: seq<Payload>, p: Payload)
    requires Separated(stream)
    ensures Separated(Push(stream, p))
  {
  }

  lemma {:induction false} PushAllSays(stream: seq<Payload>, events: seq<Payload>)
    requires Separated(stream)
    ensures Said(PushAll(stream, events)) == Said(stream) + Said(events)
    ensures Separated(PushAll(stream, events))
    decreases |events|
  {
    hide Pieces;
    if events == [] {
      assert Said(stream) + [] == Said(stream);
    } else {
      PushSays(stream, events[0]);
      PushSeparates(stream, events[0]);
      PushAllSays(Push(stream, events[0]), events[1..]);
      assert events == [events[0]] + events[1..];
      FlatMapAppend(Pieces, [events[0]], events[1..]);
      SaidOne(events[0]);
      Associates(Said(stream), Pieces(events[0]), Said(events[1..]));
    }
  }

  lemma SaidOne(p: Payload)
    ensures Said([p]) == Pieces(p)
  {
    SaidSnoc([], p);
    assert [] + [p] == [p];
  }

  /** Merging loses no character and no other event, moves none, and leaves no two neighbours that could be merged. */
  lemma CoalesceKeepsPieces(events: seq<Payload>)
    ensures Said(Coalesce(events)) == Said(events)
    ensures Separated(Coalesce(events))
  {
    PushAllSays([], events);
  }

  /** Streams that are equal up to merging say the same. */
  lemma SameSaid(xs: seq<Payload>, ys: seq<Payload>, zs: seq<Payload>)
    requires Coalesce(xs) == Coalesce(ys + zs)
    ensures Said(xs) == Said(ys) + Said(zs)
  {
    CoalesceKeepsPieces(xs);
    CoalesceKeepsPieces(ys + zs);
    FlatMapAppend(Pieces, ys, zs);
  }
}
