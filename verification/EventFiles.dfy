/** Segment files and the head that publishes a prefix of them. */
module EventFiles {
  import opened EventBytes
  import opened Sequences

  const FIRST_EVENT_SEGMENT: nat := 1
  const EVENT_SEGMENT_MAX_BYTES: nat := 1_048_576

  datatype Head = Head(segment: nat, length: nat)

  type Segments = map<nat, Bytes>

  function Content(segs: Segments, n: nat): Bytes {
    if n in segs then segs[n] else []
  }

  /** What a reader may read of the head segment. */
  function Prefix(segs: Segments, h: Head): Bytes {
    var c := Content(segs, h.segment);
    if h.length <= |c| then c[..h.length] else c
  }

  function LinesBefore(segs: Segments, n: nat): seq<Line> {
    if n <= FIRST_EVENT_SEGMENT then [] else LinesBefore(segs, n - 1) + Decode(Content(segs, n - 1))
  }

  /** Everything a reader sees, in order: the segments before the head's, then the head segment up to its length. */
  function Published(segs: Segments, h: Head): seq<Line> {
    LinesBefore(segs, h.segment) + Decode(Prefix(segs, h))
  }

  /** seq 1, 2, … without gap or repeat. */
  ghost predicate Numbered(lines: seq<Line>) {
    forall i | 0 <= i < |lines| :: lines[i].number == i + 1
  }

  ghost predicate WithinLimit(b: Bytes) {
    |b| <= EVENT_SEGMENT_MAX_BYTES || |Decode(b)| == 1
  }

  ghost predicate SegmentValid(segs: Segments, n: nat) {
    n in segs && Whole(segs[n]) && segs[n] != [] && WithinLimit(segs[n])
  }

  /** The files hold a well-formed log up to `h`; anything beyond it is of no account. */
  ghost predicate LogAt(segs: Segments, h: Head) {
    && h.segment >= FIRST_EVENT_SEGMENT
    && h.length <= |Content(segs, h.segment)|
    && Whole(Prefix(segs, h)) && WithinLimit(Prefix(segs, h))
    && (forall n {:trigger SegmentValid(segs, n)} | FIRST_EVENT_SEGMENT <= n < h.segment :: SegmentValid(segs, n))
    && Numbered(Published(segs, h))
  }

  /** The head segment holds nothing beyond `h`. */
  ghost predicate Trimmed(segs: Segments, h: Head) {
    |Content(segs, h.segment)| == h.length
  }

  /** Two sets of files agree on everything up to `h`. */
  ghost predicate SameUpTo(segs: Segments, later: Segments, h: Head) {
    && (forall n: nat {:trigger Content(later, n)} | n < h.segment :: Content(later, n) == Content(segs, n))
    && (forall n: nat {:trigger n in later} | n < h.segment && n in segs :: n in later)
    && h.length <= |Content(later, h.segment)|
    && Prefix(later, h) == Prefix(segs, h)
  }

  lemma {:induction false} LinesBeforeSame(segs: Segments, later: Segments, n: nat)
    requires forall k: nat {:trigger Content(later, k)} | k < n :: Content(later, k) == Content(segs, k)
    ensures LinesBefore(later, n) == LinesBefore(segs, n)
    decreases n
  {
    if n > FIRST_EVENT_SEGMENT {
      LinesBeforeSame(segs, later, n - 1);
      assert Content(later, n - 1) == Content(segs, n - 1);
    }
  }

  /** Bytes beyond the head do not change what is published. */
  lemma PublishedSame(segs: Segments, later: Segments, h: Head)
    requires LogAt(segs, h) && SameUpTo(segs, later, h)
    ensures LogAt(later, h) && Published(later, h) == Published(segs, h)
  {
    LinesBeforeSame(segs, later, h.segment);
    forall n | FIRST_EVENT_SEGMENT <= n < h.segment ensures SegmentValid(later, n) {
      assert SegmentValid(segs, n);
      assert Content(later, n) == Content(segs, n);
    }
  }

  function Appended(segs: Segments, n: nat, chunk: Bytes): Segments {
    segs[n := Content(segs, n) + chunk]
  }

  lemma AppendPrefix(segs: Segments, h: Head, chunk: Bytes)
    requires Trimmed(segs, h)
    ensures Prefix(segs, h) == Content(segs, h.segment)
    ensures Prefix(Appended(segs, h.segment, chunk), Head(h.segment, h.length + |chunk|)) == Content(segs,
              h.segment) + chunk
    ensures Trimmed(Appended(segs, h.segment, chunk), Head(h.segment, h.length + |chunk|))
  {
  }

  lemma AppendPublishes(segs: Segments, h: Head, chunk: Bytes)
    requires Trimmed(segs, h) && Whole(Content(segs, h.segment)) && Whole(chunk)
    ensures var h' := Head(h.segment, h.length + |chunk|);
            && Whole(Prefix(Appended(segs, h.segment, chunk), h'))
            && Published(Appended(segs, h.segment, chunk), h') == Published(segs, h) + Decode(chunk)
  {
    var held := Content(segs, h.segment);
    AppendPrefix(segs, h, chunk);
    WholeConcat(held, chunk);
    LinesBeforeSame(segs, Appended(segs, h.segment, chunk), h.segment);
    Associates(LinesBefore(segs, h.segment), Decode(held), Decode(chunk));
    hide Decode, Whole, LinesBefore;
  }

  /** Complete lines appended right at the head extend the log by these lines. */
  lemma AppendExtends(segs: Segments, h: Head, chunk: Bytes)
    requires LogAt(segs, h) && Trimmed(segs, h) && Whole(chunk)
    requires WithinLimit(Content(segs, h.segment) + chunk)
    requires Numbered(Published(segs, h) + Decode(chunk))
    ensures var later := Appended(segs, h.segment, chunk);
            var h' := Head(h.segment, h.length + |chunk|);
            && LogAt(later, h') && Trimmed(later, h')
            && Published(later, h') == Published(segs, h) + Decode(chunk)
  {
    AppendPrefix(segs, h, chunk);
    AppendPublishes(segs, h, chunk);
    forall n | FIRST_EVENT_SEGMENT <= n < h.segment ensures SegmentValid(Appended(segs, h.segment, chunk), n) {
      assert SegmentValid(segs, n);
    }
  }

  /** A full segment may be left for an empty one. */
  lemma RolloverKeeps(segs: Segments, h: Head, later: Segments)
    requires LogAt(segs, h) && Trimmed(segs, h) && h.length > 0
    requires later == segs - {h.segment + 1}
    ensures var h' := Head(h.segment + 1, 0);
            && LogAt(later, h') && Trimmed(later, h')
            && Published(later, h') == Published(segs, h)
  {
    var h' := Head(h.segment + 1, 0);
    LinesBeforeSame(segs, later, h.segment);
    assert Content(later, h.segment) == Content(segs, h.segment) == Prefix(segs, h);
    assert Prefix(later, h') == [];
    WholeLines([]);
    assert Published(later, h') == LinesBefore(later, h.segment) + Decode(Content(later, h.segment)) + Decode([]);
    forall n | FIRST_EVENT_SEGMENT <= n < h'.segment ensures SegmentValid(later, n) {
      if n < h.segment {
        assert SegmentValid(segs, n);
      }
    }
  }

  lemma EmptyLog(segs: Segments)
    ensures LogAt(segs, Head(FIRST_EVENT_SEGMENT, 0)) && Published(segs, Head(FIRST_EVENT_SEGMENT, 0)) == []
  {
    WholeLines([]);
    assert Prefix(segs, Head(FIRST_EVENT_SEGMENT, 0)) == [];
  }

  /** The last number in a published log is found in its head segment. */
  lemma LastPublished(segs: Segments, h: Head)
    requires LogAt(segs, h) && h.length > 0
    ensures Decode(Prefix(segs, h)) != []
    ensures LastSeqIn(Prefix(segs, h)) == |Published(segs, h)| > 0
  {
    var tail := Decode(Prefix(segs, h));
    assert tail == [] ==> EncodeAll(tail) == [];
    var all := Published(segs, h);
    assert all[|all| - 1] == tail[|tail| - 1];
  }

  // ----- Numbering a batch -----

  function NumberFrom(first: nat, batch: seq<Payload>): (lines: seq<Line>)
    ensures |lines| == |batch|
    ensures forall i | 0 <= i < |lines| :: lines[i] == Line(first + i, batch[i])
  {
    seq(|batch|, i requires 0 <= i < |batch| => Line(first + i, batch[i]))
  }

  function Payloads(lines: seq<Line>): (ps: seq<Payload>)
    ensures |ps| == |lines|
    ensures forall i | 0 <= i < |ps| :: ps[i] == lines[i].payload
  {
    seq(|lines|, i requires 0 <= i < |lines| => lines[i].payload)
  }
}
