/**
 The session's event log (ts-apps/cloud-agent/src/event-log.ts) over a disk whose operations may succeed,
 fail, or be the last thing the process does. A crash can come at any disk operation, so what holds on a
 `Crashed` exit holds of every state the disk passes through, and so of all a reader can see.
 */
module EventLogs {
  import opened Wrappers
  import opened EventBytes
  import opened EventFiles
  import opened Sequences

  datatype Outcome = Done | Failed | Crashed

  ghost predicate FilesValid(published: Option<Head>, segs: Segments) {
    published.Some? ==> published.value.length > 0 && LogAt(segs, published.value)
  }

  function VisibleIn(published: Option<Head>, segs: Segments): seq<Line> {
    if published.Some? then Published(segs, published.value) else []
  }

  /** The position (`h`, `lastSeq`) a log keeps in memory is what the files publish. */
  ghost predicate PositionHolds(published: Option<Head>, segs: Segments, h: Head, lastSeq: nat) {
    && FilesValid(published, segs)
    && h == (if published.Some? then published.value else Head(FIRST_EVENT_SEGMENT, 0))
    && LogAt(segs, h)
    && VisibleIn(published, segs) == Published(segs, h)
    && lastSeq == |VisibleIn(published, segs)|
  }

  /** The state directory: rename happens or does not, an append may leave any prefix. */
  class Disk {
    var head: Option<Head>
    var segments: Segments

    ghost predicate Valid()
      reads this
    {
      FilesValid(head, segments)
    }

    /** What a reader sees. */
    ghost function Visible(): seq<Line>
      reads this
    {
      VisibleIn(head, segments)
    }

    lemma IsNumbered()
      requires Valid()
      ensures Numbered(Visible())
    {
      if head.Some? {
        LogIsNumbered(segments, head.value);
      }
    }

    /** `appendToFile`: a failed append may leave any prefix behind. */
    method Append(n: nat, chunk: Bytes) returns (o: Outcome)
      modifies this`segments
      ensures o.Done? ==> segments == Appended(old(segments), n, chunk)
      ensures !o.Done? ==> segments == old(segments) || exists k: nat ::
                k <= |chunk| && segments == Appended(old(segments), n, chunk[..k])
    {
      o := *;
      if o.Done? {
        segments := segments[n := Content(segments, n) + chunk];
      } else {
        var started: bool := *;
        if started {
          var k :| 0 <= k <= |chunk|;
          segments := segments[n := Content(segments, n) + chunk[..k]];
        }
      }
    }

    /** `fs.rm` with `force` */
    method Remove(n: nat) returns (o: Outcome)
      modifies this`segments
      ensures o.Done? ==> segments == old(segments) - {n}
      ensures segments == old(segments) || segments == old(segments) - {n}
    {
      o := *;
      var happened: bool := *;
      if o.Done? || happened {
        segments := segments - {n};
      }
    }

    /** `truncateTo`: nothing to do when the file is missing or short. */
    method Truncate(n: nat, length: nat) returns (o: Outcome)
      modifies this`segments
      ensures o.Done? ==> segments == CutTo(old(segments), n, length)
      ensures segments == old(segments) || segments == CutTo(old(segments), n, length)
    {
      o := *;
      var happened: bool := *;
      if o.Done? || happened {
        if n in segments && |segments[n]| > length {
          segments := segments[n := segments[n][..length]];
        }
      }
    }

    /** `writeAtomic` of head.json */
    method WriteHead(h: Head) returns (o: Outcome)
      modifies this`head
      ensures o.Done? ==> head == Some(h)
      ensures o.Failed? ==> head == old(head)
      ensures head == old(head) || head == Some(h)
    {
      o := *;
      var happened: bool := *;
      if o.Done? || (o.Crashed? && happened) {
        head := Some(h);
      }
    }
  }

  function CutTo(segs: Segments, n: nat, length: nat): Segments {
    if n in segs && |segs[n]| > length then segs[n := segs[n][..length]] else segs
  }

  // ----- A batch on its way to the disk -----

  /** The files `segs`, with `chunk` still to be appended at `h`, continue the log at `base` to `lines`. */
  ghost predicate Building(segs0: Segments, base: Head, segs: Segments, h: Head, chunk: Bytes, lines: seq<Line>) {
    && SameUpTo(segs0, segs, base)
    && (base.segment < h.segment || (base.segment == h.segment && base.length <= h.length))
    && LogAt(segs, h) && Trimmed(segs, h)
    && Whole(chunk) && WithinLimit(Content(segs, h.segment) + chunk)
    && Published(segs, h) + Decode(chunk) == lines
    && Numbered(lines)
  }

  lemma BuildStart(segs: Segments, h: Head)
    requires LogAt(segs, h) && Trimmed(segs, h)
    ensures Building(segs, h, segs, h, [], Published(segs, h))
  {
    WholeLines([]);
    assert Content(segs, h.segment) + [] == Prefix(segs, h);
    assert Published(segs, h) + Decode([]) == Published(segs, h);
  }

  /** Appending anything where the log under construction ends leaves what is published alone. */
  lemma AppendIsBeyond(segs0: Segments, base: Head, segs: Segments, h: Head, part: Bytes)
    requires SameUpTo(segs0, segs, base) && Trimmed(segs, h)
    requires base.segment < h.segment || (base.segment == h.segment && base.length <= h.length)
    ensures SameUpTo(segs0, Appended(segs, h.segment, part), base)
  {
    var later := Appended(segs, h.segment, part);
    forall n: nat | n < base.segment ensures Content(later, n) == Content(segs0, n) {
      assert Content(segs, n) == Content(segs0, n);
    }
  }

  lemma BuildCommit(segs0: Segments, base: Head, segs: Segments, h: Head, chunk: Bytes, lines: seq<Line>)
    requires Building(segs0, base, segs, h, chunk, lines)
    ensures Building(segs0, base, Appended(segs, h.segment, chunk), Head(h.segment, h.length + |chunk|), [], lines)
  {
    var later := Appended(segs, h.segment, chunk);
    var h' := Head(h.segment, h.length + |chunk|);
    AppendIsBeyond(segs0, base, segs, h, chunk);
    AppendExtends(segs, h, chunk);
    BuildStart(later, h');
  }

  lemma RemoveIsBeyond(segs0: Segments, base: Head, segs: Segments, n: nat)
    requires SameUpTo(segs0, segs, base) && base.segment < n
    ensures SameUpTo(segs0, segs - {n}, base)
  {
    var later := segs - {n};
    forall k: nat | k < base.segment ensures Content(later, k) == Content(segs0, k) {
      assert Content(segs, k) == Content(segs0, k);
    }
    assert Content(later, base.segment) == Content(segs, base.segment);
  }

  lemma BuildRollover(segs0: Segments, base: Head, segs: Segments, h: Head, lines: seq<Line>)
    requires Building(segs0, base, segs, h, [], lines) && h.length > 0
    ensures Building(segs0, base, segs - {h.segment + 1}, Head(h.segment + 1, 0), [], lines)
  {
    var later := segs - {h.segment + 1};
    NoChunk(segs, h);
    RemoveIsBeyond(segs0, base, segs, h.segment + 1);
    RolloverKeeps(segs, h, later);
    BuildStart(later, Head(h.segment + 1, 0));
    hide Published, Decode, Whole, WithinLimit, Numbered, Trimmed, LogAt, SameUpTo;
  }

  lemma NoChunk(segs: Segments, h: Head)
    ensures Published(segs, h) + Decode([]) == Published(segs, h)
  {
  }

  /** A line goes into a segment that is empty, or that it does not push over the limit. */
  lemma LineWithinLimit(held: Bytes, chunk: Bytes, l: Line)
    requires |held| + |chunk| == 0 || |held| + |chunk| + LineSize(l) <= EVENT_SEGMENT_MAX_BYTES
    ensures WithinLimit(held + (chunk + Encode(l)))
  {
    if |held| + |chunk| == 0 {
      assert held + (chunk + Encode(l)) == Encode(l);
      EncodeOne(l);
    }
  }

  lemma BuildLine(segs0: Segments, base: Head, segs: Segments, h: Head, chunk: Bytes, lines: seq<Line>, l: Line)
    requires Building(segs0, base, segs, h, chunk, lines)
    requires l.number == |lines| + 1
    requires h.length + |chunk| == 0 || h.length + |chunk| + LineSize(l) <= EVENT_SEGMENT_MAX_BYTES
    ensures Building(segs0, base, segs, h, chunk + Encode(l), lines + [l])
  {
    EncodeOne(l);
    WholeConcat(chunk, Encode(l));
    LineWithinLimit(Content(segs, h.segment), chunk, l);
    var before, added := Published(segs, h), Decode(chunk);
    assert before + (added + [l]) == before + added + [l];
  }

  lemma EncodeOne(l: Line)
    ensures Whole(Encode(l)) && Decode(Encode(l)) == [l]
  {
    assert [l][1..] == [] && EncodeAll([l]) == Encode(l) + [] == Encode(l);
    WholeLines([l]);
  }

  /** The delta being collected, as a stream. */
  function Collected(delta: Option<Payload>): seq<Payload> {
    if delta.Some? then [delta.value] else []
  }

  /** All that has become of the events emitted so far: written, being written, waiting, being collected. */
  function Stream(written: seq<Payload>, inFlight: seq<Payload>, pending: seq<Payload>,
                  delta: Option<Payload>): seq<Payload> {
    written + inFlight + pending + Collected(delta)
  }

  lemma StreamTakesDelta(written: seq<Payload>, inFlight: seq<Payload>, pending: seq<Payload>, delta: Option<Payload>)
    ensures Stream(written, inFlight, pending + Collected(delta), None) == Stream(written, inFlight, pending, delta)
  {
  }

  lemma StreamEmits(written: seq<Payload>, inFlight: seq<Payload>, pending: seq<Payload>, p: Payload)
    ensures Stream(written, inFlight, pending + [p], None) == Stream(written, inFlight, pending, None) + [p]
    ensures Stream(written, inFlight, pending, Some(p)) == Stream(written, inFlight, pending, None) + [p]
  {
  }

  /** A delta merged into the one being collected counts as emitted after it. */
  lemma StreamMerges(written: seq<Payload>, inFlight: seq<Payload>, pending: seq<Payload>, d: Payload, p: Payload)
    requires Mergeable(d, p)
    ensures Coalesce(Stream(written, inFlight, pending, Some(d)) + [p])
         == Coalesce(Stream(written, inFlight, pending, Some(Merge(d, p))))
  {
    var before := written + inFlight + pending;
    assert Stream(written, inFlight, pending, Some(d)) + [p] == before + [d, p];
    MergeEarlyOrLate(before, d, p);
  }

  lemma WaitingGrows(inFlight: seq<Payload>, pending: seq<Payload>, delta: Option<Payload>, p: Payload)
    ensures inFlight + (pending + Collected(delta) + [p]) + Collected(None) + [] ==
            inFlight + pending + Collected(delta) + [] + [p]
    ensures inFlight + (pending + Collected(delta)) + Collected(Some(p)) + [] ==
            inFlight + pending + Collected(delta) + [] + [p]
  {
  }

  lemma SaidMerges(before: seq<Payload>, d: Payload, p: Payload)
    requires Mergeable(d, p)
    ensures Said(before + [Merge(d, p)] + []) == Said(before + [d] + []) + Pieces(p)
  {
    hide Pieces;
    MergePieces(d, p);
    SaidSnoc(before, d);
    SaidSnoc(before, Merge(d, p));
    assert before + [d] + [] == before + [d] && before + [Merge(d, p)] + [] == before + [Merge(d, p)];
    Associates(Said(before), Pieces(d), Pieces(p));
  }

  lemma StreamStartsWrite(written: seq<Payload>, pending: seq<Payload>, delta: Option<Payload>)
    ensures Stream(written, pending, [], delta) == Stream(written, [], pending, delta)
  {
  }

  lemma StreamEndsWrite(written: seq<Payload>, inFlight: seq<Payload>, pending: seq<Payload>, delta: Option<Payload>)
    ensures Stream(written + inFlight, [], pending, delta) == Stream(written, inFlight, pending, delta)
    ensures Stream(written, [], inFlight + pending, delta) == Stream(written, inFlight, pending, delta)
  {
  }

  lemma PayloadsConcat(xs: seq<Line>, ys: seq<Line>)
    ensures Payloads(xs + ys) == Payloads(xs) + Payloads(ys)
  {
  }

  lemma PayloadsOfNumbered(first: nat, batch: seq<Payload>)
    ensures Payloads(NumberFrom(first, batch)) == batch
  {
  }

  /** `lastSeqBefore`: the last number in the up to three segments before `segment`. */
  function LookBack(segs: Segments, segment: nat, n: nat): nat
    requires n < segment
    decreases n
  {
    if n < FIRST_EVENT_SEGMENT then 0
    else if LastSeqIn(Content(segs, n)) > 0 then LastSeqIn(Content(segs, n))
    else if n + 2 < segment then 0
    else LookBack(segs, segment, n - 1)
  }

  /** The last number of what the head segment holds, or of the segments before when it holds no line. */
  function LastLeft(segs: Segments, h: Head): nat {
    var last := LastSeqIn(Content(segs, h.segment));
    if last == 0 && h.segment > 0 then LookBack(segs, h.segment, h.segment - 1) else last
  }

  /** The published length lies beyond what the segment holds. */
  predicate IsAhead(segs: Segments, h: Head) {
    h.length > |Content(segs, h.segment)|
  }

  /** The life of one process: what it emitted until it was closed, how much was published, and what was lost. */
  datatype Life = Life(emitted: seq<Payload>, published: seq<Payload>, lost: seq<Payload>)

  /** What was published and then what was lost is all that was emitted, character by character and in that order. */
  ghost predicate Accounted(l: Life) {
    Coalesce(l.emitted) == Coalesce(l.published + l.lost) && Said(l.emitted) == Said(l.published) + Said(l.lost)
  }

  ghost function PublishedIn(lives: seq<Life>): seq<Payload> {
    if lives == [] then [] else PublishedIn(lives[..|lives| - 1]) + lives[|lives| - 1].published
  }

  lemma PublishedSnoc(lives: seq<Life>, l: Life)
    ensures PublishedIn(lives + [l]) == PublishedIn(lives) + l.published
  {
    assert (lives + [l])[..|lives|] == lives;
  }

  class EventLog {
    const disk: Disk
    var head: Head
    var lastSeq: nat
    var pending: seq<Payload>
    var delta: Option<Payload>
    /** A write failed after it may have appended. */
    var unclean: bool
    var closed: bool
    /** The batch of the write that is running. */
    var inFlight: seq<Payload>
    /** Everything emitted since the log was opened, and everything published since. */
    ghost var emitted: seq<Payload>
    ghost var written: seq<Payload>
    /** What was published when the log was opened, and what `close` has thrown away. */
    ghost var base: seq<Payload>
    ghost var dropped: seq<Payload>

    /** The in-memory position is what the disk publishes. */
    ghost predicate AtDisk()
      reads this`head, this`lastSeq, disk
    {
      PositionHolds(disk.head, disk.segments, head, lastSeq)
    }

    ghost predicate Positioned()
      reads this`head, this`lastSeq, this`unclean, this`written, this`base, disk
    {
      && AtDisk()
      && (!unclean ==> Trimmed(disk.segments, head))
      && Payloads(disk.Visible()) == base + written
    }

    /** What has been emitted is what was written, is being written, waits, is being collected, or was thrown away. */
    ghost predicate Conserved()
      reads this`closed, this`emitted, this`written, this`inFlight, this`pending, this`delta, this`dropped
    {
      && (closed || dropped == [])
      && Coalesce(emitted) == Coalesce(Stream(written, inFlight, pending, delta) + dropped)
    }

    ghost predicate Valid()
      reads this, disk
    {
      Positioned() && Conserved()
    }

    /** Emitted and not published. */
    ghost function Unpublished(): seq<Payload>
      reads this`inFlight, this`pending, this`delta, this`dropped
    {
      inFlight + pending + Collected(delta) + dropped
    }

    ghost function ThisLife(): Life
      reads this`emitted, this`written, this`inFlight, this`pending, this`delta, this`dropped
    {
      Life(emitted, written, Unpublished())
    }

    /** The same with the batch that is being written. */
    ghost function WholeLife(): Life
      reads this`emitted, this`written, this`inFlight, this`pending, this`delta, this`dropped
    {
      Life(emitted, written + inFlight, pending + Collected(delta) + dropped)
    }

    lemma EitherLife()
      requires Valid()
      ensures Accounted(ThisLife()) && Payloads(disk.Visible()) == base + ThisLife().published
      ensures Accounted(WholeLife())
      ensures Payloads(Extended(disk.Visible(), inFlight)) == base + WholeLife().published
      ensures disk.Visible() <= Extended(disk.Visible(), inFlight)
    {
      hide PositionHolds, VisibleIn, Coalesce, Payloads, Stream, Accounted;
      LifeIsAccounted();
      WholeLifeIsAccounted();
      ExtendedPayloads(disk.Visible(), inFlight);
      Associates(base, written, inFlight);
    }

    lemma NothingLost()
      requires Conserved()
      ensures Unpublished() == [] ==> Coalesce(emitted) == Coalesce(written) && Said(emitted) == Said(written)
    {
      hide Coalesce, Said;
      assert Stream(written, inFlight, pending, delta) + dropped == written + Unpublished();
      assert written + [] == written;
      CoalesceKeepsPieces(emitted);
      CoalesceKeepsPieces(written);
    }

    lemma WholeLifeIsAccounted()
      requires Accounted(ThisLife())
      ensures Accounted(WholeLife())
    {
      hide Coalesce;
      assert WholeLife().published + WholeLife().lost == ThisLife().published + ThisLife().lost;
      SameSaid(emitted, WholeLife().published, WholeLife().lost);
    }

    lemma LifeIsAccounted()
      requires Conserved()
      ensures Accounted(ThisLife())
    {
      assert written + Unpublished() == Stream(written, inFlight, pending, delta) + dropped;
      SameSaid(emitted, written, Unpublished());
    }

    constructor (disk: Disk)
      ensures this.disk == disk && !closed && !unclean && inFlight == pending == [] && delta == None
      ensures head == Head(FIRST_EVENT_SEGMENT, 0) && lastSeq == 0 && emitted == written == base == dropped == []
    {
      this.disk := disk;
      head := Head(FIRST_EVENT_SEGMENT, 0);
      lastSeq := 0;
      pending, delta, inFlight := [], None, [];
      unclean, closed := false, false;
      emitted, written, base, dropped := [], [], [], [];
    }

    method LastSeqBefore(segment: nat) returns (last: nat)
      requires segment > 0
      ensures last == LookBack(disk.segments, segment, segment - 1)
    {
      var n: int := segment - 1;
      while n >= FIRST_EVENT_SEGMENT
        invariant 0 <= n < segment
        invariant LookBack(disk.segments, segment, n) == LookBack(disk.segments, segment, segment - 1)
      {
        var last := LastSeqIn(Content(disk.segments, n));
        if last > 0 {
          return last;
        }
        if n < segment - 2 {
          break;
        }
        n := n - 1;
      }
      return 0;
    }

    /** The branch of `open` for a head that is ahead of its segment. */
    method ContinueInNewSegment() returns (o: Outcome)
      modifies this`head, this`lastSeq, disk
      ensures o.Done? ==>
        && head == Head(old(head).segment + 1, 0) && disk.head == Some(head)
        && disk.segments == old(disk.segments) - {head.segment} && lastSeq == LastLeft(old(disk.segments), old(head))
    {
      lastSeq := LastSeqIn(Content(disk.segments, head.segment));
      if lastSeq == 0 && head.segment > 0 {
        lastSeq := LastSeqBefore(head.segment);
      }
      head := Head(head.segment + 1, 0);
      o := disk.Remove(head.segment);
      if !o.Done? {
        return;
      }
      o := disk.WriteHead(head);
    }

    /** Recover the position and the last number of an earlier process. */
    method Open() returns (o: Outcome)
      requires !closed && !unclean && inFlight == pending == [] && delta == None
      requires emitted == written == base == dropped == []
      requires head == Head(FIRST_EVENT_SEGMENT, 0) && lastSeq == 0
      modifies this, disk
      ensures old(disk.Valid()) ==> disk.Valid() && disk.Visible() == old(disk.Visible())
      ensures old(disk.Valid()) && o.Done? ==> Valid() && !unclean && !closed
      ensures old(disk.Valid()) && o.Done? ==> base == Payloads(disk.Visible()) && ThisLife() == Life([], [], [])
      // A head that is ahead of its segment is abandoned: no offset a reader holds is used again.
      ensures o.Done? && old(disk.head).Some? && IsAhead(old(disk.segments), old(disk.head).value) ==>
                head == Head(old(disk.head).value.segment + 1, 0) && disk.head == Some(head)
      ensures o.Done? && old(disk.head).Some? && IsAhead(old(disk.segments), old(disk.head).value) ==>
                && disk.segments == old(disk.segments) - {head.segment}
                && lastSeq == LastLeft(old(disk.segments), old(disk.head).value)
    {
      var refused: bool := *;
      if refused {
        return Failed;
      }
      if disk.head.None? {
        EmptyLog(disk.segments);
        o := disk.Remove(FIRST_EVENT_SEGMENT);
        EmptyLog(disk.segments);
        assert Stream(written, inFlight, pending, delta) == [];
        return;
      }
      head := disk.head.value;
      assert Stream(written, inFlight, pending, delta) == [];
      var length := |Content(disk.segments, head.segment)|;
      if head.segment !in disk.segments && head.length == 0 {
        if head.segment > 0 {
          lastSeq := LastSeqBefore(head.segment);
        }
        return Done;
      }
      if length < head.length {
        o := ContinueInNewSegment();
        return;
      }
      o := RecoverPublished();
    }

    /** The rest of `open`: drop what was written but never published, and find the last number. */
    method RecoverPublished() returns (o: Outcome)
      requires disk.head == Some(head) && head.length <= |Content(disk.segments, head.segment)|
      requires Stream(written, inFlight, pending, delta) == emitted == written == dropped == [] && !unclean
      modifies this`lastSeq, this`base, disk`segments
      ensures old(disk.Valid()) ==> disk.Valid() && disk.Visible() == old(disk.Visible())
      ensures old(disk.Valid()) && o.Done? ==> Valid() && base == Payloads(disk.Visible())
    {
      ghost var segs0 := disk.segments;
      ghost var valid := disk.Valid();
      var buf := Content(disk.segments, head.segment)[..head.length];
      if |Content(disk.segments, head.segment)| > head.length {
        o := disk.Truncate(head.segment, head.length);
        if valid {
          CutKeeps(segs0, disk.segments, head);
        }
        if !o.Done? {
          return;
        }
      }
      lastSeq := LastSeqIn(buf);
      if valid {
        LastPublished(segs0, head);
      }
      if lastSeq == 0 && head.segment > 0 {
        lastSeq := LastSeqBefore(head.segment);
      }
      base := Payloads(disk.Visible());
      return Done;
    }

    // ----- In memory -----

    /** Also what the delta timer does when it fires. */
    method TakeDelta()
      requires Conserved()
      modifies this`pending, this`delta
      ensures Conserved() && delta == None
      ensures pending == old(pending) + Collected(old(delta))
    {
      StreamTakesDelta(written, inFlight, pending, delta);
      if delta.Some? {
        pending, delta := pending + [delta.value], None;
      }
    }

    method Emit(p: Payload)
      requires Conserved()
      modifies this`pending, this`delta, this`emitted
      ensures Conserved()
      ensures emitted == if closed then old(emitted) else old(emitted) + [p]
      // Any other event flushes the delta first, so order is kept.
      ensures p.Other? && !closed ==> delta == None && pending == old(pending) + Collected(old(delta)) + [p]
      ensures !p.Other? && old(delta).Some? && SameSpeaker(old(delta).value, p) ==> pending == old(pending)
      ensures !closed ==> Said(Unpublished()) == old(Said(Unpublished())) + Pieces(p)
    {
      hide Said, Pieces;
      if closed {
        return;
      }
      assert Stream(written, inFlight, pending, delta) + dropped == Stream(written, inFlight, pending, delta);
      CoalesceCongruent(emitted, Stream(written, inFlight, pending, delta), [p]);
      SaidSnoc(Unpublished(), p);
      WaitingGrows(inFlight, pending, delta, p);
      if p.Other? {
        EmitOther(p);
      } else if delta.Some? && Mergeable(delta.value, p) {
        StreamMerges(written, inFlight, pending, delta.value, p);
        SaidMerges(inFlight + pending, delta.value, p);
        delta := Some(Merge(delta.value, p));
      } else {
        StreamTakesDelta(written, inFlight, pending, delta);
        TakeDelta();
        StreamEmits(written, inFlight, pending, p);
        delta := Some(p);
      }
      emitted := emitted + [p];
      assert Stream(written, inFlight, pending, delta) + dropped == Stream(written, inFlight, pending, delta);
    }

    method EmitOther(p: Payload)
      modifies this`pending, this`delta
      ensures delta == None && pending == old(pending) + Collected(old(delta)) + [p]
      ensures Stream(written, inFlight, pending, delta) == Stream(written, inFlight, old(pending), old(delta)) + [p]
    {
      StreamTakesDelta(written, inFlight, pending, delta);
      if delta.Some? {
        pending, delta := pending + [delta.value], None;
      }
      StreamEmits(written, inFlight, pending, p);
      pending := pending + [p];
    }

    /** The first half of `writePending`: the batch is taken when it is this write's turn. */
    method StartWrite()
      requires Conserved() && inFlight == []
      modifies this`pending, this`inFlight
      ensures Conserved()
      ensures inFlight == (if closed then [] else old(pending))
      ensures pending == (if closed then old(pending) else [])
    {
      if closed {
        return;
      }
      StreamStartsWrite(written, pending, delta);
      inFlight, pending := pending, [];
    }

    method Close()
      requires Conserved()
      modifies this`closed, this`pending, this`delta, this`dropped
      ensures Conserved() && closed && pending == [] && delta == None && ThisLife() == old(ThisLife())
    {
      dropped := pending + Collected(delta) + dropped;
      closed, pending, delta := true, [], None;
      assert Stream(written, inFlight, pending, delta) + dropped ==
             old(Stream(written, inFlight, pending, delta) + dropped);
    }

    // ----- On disk -----

    /** The closure `commit` of `write`. */
    method Commit(h: Head, chunk: Bytes, ghost segs0: Segments, ghost lines: seq<Line>) returns (o: Outcome, h': Head)
      requires Building(segs0, head, disk.segments, h, chunk, lines)
      modifies disk`segments
      ensures SameUpTo(segs0, disk.segments, head)
      ensures o.Done? ==> h' == Head(h.segment, h.length + |chunk|)
      ensures o.Done? ==> Building(segs0, head, disk.segments, h', [], lines)
    {
      h' := h;
      if chunk == [] {
        assert Head(h.segment, h.length + |chunk|) == h;
        return Done, h;
      }
      var refused: bool := *;
      if refused {
        return Failed, h;
      }
      ghost var before := disk.segments;
      BuildCommit(segs0, head, before, h, chunk, lines);
      forall k: nat | k <= |chunk| ensures SameUpTo(segs0, Appended(before, h.segment, chunk[..k]), head) {
        AppendIsBeyond(segs0, head, before, h, chunk[..k]);
      }
      o := disk.Append(h.segment, chunk);
      h' := Head(h.segment, h.length + |chunk|);
    }

    /** A full segment is committed and left for a fresh one; a crash may have left that behind, unpublished. */
    method Rollover(h: Head, chunk: Bytes, ghost segs0: Segments, ghost lines: seq<Line>) returns (o: Outcome, h': Head)
      requires Building(segs0, head, disk.segments, h, chunk, lines)
      requires h.length + |chunk| > 0
      modifies disk`segments
      ensures SameUpTo(segs0, disk.segments, head)
      ensures o.Done? ==> h'.length == 0 && Building(segs0, head, disk.segments, h', [], lines)
    {
      hide Published, Decode, Whole, WithinLimit, Numbered, Trimmed, LogAt, SameUpTo, Content;
      o, h' := Commit(h, chunk, segs0, lines);
      if !o.Done? {
        return;
      }
      BuildRollover(segs0, head, disk.segments, h', lines);
      RemoveIsBeyond(segs0, head, disk.segments, h'.segment + 1);
      o := disk.Remove(h'.segment + 1);
      h' := Head(h'.segment + 1, 0);
    }

    /** The loop of `write`: the lines go to the head segment and, when it is full, to fresh ones. */
    method AppendLines(lines: seq<Line>) returns (o: Outcome, h: Head)
      requires LogAt(disk.segments, head) && Trimmed(disk.segments, head) && lines != []
      requires Numbered(Published(disk.segments, head) + lines)
      modifies disk`segments
      ensures SameUpTo(old(disk.segments), disk.segments, head)
      ensures o.Done? ==> h.length > 0 && LogAt(disk.segments, h) && Trimmed(disk.segments, h)
      ensures o.Done? ==> Published(disk.segments, h) == Published(old(disk.segments), head) + lines
    {
      ghost var segs0 := disk.segments;
      ghost var before := Published(segs0, head);
      h := head;
      var chunk: Bytes := [];
      BuildStart(segs0, head);
      assert before + lines[..0] == before;
      for i := 0 to |lines|
        invariant Building(segs0, head, disk.segments, h, chunk, before + lines[..i])
        invariant i > 0 ==> chunk != []
      {
        var l := lines[i];
        var used := h.length + |chunk|;
        if used > 0 && used + LineSize(l) > EVENT_SEGMENT_MAX_BYTES {
          o, h := Rollover(h, chunk, segs0, before + lines[..i]);
          if !o.Done? {
            return;
          }
          chunk := [];
        }
        NextLine(before, lines, i);
        BuildLine(segs0, head, disk.segments, h, chunk, before + lines[..i], l);
        chunk := chunk + Encode(l);
      }
      assert lines[..|lines|] == lines;
      o, h := Commit(h, chunk, segs0, before + lines);
      if o.Done? {
        NoChunk(disk.segments, h);
      }
    }

    /** A failed write may have appended past the published length: cut that off. */
    method Clean() returns (o: Outcome)
      requires AtDisk() && (!unclean ==> Trimmed(disk.segments, head))
      modifies this`unclean, disk`segments
      ensures AtDisk() && disk.Visible() == old(disk.Visible())
      ensures o.Done? ==> !unclean && Trimmed(disk.segments, head)
    {
      if !unclean {
        return Done;
      }
      CutHolds(disk.head, disk.segments, head, lastSeq);
      o := disk.Truncate(head.segment, head.length);
      if o.Done? {
        unclean := false;
      }
    }

    /** The head file is replaced, and with it everything in memory moves. */
    method Publish(h: Head, count: nat, ghost before: seq<Line>) returns (o: Outcome)
      requires AtDisk() && disk.Visible() == before
      requires h.length > 0 && LogAt(disk.segments, h) && |Published(disk.segments, h)| == lastSeq + count
      modifies this`head, this`lastSeq, disk`head
      ensures disk.Valid()
      ensures o.Done? ==> AtDisk() && head == h && disk.Visible() == Published(disk.segments, h)
      ensures o.Failed? ==> AtDisk() && head == old(head) && disk.Visible() == before
      ensures disk.Visible() == before || disk.Visible() == Published(disk.segments, h)
    {
      var refused: bool := *;
      if refused {
        return Failed;
      }
      o := disk.WriteHead(h);
      if o.Done? {
        head, lastSeq := h, lastSeq + count;
      }
    }

    /** `write`: number, append and publish a batch. Nothing in memory changes until head.json is written. */
    method Write(batch: seq<Payload>) returns (o: Outcome)
      requires AtDisk() && (!unclean ==> Trimmed(disk.segments, head))
      modifies this`head, this`lastSeq, this`unclean, disk
      ensures disk.Valid()
      ensures o.Done? ==> AtDisk() && !unclean && Trimmed(disk.segments, head)
      ensures o.Done? ==> disk.Visible() == Extended(old(disk.Visible()), batch)
      ensures o.Failed? ==> AtDisk() && disk.Visible() == old(disk.Visible())
      ensures disk.Visible() == old(disk.Visible()) || disk.Visible() == Extended(old(disk.Visible()), batch)
    {
      var refused: bool := *;
      if refused {
        return Failed;
      }
      o := Clean();
      if !o.Done? {
        return;
      }
      if batch == [] {
        ExtendedNothing(disk.Visible());
        return Done;
      }
      o := AppendAndPublish(batch);
    }

    method AppendAndPublish(batch: seq<Payload>) returns (o: Outcome)
      requires AtDisk() && Trimmed(disk.segments, head) && batch != []
      modifies this`head, this`lastSeq, disk
      ensures disk.Valid()
      ensures o.Done? ==> AtDisk() && Trimmed(disk.segments, head)
      ensures o.Done? ==> disk.Visible() == Extended(old(disk.Visible()), batch)
      ensures o.Failed? ==> AtDisk() && disk.Visible() == old(disk.Visible())
      ensures disk.Visible() == old(disk.Visible()) || disk.Visible() == Extended(old(disk.Visible()), batch)
    {
      ghost var segs0 := disk.segments;
      var h: Head;
      o, h := AppendBatch(batch);
      PublishedSame(segs0, disk.segments, head);
      if o.Done? {
        o := Publish(h, |batch|, Published(segs0, head));
      }
    }

    method AppendBatch(batch: seq<Payload>) returns (o: Outcome, h: Head)
      requires LogAt(disk.segments, head) && Trimmed(disk.segments, head) && batch != []
      requires lastSeq == |Published(disk.segments, head)|
      modifies disk`segments
      ensures SameUpTo(old(disk.segments), disk.segments, head)
      ensures o.Done? ==> h.length > 0 && LogAt(disk.segments, h) && Trimmed(disk.segments, h)
      ensures o.Done? ==> Published(disk.segments, h) == Extended(Published(old(disk.segments), head), batch)
    {
      hide Published, LogAt, Trimmed, SameUpTo, Numbered, NumberFrom, Extended;
      ghost var before := Published(disk.segments, head);
      var lines := NumberFrom(lastSeq + 1, batch);
      LogIsNumbered(disk.segments, head);
      NumberedOn(before, batch);
      ExtendedBy(before, batch, lines);
      o, h := AppendLines(lines);
    }

    /** The second half of `writePending`: write the batch taken by `StartWrite`; put it back if that fails. */
    method FinishWrite() returns (o: Outcome)
      requires Valid()
      modifies this`head, this`lastSeq, this`unclean, this`written, this`inFlight, this`pending, disk
      ensures disk.Valid()
      ensures !o.Crashed? ==> Valid() && inFlight == []
      ensures o.Done? ==> disk.Visible() == Extended(old(disk.Visible()), old(inFlight))
      ensures o.Done? ==> pending == old(pending)
      ensures o.Failed? ==> disk.Visible() == old(disk.Visible()) && pending == old(inFlight) + old(pending) && unclean
      // A batch becomes visible as a whole or not at all.
      ensures disk.Visible() == old(disk.Visible())
        || disk.Visible() == Extended(old(disk.Visible()), old(inFlight))
    {
      hide FilesValid, VisibleIn, Extended, Payloads, Stream, Coalesce;
      ExtendedPayloads(disk.Visible(), inFlight);
      Associates(base, written, inFlight);
      o := Write(inFlight);
      Conclude(o);
    }

    /** What `writePending` does in memory once its write has ended. */
    method Conclude(o: Outcome)
      requires Conserved()
      requires o.Done? ==> AtDisk() && !unclean && Trimmed(disk.segments, head)
      requires o.Done? ==> Payloads(disk.Visible()) == base + (written + inFlight)
      requires o.Failed? ==> AtDisk() && Payloads(disk.Visible()) == base + written
      modifies this`written, this`inFlight, this`pending, this`unclean
      ensures !o.Crashed? ==> Valid() && inFlight == []
      ensures o.Done? ==> pending == old(pending)
      ensures o.Failed? ==> pending == old(inFlight) + old(pending) && unclean
    {
      match o {
        case Done => BatchWritten();
        case Failed => PutBack();
        case Crashed =>
      }
    }

    method BatchWritten()
      requires Conserved()
      modifies this`written, this`inFlight
      ensures Conserved() && written == old(written) + old(inFlight) && inFlight == []
    {
      StreamEndsWrite(written, inFlight, pending, delta);
      written := written + inFlight;
      inFlight := [];
    }

    /** The batch of a failed write stays queued, in front of what was emitted meanwhile. */
    method PutBack()
      requires Conserved()
      modifies this`pending, this`inFlight, this`unclean
      ensures Conserved() && pending == old(inFlight) + old(pending) && inFlight == [] && unclean
    {
      StreamEndsWrite(written, inFlight, pending, delta);
      pending := inFlight + pending;
      inFlight := [];
      unclean := true;
    }
  }

  /** A published log with a batch numbered on. */
  function Extended(visible: seq<Line>, batch: seq<Payload>): seq<Line> {
    visible + NumberFrom(|visible| + 1, batch)
  }

  lemma ExtendedNothing(visible: seq<Line>)
    ensures Extended(visible, []) == visible
  {
  }

  lemma ExtendedPayloads(visible: seq<Line>, batch: seq<Payload>)
    ensures Payloads(Extended(visible, batch)) == Payloads(visible) + batch
  {
    PayloadsOfNumbered(|visible| + 1, batch);
    PayloadsConcat(visible, NumberFrom(|visible| + 1, batch));
  }

  lemma LogIsNumbered(segs: Segments, h: Head)
    requires LogAt(segs, h)
    ensures Numbered(Published(segs, h))
  {
  }

  lemma ExtendedBy(before: seq<Line>, batch: seq<Payload>, lines: seq<Line>)
    requires batch != [] && lines == NumberFrom(|before| + 1, batch)
    ensures Extended(before, batch) == before + lines && lines != []
  {
  }

  lemma NumberedOn(before: seq<Line>, batch: seq<Payload>)
    requires Numbered(before)
    ensures Numbered(before + NumberFrom(|before| + 1, batch))
  {
  }

  lemma NextLine(before: seq<Line>, lines: seq<Line>, i: nat)
    requires i < |lines| && Numbered(before + lines)
    ensures lines[i].number == |before + lines[..i]| + 1
    ensures before + lines[..i] + [lines[i]] == before + lines[..i + 1]
  {
    assert (before + lines)[|before| + i] == lines[i];
  }

  lemma CutHolds(published: Option<Head>, segs: Segments, h: Head, lastSeq: nat)
    requires PositionHolds(published, segs, h, lastSeq)
    ensures var later := CutTo(segs, h.segment, h.length);
            && PositionHolds(published, later, h, lastSeq) && Trimmed(later, h)
            && VisibleIn(published, later) == VisibleIn(published, segs)
  {
    CutKeeps(segs, CutTo(segs, h.segment, h.length), h);
  }

  lemma CutKeeps(segs: Segments, later: Segments, h: Head)
    requires LogAt(segs, h)
    requires later == segs || later == CutTo(segs, h.segment, h.length)
    ensures SameUpTo(segs, later, h) && LogAt(later, h) && Published(later, h) == Published(segs, h)
    ensures later == CutTo(segs, h.segment, h.length) ==> Trimmed(later, h)
  {
    forall n: nat | n < h.segment ensures Content(later, n) == Content(segs, n) {
    }
    PublishedSame(segs, later, h);
  }

  /** A write that the process may not survive; its batch may have been published all the same. */
  method Write(log: EventLog) returns (up: bool, ghost life: Life)
    requires log.Valid()
    modifies log, log.disk
    ensures log.disk.Valid() && old(log.disk.Visible()) <= log.disk.Visible()
    ensures up ==> log.Valid() && log.base == old(log.base)
    ensures !up ==> Accounted(life) && Payloads(log.disk.Visible()) == old(log.base) + life.published
  {
    hide FilesValid, PositionHolds, VisibleIn, Coalesce, Extended, Stream, Payloads, Accounted;
    ghost var before, whole, seen := log.ThisLife(), log.WholeLife(), log.disk.Visible();
    log.EitherLife();
    var o := log.FinishWrite();
    up := !o.Crashed?;
    life := if log.disk.Visible() == seen then before else whole;
  }

  /** One thing that may happen to a log: the process may also just die, which ends its life. */
  method Act(log: EventLog, up: bool) returns (up': bool, ghost life: Life)
    requires log.disk.Valid() && (up ==> log.Valid())
    modifies log, log.disk
    ensures log.disk.Valid() && old(log.disk.Visible()) <= log.disk.Visible()
    ensures up' ==> up && log.Valid() && log.base == old(log.base)
    ensures !up ==> log.disk.Visible() == old(log.disk.Visible())
    ensures up && !up' ==> Accounted(life) && Payloads(log.disk.Visible()) == old(log.base) + life.published
  {
    hide FilesValid, VisibleIn, Payloads, Stream, Coalesce, Said;
    var survives: bool := *;
    up' := up && survives;
    life := log.ThisLife();
    if !up' {
      if up {
        log.LifeIsAccounted();
      }
      return;
    }
    var action: int := *;
    var p: Payload := *;
    if action == 0 {
      log.TakeDelta();
    } else if action == 1 && log.inFlight == [] {
      log.StartWrite();
    } else if action == 2 {
      up', life := Write(log);
    } else if action == 3 {
      log.Close();
    } else {
      log.Emit(p);
    }
  }

  /** The lives that are over, and the one that is running, account for all that has been published. */
  ghost predicate Told(disk: Disk, log: EventLog, up: bool, initial: seq<Payload>, lives: seq<Life>)
    reads disk, log
  {
    && log.disk == disk && disk.Valid() && (forall l | l in lives :: Accounted(l))
    && if up then log.Valid() && log.base == initial + PublishedIn(lives)
       else Payloads(disk.Visible()) == initial + PublishedIn(lives)
  }

  /** Something happens to the log, or the process is started again. */
  method Step(disk: Disk, log: EventLog, up: bool, ghost initial: seq<Payload>, ghost lives: seq<Life>)
    returns (log': EventLog, up': bool, ghost lives': seq<Life>)
    requires Told(disk, log, up, initial, lives)
    modifies disk, log
    ensures Told(disk, log', up', initial, lives') && old(disk.Visible()) <= disk.Visible()
    ensures log' == log || fresh(log')
  {
    hide FilesValid, PositionHolds, VisibleIn, Coalesce, Payloads, Accounted, Stream, PublishedIn;
    ghost var life;
    log', lives' := log, lives;
    up', life := Act(log, up);
    if up && !up' {
      PublishedSnoc(lives, life);
      Associates(initial, PublishedIn(lives), life.published);
      lives' := lives + [life];
    }
    var restart: bool := *;
    if !up' && restart {
      log' := new EventLog(disk);
      var o := log'.Open();
      up' := o.Done?;
    }
  }

  /**
   Any history of a session's log: emits, delta timers firing, writes that succeed, fail or die half-way with more emits
   while they run, closes, crashes and reopens. Throughout, what readers see carries seq 1, 2, … without gap or repeat,
   every segment keeps to its limit, and what was seen stays a prefix of what is published later. What is published
   are the beginnings of what the processes emitted, one after the other, and all of it once nothing is left to write.
   */
  method History(disk: Disk, steps: nat) returns (log: EventLog, up: bool, ghost lives: seq<Life>)
    requires disk.Valid()
    modifies disk
    ensures disk.Valid() && Numbered(disk.Visible())
    ensures old(disk.Visible()) <= disk.Visible()
    ensures Payloads(disk.Visible()) == Payloads(old(disk.Visible())) + PublishedIn(lives)
    ensures forall l | l in lives :: Accounted(l)
    ensures up ==> lives != [] && lives[|lives| - 1] == log.ThisLife()
    ensures up && log.Unpublished() == [] ==> Said(log.emitted) == Said(log.written)
  {
    hide FilesValid, PositionHolds, VisibleIn, Coalesce, Payloads, Accounted, Stream, Said;
    log := new EventLog(disk);
    up, lives := false, [];
    ghost var initial := Payloads(disk.Visible());
    for i := 0 to steps
      invariant Told(disk, log, up, initial, lives) && old(disk.Visible()) <= disk.Visible()
      invariant fresh(log)
    {
      log, up, lives := Step(disk, log, up, initial, lives);
    }
    disk.IsNumbered();
    if up {
      log.EitherLife();
      log.NothingLost();
      PublishedSnoc(lives, log.ThisLife());
      Associates(initial, PublishedIn(lives), log.written);
      lives := lives + [log.ThisLife()];
    }
  }
}
