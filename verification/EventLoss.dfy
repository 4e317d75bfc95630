/**
 A disk that loses appended bytes: what `open` of ts-apps/cloud-agent/src/event-log.ts makes of a head that is ahead of
 its segment.
 */
module EventLoss {
  import opened EventBytes
  import opened EventFiles
  import opened EventLogs

  /** All but the first `kept` bytes of the head segment are gone, and some that were published among them. */
  ghost predicate Loses(segs: Segments, later: Segments, h: Head, kept: nat) {
    && kept < h.length <= |Content(segs, h.segment)|
    && Content(later, h.segment) == Content(segs, h.segment)[..kept]
    && (forall n: nat {:trigger Content(later, n)} | n < h.segment :: Content(later, n) == Content(segs, n))
  }

  /** The complete lines that are left. */
  function Left(segs: Segments, h: Head): seq<Line> {
    LinesBefore(segs, h.segment) + Decode(Content(segs, h.segment))
  }

  // ----- Lines that were torn off -----

  lemma TornLine(l: Line, rest: Bytes, kept: nat)
    requires kept < LineSize(l) && kept <= |Encode(l) + rest|
    ensures Decode((Encode(l) + rest)[..kept]) == []
  {
    var b := (Encode(l) + rest)[..kept];
    if kept > 0 {
      assert b[0] == Encode(l)[0] == Cell(l, 0);
    }
  }

  /** Cutting a file of lines leaves a beginning of the lines, not all of them. */
  lemma {:induction false} CutLines(lines: seq<Line>, kept: nat)
    requires kept < |EncodeAll(lines)|
    ensures Decode(EncodeAll(lines)[..kept]) < lines
    decreases |lines|
  {
    hide Decode;
    var first, rest := lines[0], EncodeAll(lines[1..]);
    if kept < LineSize(first) {
      TornLine(first, rest, kept);
    } else {
      CutLines(lines[1..], kept - LineSize(first));
      DecodeLine(first, rest[..kept - LineSize(first)]);
      assert EncodeAll(lines)[..kept] == Encode(first) + rest[..kept - LineSize(first)];
      assert lines == [first] + lines[1..];
    }
  }

  lemma PrefixOfLog(segs: Segments, later: Segments, h: Head, kept: nat)
    requires LogAt(segs, h) && Loses(segs, later, h, kept)
    ensures Left(later, h) < Published(segs, h)
    ensures LinesBefore(later, h.segment) == LinesBefore(segs, h.segment)
  {
    hide Decode, Numbered;
    LinesBeforeSame(segs, later, h.segment);
    var whole := Prefix(segs, h);
    assert Content(later, h.segment) == whole[..kept];
    CutLines(Decode(whole), kept);
  }

  // ----- The number `open` goes on from -----

  lemma LastOfLines(before: seq<Line>, b: Bytes)
    requires Numbered(before + Decode(b)) && Decode(b) != []
    ensures LastSeqIn(b) == |before + Decode(b)| > 0
  {
    var all := before + Decode(b);
    assert all[|all| - 1] == Decode(b)[|Decode(b)| - 1];
  }

  /** The segment before the head's holds the last line when the head segment holds none. */
  lemma LooksBack(segs: Segments, later: Segments, h: Head)
    requires LogAt(segs, h)
    requires Content(later, h.segment - 1) == Content(segs, h.segment - 1)
    ensures LookBack(later, h.segment, h.segment - 1) == |LinesBefore(segs, h.segment)|
  {
    var n := h.segment - 1;
    if n >= FIRST_EVENT_SEGMENT {
      assert SegmentValid(segs, n);
      var before := LinesBefore(segs, n);
      assert Decode(segs[n]) != [] by {
        assert EncodeAll([]) == [];
      }
      assert LinesBefore(segs, h.segment) == before + Decode(segs[n]);
      assert Numbered(before + Decode(segs[n])) by {
        var all := Published(segs, h);
        assert forall i | 0 <= i < |LinesBefore(segs, h.segment)| :: LinesBefore(segs, h.segment)[i] == all[i];
      }
      LastOfLines(before, segs[n]);
    }
  }

  /**
   `open` goes on from the last complete line that is left, so the numbers of the lines that are gone are free to be
   issued again; there is at least one. What readers see is numbered without a gap.
   */
  lemma NumbersIssuedAgain(segs: Segments, later: Segments, h: Head, kept: nat)
    requires LogAt(segs, h) && Loses(segs, later, h, kept)
    ensures LastLeft(later, h) == |Left(later, h)| < |Published(segs, h)|
    ensures Left(later, h) < Published(segs, h)
    ensures Published(later - {h.segment + 1}, Head(h.segment + 1, 0)) == Left(later, h)
    ensures Numbered(Left(later, h))
  {
    hide Decode;
    PrefixOfLog(segs, later, h, kept);
    var left := Left(later, h);
    assert forall i | 0 <= i < |left| :: left[i] == Published(segs, h)[i];
    if Decode(Content(later, h.segment)) != [] {
      LastOfLines(LinesBefore(later, h.segment), Content(later, h.segment));
    } else {
      LooksBack(segs, later, h);
    }
    SeenAfterwards(later, h);
  }

  lemma SeenAfterwards(segs: Segments, h: Head)
    requires h.segment >= FIRST_EVENT_SEGMENT
    ensures Published(segs - {h.segment + 1}, Head(h.segment + 1, 0)) == Left(segs, h)
  {
    var later, h' := segs - {h.segment + 1}, Head(h.segment + 1, 0);
    assert Prefix(later, h') == [];
    forall n: nat | n <= h.segment ensures Content(later, n) == Content(segs, n) {
    }
    LinesBeforeSame(segs, later, h.segment);
    assert LinesBefore(later, h'.segment) == LinesBefore(later, h.segment) + Decode(Content(later, h.segment));
    assert Decode([]) == [];
  }

  /** A published number is issued again by the next batch exactly when its line is gone and the batch reaches it. */
  lemma IssuedAgainIff(segs: Segments, later: Segments, h: Head, kept: nat, batch: seq<Payload>, i: nat)
    requires LogAt(segs, h) && Loses(segs, later, h, kept) && i < |Published(segs, h)|
    ensures var again := NumberFrom(LastLeft(later, h) + 1, batch);
            (exists l :: l in again && l.number == Published(segs, h)[i].number) <==>
            |Left(later, h)| <= i < |Left(later, h)| + |batch|
  {
    NumbersIssuedAgain(segs, later, h, kept);
    hide Left, LastLeft, Loses;
    var first := LastLeft(later, h) + 1;
    assert Published(segs, h)[i].number == i + 1;
    if first - 1 <= i < first - 1 + |batch| {
      assert NumberFrom(first, batch)[i + 1 - first] in NumberFrom(first, batch);
    }
  }

  /** A process that starts after such a loss goes on behind what is left, and readers see just that. */
  method Reopen(disk: Disk, ghost segs: Segments, ghost kept: nat) returns (log: EventLog, o: Outcome)
    requires disk.head.Some? && LogAt(segs, disk.head.value)
    requires Loses(segs, disk.segments, disk.head.value, kept)
    modifies disk
    ensures o.Done? ==> disk.Visible() == old(Left(disk.segments, disk.head.value))
    ensures o.Done? ==> log.lastSeq == |disk.Visible()| < |Published(segs, old(disk.head.value))|
  {
    hide LastLeft, Left;
    NumbersIssuedAgain(segs, disk.segments, disk.head.value, kept);
    log := new EventLog(disk);
    o := log.Open();
  }
}
