/**
 `applyEdits` of ts-apps/cloud-agent/src/node-workspace.ts: replacements given by offsets into the old texts of several
 files, applied from the last one back.
 */
module Edits {
  import opened Wrappers

  datatype Edit = Edit(start: int, end: int, newText: string)

  // ----- Replacing all ranges at once -----

  /** The edits that start at `at`, in list order. */
  function At(edits: seq<Edit>, at: int): seq<Edit> {
    if edits == [] then []
    else
      var last := edits[|edits| - 1];
      At(edits[..|edits| - 1], at) + if last.start == at then [last] else []
  }

  /** What goes in at one offset: the new texts of the edits there, the last of the list first. */
  function Inserted(here: seq<Edit>): string {
    if here == [] then "" else here[|here| - 1].newText + Inserted(here[..|here| - 1])
  }

  /** Where the old text goes on after the edits at one offset. */
  function ResumesAt(here: seq<Edit>, at: int): (end: int)
    ensures end >= at
  {
    if here == [] then at
    else
      var before := ResumesAt(here[..|here| - 1], at);
      if here[|here| - 1].end > before then here[|here| - 1].end else before
  }

  /** The text from offset `at` on, every range replaced. It depends on the list only through `At`. */
  function Replaced(text: string, edits: seq<Edit>, at: nat): string
    requires at <= |text|
    decreases |text| - at
  {
    var here := At(edits, at);
    var next := ResumesAt(here, at);
    Inserted(here) +
    if at < next <= |text| then Replaced(text, edits, next)
    else if at < |text| then [text[at]] + Replaced(text, edits, at + 1)
    else ""
  }

  /** Of the edits at one offset only the first may remove text. */
  ghost predicate OnlyFirstRemoves(edits: seq<Edit>) {
    forall at: int, k: int {:trigger At(edits, at)[k]} | 0 < k < |At(edits, at)| :: At(edits, at)[k].end == at
  }

  /** Ranges within the text that do not overlap, where ranges that start together overlap unless all but the first
      are empty. */
  ghost predicate Fits(text: string, edits: seq<Edit>) {
    && (forall e | e in edits :: 0 <= e.start <= e.end <= |text|)
    && (forall e, f | e in edits && f in edits && e.start < f.start :: e.end <= f.start)
    && OnlyFirstRemoves(edits)
  }

  // ----- The edits at an offset -----

  lemma AtSnoc(edits: seq<Edit>, e: Edit, at: int)
    ensures At(edits + [e], at) == At(edits, at) + if e.start == at then [e] else []
  {
    assert (edits + [e])[..|edits|] == edits;
  }

  lemma Snoc(edits: seq<Edit>) returns (init: seq<Edit>, last: Edit)
    requires edits != []
    ensures edits == init + [last]
    ensures init == edits[..|edits| - 1] && last == edits[|edits| - 1]
  {
    init, last := edits[..|edits| - 1], edits[|edits| - 1];
  }

  lemma {:induction false} AtHas(edits: seq<Edit>, at: int, e: Edit)
    ensures e in At(edits, at) <==> e in edits && e.start == at
  {
    if edits != [] {
      var init, last := Snoc(edits);
      AtHas(init, at, e);
    }
  }

  lemma NothingAt(edits: seq<Edit>, at: int)
    requires forall e | e in edits :: e.start != at
    ensures At(edits, at) == []
  {
    if At(edits, at) != [] {
      AtHas(edits, at, At(edits, at)[0]);
      assert false;
    }
  }

  // ----- Sorting by start, last first -----

  predicate Descending(edits: seq<Edit>) {
    forall i, j | 0 <= i < j < |edits| :: edits[i].start >= edits[j].start
  }

  /** `e` goes behind everything that does not start before it. */
  function Insert(sorted: seq<Edit>, e: Edit): seq<Edit> {
    if sorted == [] || sorted[|sorted| - 1].start >= e.start then sorted + [e]
    else Insert(sorted[..|sorted| - 1], e) + [sorted[|sorted| - 1]]
  }

  /** `[...list].sort((a, b) => b.startOffset - a.startOffset)`, which keeps the order of equal starts. */
  function SortedByStart(edits: seq<Edit>): seq<Edit> {
    if edits == [] then [] else Insert(SortedByStart(edits[..|edits| - 1]), edits[|edits| - 1])
  }

  lemma DescendingSnoc(sorted: seq<Edit>, e: Edit)
    requires Descending(sorted) && forall x | x in sorted :: x.start >= e.start
    ensures Descending(sorted + [e])
  {
    assert forall i | 0 <= i < |sorted| :: sorted[i] in sorted;
  }

  lemma {:induction false} InsertDescends(sorted: seq<Edit>, e: Edit)
    requires Descending(sorted)
    ensures Descending(Insert(sorted, e))
    ensures forall x | x in Insert(sorted, e) :: x in sorted || x == e
  {
    if sorted != [] && sorted[|sorted| - 1].start < e.start {
      var init, last := Snoc(sorted);
      InsertDescends(init, e);
      DescendingSnoc(Insert(init, e), last);
    }
  }

  lemma {:induction false} InsertAt(sorted: seq<Edit>, e: Edit, at: int)
    ensures At(Insert(sorted, e), at) == At(sorted + [e], at)
  {
    hide At;
    if sorted != [] && sorted[|sorted| - 1].start < e.start {
      var init, last := Snoc(sorted);
      InsertAt(init, e, at);
      AtSnoc(Insert(init, e), last, at);
      AtSnoc(init, e, at);
      AtSnoc(init, last, at);
      AtSnoc(sorted, e, at);
    }
  }

  lemma {:induction false} SortDescends(edits: seq<Edit>)
    ensures Descending(SortedByStart(edits))
  {
    if edits != [] {
      var init, last := Snoc(edits);
      SortDescends(init);
      InsertDescends(SortedByStart(init), last);
    }
  }

  lemma {:induction false} SortKeepsAt(edits: seq<Edit>, at: int)
    ensures At(SortedByStart(edits), at) == At(edits, at)
  {
    if edits != [] {
      var init, last := Snoc(edits);
      SortKeepsAt(init, at);
      InsertAt(SortedByStart(init), last, at);
      AtSnoc(SortedByStart(init), last, at);
      AtSnoc(init, last, at);
    }
  }

  /** The lists hold the same edits, those at one offset in the same order. */
  ghost predicate SameAt(a: seq<Edit>, b: seq<Edit>) {
    forall o: int :: At(a, o) == At(b, o)
  }

  lemma SortKeepsAll(edits: seq<Edit>)
    ensures SameAt(SortedByStart(edits), edits) && SameAt(edits, SortedByStart(edits))
  {
    forall o: int ensures At(SortedByStart(edits), o) == At(edits, o) {
      SortKeepsAt(edits, o);
    }
  }

  /** Lists that agree at every offset have the same meaning. */
  lemma {:induction false} ReplacedDependsOnAt(text: string, a: seq<Edit>, b: seq<Edit>, at: nat)
    requires at <= |text| && SameAt(a, b)
    ensures Replaced(text, a, at) == Replaced(text, b, at)
    decreases |text| - at
  {
    hide At, Inserted, ResumesAt;
    var here := At(a, at);
    assert here == At(b, at);
    var next := ResumesAt(here, at);
    if at < next <= |text| {
      ReplacedDependsOnAt(text, a, b, next);
    } else if at < |text| {
      ReplacedDependsOnAt(text, a, b, at + 1);
    }
  }

  lemma FitsDependsOnAt(text: string, a: seq<Edit>, b: seq<Edit>)
    requires SameAt(a, b) && Fits(text, a)
    ensures Fits(text, b)
  {
    hide At;
    forall e | e in b ensures e in a {
      AtHas(a, e.start, e);
      AtHas(b, e.start, e);
    }
  }

  // ----- The checks of the loop -----

  /** The start of the edit applied last, or the end of the text. */
  function LimitAfter(text: string, sorted: seq<Edit>): int {
    if sorted == [] then |text| else sorted[|sorted| - 1].start
  }

  /** Each edit ends at or before the start of the one applied before it. */
  predicate Accepted(text: string, sorted: seq<Edit>) {
    sorted == [] ||
    var init, last := sorted[..|sorted| - 1], sorted[|sorted| - 1];
    Accepted(text, init) && 0 <= last.start <= last.end <= LimitAfter(text, init)
  }

  lemma {:induction false} AcceptedPrefix(text: string, sorted: seq<Edit>, n: nat)
    requires n <= |sorted| && Accepted(text, sorted)
    ensures Accepted(text, sorted[..n])
  {
    if n < |sorted| {
      var init, last := Snoc(sorted);
      AcceptedPrefix(text, init, n);
      assert init[..n] == sorted[..n];
    } else {
      assert sorted[..n] == sorted;
    }
  }

  lemma {:induction false} LimitBounds(text: string, sorted: seq<Edit>)
    requires Accepted(text, sorted)
    ensures 0 <= LimitAfter(text, sorted) <= |text|
    ensures forall e | e in sorted :: LimitAfter(text, sorted) <= e.start <= e.end <= |text|
  {
    if sorted != [] {
      var init, last := Snoc(sorted);
      LimitBounds(text, init);
    }
  }

  lemma {:induction false} AcceptedIsDisjoint(text: string, sorted: seq<Edit>)
    requires Accepted(text, sorted)
    ensures forall e, f | e in sorted && f in sorted && e.start < f.start :: e.end <= f.start
  {
    if sorted != [] {
      var init, last := Snoc(sorted);
      AcceptedIsDisjoint(text, init);
      LimitBounds(text, init);
    }
  }

  lemma {:induction false} RepeatsInsert(text: string, sorted: seq<Edit>, at: int)
    requires Accepted(text, sorted)
    ensures forall k | 0 < k < |At(sorted, at)| :: At(sorted, at)[k].end == at
  {
    if sorted != [] {
      var init, last := Snoc(sorted);
      RepeatsInsert(text, init, at);
      if last.start == at && At(init, at) != [] {
        LimitBounds(text, init);
        AtHas(init, at, At(init, at)[0]);
      }
    }
  }

  lemma AcceptedFits(text: string, sorted: seq<Edit>)
    requires Accepted(text, sorted)
    ensures Fits(text, sorted)
  {
    hide At, Accepted;
    LimitBounds(text, sorted);
    AcceptedIsDisjoint(text, sorted);
    forall at: int ensures forall k | 0 < k < |At(sorted, at)| :: At(sorted, at)[k].end == at {
      RepeatsInsert(text, sorted, at);
    }
  }

  lemma FitsPrefix(text: string, init: seq<Edit>, last: Edit)
    requires Fits(text, init + [last])
    ensures Fits(text, init)
  {
    hide At;
    assert forall e | e in init :: e in init + [last];
    forall at: int, k: int | 0 < k < |At(init, at)| ensures At(init, at)[k].end == at {
      AtSnoc(init, last, at);
      assert At(init, at)[k] == At(init + [last], at)[k];
    }
  }

  lemma LastFits(text: string, init: seq<Edit>, last: Edit)
    requires Descending(init + [last]) && Fits(text, init + [last])
    ensures Descending(init) && 0 <= last.start <= last.end <= LimitAfter(text, init)
  {
    hide At;
    assert last in init + [last];
    if init == [] {
      return;
    }
    var sorted, previous := init + [last], init[|init| - 1];
    assert forall i | 0 <= i < |init| :: sorted[i] == init[i];
    assert sorted[|init|] == last && sorted[|init| - 1] == previous;
    assert previous in sorted && previous.start >= last.start;
    if previous.start == last.start {
      AtHas(init, last.start, previous);
      AtSnoc(init, last, last.start);
      assert At(sorted, last.start)[|At(init, last.start)|] == last;
    }
  }

  lemma AcceptedSnoc(text: string, init: seq<Edit>, last: Edit)
    requires Accepted(text, init) && 0 <= last.start <= last.end <= LimitAfter(text, init)
    ensures Accepted(text, init + [last])
  {
    assert (init + [last])[..|init|] == init;
  }

  lemma {:induction false} FitsAccepted(text: string, sorted: seq<Edit>)
    requires Descending(sorted) && Fits(text, sorted)
    ensures Accepted(text, sorted)
  {
    if sorted != [] {
      hide Fits, Accepted, Descending;
      var init, last := Snoc(sorted);
      LastFits(text, init, last);
      FitsPrefix(text, init, last);
      FitsAccepted(text, init);
      AcceptedSnoc(text, init, last);
    }
  }

  // ----- The texts of the loop -----

  lemma NoEditHere(text: string, edits: seq<Edit>, at: nat)
    requires at < |text| && At(edits, at) == []
    ensures Replaced(text, edits, at) == [text[at]] + Replaced(text, edits, at + 1)
  {
    hide At;
  }

  /** Before the first edit the text is unchanged. */
  lemma {:induction false} UntouchedUpTo(text: string, edits: seq<Edit>, from: nat, to: nat)
    requires from <= to <= |text| && forall e | e in edits :: to <= e.start
    ensures Replaced(text, edits, from) == text[from..to] + Replaced(text, edits, to)
    decreases |text| - from
  {
    hide At, Replaced;
    if from < to {
      NothingAt(edits, from);
      NoEditHere(text, edits, from);
      UntouchedUpTo(text, edits, from + 1, to);
      assert text[from..to] == [text[from]] + text[from + 1..to];
    }
  }

  /** An edit that starts earlier does not matter from later offsets on. */
  lemma {:induction false} EarlierEditIsIdle(text: string, edits: seq<Edit>, e: Edit, from: nat)
    requires e.start < from <= |text|
    ensures Replaced(text, edits + [e], from) == Replaced(text, edits, from)
    decreases |text| - from
  {
    hide At, Inserted, ResumesAt;
    AtSnoc(edits, e, from);
    var here := At(edits, from);
    assert At(edits + [e], from) == here;
    var next := ResumesAt(here, from);
    if from < next <= |text| {
      EarlierEditIsIdle(text, edits, e, next);
    } else if from < |text| {
      EarlierEditIsIdle(text, edits, e, from + 1);
    }
  }

  lemma OneInserted(e: Edit, at: int)
    requires e.start == at <= e.end
    ensures Inserted([e]) == e.newText && ResumesAt([e], at) == e.end
  {
    assert [e][..0] == [];
  }

  lemma Unfold(text: string, edits: seq<Edit>, at: nat, inserted: string, next: int)
    requires at <= |text| && inserted == Inserted(At(edits, at)) && next == ResumesAt(At(edits, at), at)
    ensures Replaced(text, edits, at) == inserted +
            if at < next <= |text| then Replaced(text, edits, next)
            else if at < |text| then [text[at]] + Replaced(text, edits, at + 1)
            else ""
  {
    hide At, Inserted, ResumesAt;
  }

  /** The first edit of a text is done and the rest follows. */
  lemma EditAlone(text: string, done: seq<Edit>, e: Edit, limit: nat)
    requires 0 <= e.start <= e.end <= limit <= |text| && e.start < limit
    requires forall x | x in done :: limit <= x.start
    ensures Replaced(text, done + [e], e.start) == e.newText + (text[e.end..limit] + Replaced(text, done, limit))
  {
    hide At, Inserted, ResumesAt, Replaced;
    NothingAt(done, e.start);
    AtSnoc(done, e, e.start);
    assert At(done + [e], e.start) == [e];
    OneInserted(e, e.start);
    Unfold(text, done + [e], e.start, e.newText, e.end);
    if e.end > e.start {
      EarlierEditIsIdle(text, done, e, e.end);
    } else {
      EarlierEditIsIdle(text, done, e, e.start + 1);
      NoEditHere(text, done, e.start);
    }
    UntouchedUpTo(text, done, e.end, limit);
  }

  lemma InsertedSnoc(here: seq<Edit>, e: Edit)
    ensures Inserted(here + [e]) == e.newText + Inserted(here)
  {
    assert (here + [e])[..|here|] == here;
  }

  lemma ResumesAsBefore(here: seq<Edit>, e: Edit)
    requires e.start == e.end
    ensures ResumesAt(here + [e], e.start) == ResumesAt(here, e.start)
  {
    assert (here + [e])[..|here|] == here;
  }

  /** An insertion at the start of the edit before goes in front of it. */
  lemma EditAtSameStart(text: string, done: seq<Edit>, e: Edit)
    requires 0 <= e.start == e.end <= |text|
    ensures Replaced(text, done + [e], e.start) == e.newText + Replaced(text, done, e.start)
  {
    hide At, Inserted, ResumesAt, Replaced;
    var at := e.start;
    AtSnoc(done, e, at);
    var here := At(done, at);
    InsertedSnoc(here, e);
    ResumesAsBefore(here, e);
    var next := ResumesAt(here, at);
    Unfold(text, done, at, Inserted(here), next);
    Unfold(text, done + [e], at, e.newText + Inserted(here), next);
    if at < next <= |text| {
      EarlierEditIsIdle(text, done, e, next);
    } else if at < |text| {
      EarlierEditIsIdle(text, done, e, at + 1);
    }
    var rest := Replaced(text, done, at)[|Inserted(here)|..];
    assert Replaced(text, done, at) == Inserted(here) + rest;
    assert e.newText + (Inserted(here) + rest) == (e.newText + Inserted(here)) + rest;
  }

  /** One round of the loop. */
  lemma OneEdit(text: string, done: seq<Edit>, e: Edit, limit: int, current: string)
    requires Accepted(text, done) && limit == LimitAfter(text, done)
    requires 0 <= limit <= |text| && 0 <= e.start <= e.end <= limit
    requires current == text[..limit] + Replaced(text, done, limit)
    ensures current[..e.start] + e.newText + current[e.end..] ==
            text[..e.start] + Replaced(text, done + [e], e.start)
  {
    hide Replaced;
    LimitBounds(text, done);
    var tail := Replaced(text, done, limit);
    if e.start < limit {
      EditAlone(text, done, e, limit);
    } else {
      EditAtSameStart(text, done, e);
      assert text[e.end..limit] + tail == tail;
    }
    assert current[..e.start] == text[..e.start];
    assert current[e.end..] == text[e.end..limit] + tail;
  }

  /** When the loop is through, the whole text is replaced. */
  lemma AllDone(text: string, list: seq<Edit>, sorted: seq<Edit>, limit: int, current: string)
    requires sorted == SortedByStart(list)
    requires Accepted(text, sorted) && limit == LimitAfter(text, sorted) && 0 <= limit <= |text|
    requires current == text[..limit] + Replaced(text, sorted, limit)
    ensures Fits(text, list) && current == Replaced(text, list, 0)
  {
    hide Replaced;
    AcceptedFits(text, sorted);
    SortKeepsAll(list);
    FitsDependsOnAt(text, sorted, list);
    LimitBounds(text, sorted);
    UntouchedUpTo(text, sorted, 0, limit);
    ReplacedDependsOnAt(text, sorted, list, 0);
  }

  lemma NotAccepted(text: string, list: seq<Edit>, sorted: seq<Edit>, n: nat)
    requires sorted == SortedByStart(list) && n <= |sorted| && !Accepted(text, sorted[..n])
    ensures !Fits(text, list)
  {
    if Fits(text, list) {
      SortDescends(list);
      SortKeepsAll(list);
      FitsDependsOnAt(text, list, sorted);
      FitsAccepted(text, sorted);
      AcceptedPrefix(text, sorted, n);
      assert false;
    }
  }

  /** The new text of one file: all ranges replaced at once, or an error exactly when they do not fit. */
  method EditText(content: string, list: seq<Edit>) returns (r: Option<string>)
    ensures r == if Fits(content, list) then Some(Replaced(content, list, 0)) else None
  {
    hide Replaced, Fits;
    var text := content;
    var sorted := SortedByStart(list);
    var limit: int := |text|;
    assert content[..limit] == content;
    NoEdits(content);
    for i := 0 to |sorted|
      invariant Accepted(content, sorted[..i]) && limit == LimitAfter(content, sorted[..i])
      invariant 0 <= limit <= |content|
      invariant text == content[..limit] + Replaced(content, sorted[..i], limit)
    {
      var e := sorted[i];
      ghost var done := sorted[..i];
      assert sorted[..i + 1] == done + [e] && (done + [e])[..i] == done;
      if e.start < 0 || e.end < e.start || e.end > limit {
        NotAccepted(content, list, sorted, i + 1);
        return None;
      }
      OneEdit(content, done, e, limit, text);
      text := text[..e.start] + e.newText + text[e.end..];
      limit := e.start;
    }
    assert sorted[..|sorted|] == sorted;
    AllDone(content, list, sorted, limit, text);
    return Some(text);
  }

  lemma NoEdits(text: string)
    ensures Replaced(text, [], |text|) == ""
  {
  }

  // ----- Consequences -----

  lemma Unedited(text: string, at: nat)
    requires at <= |text|
    ensures Replaced(text, [], at) == text[at..]
  {
    hide Replaced;
    UntouchedUpTo(text, [], at, |text|);
    NoEdits(text);
    assert text[at..|text|] + "" == text[at..];
  }

  lemma NothingReplaced(text: string)
    ensures Fits(text, []) && Replaced(text, [], 0) == text
  {
    Unedited(text, 0);
    assert text[0..] == text;
  }

  predicate DistinctStarts(edits: seq<Edit>) {
    forall i, j | 0 <= i < j < |edits| :: edits[i].start != edits[j].start
  }

  lemma {:induction false} AtMostOne(edits: seq<Edit>, at: int)
    requires DistinctStarts(edits)
    ensures |At(edits, at)| <= 1
  {
    if edits != [] {
      var init, last := Snoc(edits);
      if last.start == at {
        assert forall i | 0 <= i < |init| :: init[i] == edits[i];
        NothingAt(init, at);
      } else {
        AtMostOne(init, at);
      }
    }
  }

  /** With distinct starts, the order of the list does not matter. */
  lemma OrderIsIrrelevant(text: string, a: seq<Edit>, b: seq<Edit>)
    requires DistinctStarts(a) && DistinctStarts(b) && forall e :: e in a <==> e in b
    ensures Fits(text, a) <==> Fits(text, b)
    ensures Replaced(text, a, 0) == Replaced(text, b, 0)
  {
    hide At, Fits, Replaced;
    forall o: int ensures At(a, o) == At(b, o) {
      AtMostOne(a, o);
      AtMostOne(b, o);
      if At(a, o) != [] {
        AtHas(a, o, At(a, o)[0]);
        AtHas(b, o, At(a, o)[0]);
      }
      if At(b, o) != [] {
        AtHas(a, o, At(b, o)[0]);
        AtHas(b, o, At(b, o)[0]);
      }
    }
    assert SameAt(a, b) && SameAt(b, a);
    if Fits(text, a) {
      FitsDependsOnAt(text, a, b);
    }
    if Fits(text, b) {
      FitsDependsOnAt(text, b, a);
    }
    ReplacedDependsOnAt(text, a, b, 0);
  }

  lemma InsertionAdded(text: string, done: seq<Edit>, e: Edit)
    requires 0 <= e.start == e.end <= |text| && forall d | d in done :: e.start <= d.start
    ensures Replaced(text, done + [e], 0) == text[..e.start] + (e.newText + Replaced(text, done, e.start))
  {
    hide Replaced, At, Inserted, ResumesAt;
    EditAtSameStart(text, done, e);
    UntouchedUpTo(text, done + [e], 0, e.start);
    assert text[0..e.start] == text[..e.start];
  }

  /** Two insertions at one offset come out in reverse. */
  lemma InsertionsReverse(text: string, x: Edit, y: Edit)
    requires 0 <= x.start == x.end == y.start == y.end <= |text|
    ensures Replaced(text, [x, y], 0) == text[..x.start] + (y.newText + (x.newText + text[x.start..]))
  {
    hide Replaced, At, Inserted, ResumesAt;
    var nothing: seq<Edit> := [];
    assert nothing + [x] == [x] && [x] + [y] == [x, y];
    Unedited(text, x.start);
    EditAtSameStart(text, nothing, x);
    InsertionAdded(text, [x], y);
  }

  // ----- When the order of the list matters -----

  lemma {:induction false} AtCounts(edits: seq<Edit>, at: int, e: Edit)
    ensures multiset(At(edits, at))[e] == if e.start == at then multiset(edits)[e] else 0
  {
    if edits != [] {
      var init, last := Snoc(edits);
      AtCounts(init, at, e);
    }
  }

  lemma AtPermuted(a: seq<Edit>, b: seq<Edit>, at: int)
    requires multiset(a) == multiset(b)
    ensures multiset(At(a, at)) == multiset(At(b, at))
  {
    hide At;
    forall e: Edit ensures multiset(At(a, at))[e] == multiset(At(b, at))[e] {
      AtCounts(a, at, e);
      AtCounts(b, at, e);
    }
  }

  lemma {:induction false} InsertedConcatLength(a: seq<Edit>, b: seq<Edit>)
    ensures |Inserted(a + b)| == |Inserted(b)| + |Inserted(a)|
  {
    hide Inserted;
    if b == [] {
      assert a + b == a && Inserted(b) == "" by {
        NothingInserted();
      }
    } else {
      var init, last := Snoc(b);
      InsertedConcatLength(a, init);
      assert a + b == (a + init) + [last];
      InsertedSnoc(a + init, last);
      InsertedSnoc(init, last);
    }
  }

  lemma NothingInserted()
    ensures Inserted([]) == ""
  {
  }

  lemma InsertedWithout(before: seq<Edit>, e: Edit, after: seq<Edit>)
    ensures |Inserted(before + [e] + after)| == |Inserted(before + after)| + |e.newText|
  {
    hide Inserted;
    InsertedConcatLength(before, after);
    InsertedConcatLength(before + [e], after);
    InsertedSnoc(before, e);
  }

  lemma SameElements(a: seq<Edit>, b: seq<Edit>, e: Edit)
    requires multiset(a) == multiset(b)
    ensures e in a <==> e in b
  {
    assert e in a <==> e in multiset(a);
    assert e in b <==> e in multiset(b);
  }

  /** Taking the last edit of one list out of another order of it. */
  lemma Removed(a: seq<Edit>, b: seq<Edit>, init: seq<Edit>, last: Edit) returns (before: seq<Edit>, after: seq<Edit>)
    requires multiset(a) == multiset(b) && a == init + [last]
    ensures b == before + [last] + after && multiset(init) == multiset(before + after)
  {
    SameElements(a, b, last);
    var i :| 0 <= i < |b| && b[i] == last;
    before, after := b[..i], b[i + 1..];
    assert b == before + [last] + after;
    assert multiset(b) == multiset(before + after) + multiset{last};
    assert multiset(init) == multiset(a) - multiset{last};
  }

  lemma {:induction false} InsertedLength(a: seq<Edit>, b: seq<Edit>)
    requires multiset(a) == multiset(b)
    ensures |Inserted(a)| == |Inserted(b)|
  {
    hide Inserted;
    if a == [] {
      assert |multiset(b)| == 0;
    } else {
      var init, last := Snoc(a);
      var before, after := Removed(a, b, init, last);
      InsertedLength(init, before + after);
      InsertedWithout(before, last, after);
      InsertedSnoc(init, last);
    }
  }

  lemma {:induction false} ResumesIsLargest(here: seq<Edit>, at: int)
    ensures forall e | e in here :: e.end <= ResumesAt(here, at)
    ensures ResumesAt(here, at) == at || exists e :: e in here && e.end == ResumesAt(here, at)
  {
    if here != [] {
      var init, last := Snoc(here);
      ResumesIsLargest(init, at);
    }
  }

  lemma ResumesPermuted(a: seq<Edit>, b: seq<Edit>, at: int)
    requires multiset(a) == multiset(b)
    ensures ResumesAt(a, at) == ResumesAt(b, at)
  {
    hide ResumesAt;
    ResumesIsLargest(a, at);
    ResumesIsLargest(b, at);
    forall e: Edit ensures e in a <==> e in b {
      SameElements(a, b, e);
    }
  }

  /** The lists insert the same texts from offset `from` on. */
  ghost predicate SameInserted(a: seq<Edit>, b: seq<Edit>, from: int) {
    forall o: int | o >= from :: Inserted(At(a, o)) == Inserted(At(b, o))
  }

  /** The lists insert the same texts everywhere. */
  ghost predicate InsertAlike(a: seq<Edit>, b: seq<Edit>) {
    forall at: int :: Inserted(At(a, at)) == Inserted(At(b, at))
  }

  /** Where nothing starts, the lists insert the same. */
  lemma SameInsertedFrom(a: seq<Edit>, b: seq<Edit>, at: int, next: int)
    requires at < next && forall e | e in a || e in b :: !(at < e.start < next)
    ensures SameInserted(a, b, at) <==> Inserted(At(a, at)) == Inserted(At(b, at)) && SameInserted(a, b, next)
  {
    hide At, Inserted;
    forall o: int | at < o < next ensures At(a, o) == At(b, o) == [] {
      NothingAt(a, o);
      NothingAt(b, o);
    }
  }

  /** Nothing starts within a range that is replaced. */
  lemma NothingWithin(text: string, edits: seq<Edit>, at: int, f: Edit)
    requires Fits(text, edits) && f in edits && at < f.start
    ensures ResumesAt(At(edits, at), at) <= f.start
  {
    hide At, ResumesAt;
    var next := ResumesAt(At(edits, at), at);
    ResumesIsLargest(At(edits, at), at);
    if next != at {
      var e :| e in At(edits, at) && e.end == next;
      AtHas(edits, at, e);
    }
  }

  lemma Cancel(p: string, q: string, s: string, t: string)
    requires |p| == |q|
    ensures p + s == q + t <==> p == q && s == t
  {
    if p + s == q + t {
      assert (p + s)[..|p|] == p && (q + t)[..|q|] == q;
      assert (p + s)[|p|..] == s && (q + t)[|q|..] == t;
    }
  }

  lemma {:induction false} OrderMattersFrom(text: string, a: seq<Edit>, b: seq<Edit>, at: nat)
    requires at <= |text| && Fits(text, a) && Fits(text, b) && multiset(a) == multiset(b)
    ensures Replaced(text, a, at) == Replaced(text, b, at) <==> SameInserted(a, b, at)
    decreases |text| - at
  {
    hide At, Inserted, ResumesAt, Replaced, Fits, SameInserted;
    var ha, hb := At(a, at), At(b, at);
    AtPermuted(a, b, at);
    InsertedLength(ha, hb);
    ResumesPermuted(ha, hb, at);
    var next := ResumesAt(ha, at);
    Unfold(text, a, at, Inserted(ha), next);
    Unfold(text, b, at, Inserted(hb), next);
    var later := if at < next <= |text| then next else at + 1;
    forall f | f in a || f in b ensures !(at < f.start < later) {
      if at < f.start && f in a {
        NothingWithin(text, a, at, f);
      } else if at < f.start {
        NothingWithin(text, b, at, f);
      }
    }
    SameInsertedFrom(a, b, at, later);
    if later <= |text| {
      OrderMattersFrom(text, a, b, later);
      var gap := if at < next <= |text| then "" else [text[at]];
      assert Replaced(text, a, at) == Inserted(ha) + (gap + Replaced(text, a, later));
      assert Replaced(text, b, at) == Inserted(hb) + (gap + Replaced(text, b, later));
      Cancel(gap, gap, Replaced(text, a, later), Replaced(text, b, later));
      Cancel(Inserted(ha), Inserted(hb), gap + Replaced(text, a, later), gap + Replaced(text, b, later));
    } else {
      BehindTheText(text, a, b);
      Cancel(Inserted(ha), Inserted(hb), "", "");
    }
  }

  lemma BehindTheText(text: string, a: seq<Edit>, b: seq<Edit>)
    requires Fits(text, a) && Fits(text, b)
    ensures SameInserted(a, b, |text| + 1)
    ensures SameInserted(a, b, 0) <==> InsertAlike(a, b)
  {
    forall o: int | o < 0 || o > |text| ensures At(a, o) == At(b, o) == [] {
      NothingAt(a, o);
      NothingAt(b, o);
    }
  }

  /**
   Two orders of the same edits, both applicable, give the same text exactly when at every offset the new texts there,
   the last of the list first, join to the same.
   */
  lemma OrderMatters(text: string, a: seq<Edit>, b: seq<Edit>)
    requires Fits(text, a) && Fits(text, b) && multiset(a) == multiset(b)
    ensures Replaced(text, a, 0) == Replaced(text, b, 0) <==> InsertAlike(a, b)
  {
    hide At, Inserted, Replaced, Fits;
    OrderMattersFrom(text, a, b, 0);
    BehindTheText(text, a, b);
  }

  /** One order is applicable and another is not exactly when something that removes text comes second somewhere. */
  lemma OrderRejected(text: string, a: seq<Edit>, b: seq<Edit>)
    requires Fits(text, a) && multiset(a) == multiset(b)
    ensures Fits(text, b) <==> OnlyFirstRemoves(b)
  {
    forall e: Edit ensures e in a <==> e in b {
      SameElements(a, b, e);
    }
    assert forall e | e in b :: 0 <= e.start <= e.end <= |text|;
    assert forall e, f | e in b && f in b && e.start < f.start :: e.end <= f.start;
  }

  lemma AtOfTwo(x: Edit, y: Edit, at: int)
    ensures At([x, y], at) == (if x.start == at then [x] else []) + if y.start == at then [y] else []
  {
    var nothing: seq<Edit> := [];
    assert nothing + [x] == [x] && [x] + [y] == [x, y];
    AtSnoc(nothing, x, at);
    AtSnoc([x], y, at);
  }

  lemma InsertedOfTwo(x: Edit, y: Edit)
    ensures Inserted([x, y]) == y.newText + x.newText
  {
    OneInserted(x.(end := x.start), x.start);
    assert [x, y][..1] == [x] && [x][..0] == [];
  }

  /** Two insertions at one offset can change places exactly when their texts commute. */
  lemma InsertionsCommute(text: string, x: Edit, y: Edit)
    requires 0 <= x.start == x.end == y.start == y.end <= |text|
    ensures Fits(text, [x, y])
    ensures Replaced(text, [x, y], 0) == Replaced(text, [y, x], 0) <==>
            x.newText + y.newText == y.newText + x.newText
  {
    hide Replaced, Fits, At, Inserted;
    TwoInsertionsFit(text, x, y);
    TwoInsertionsFit(text, y, x);
    assert multiset([x, y]) == multiset([y, x]);
    OrderMatters(text, [x, y], [y, x]);
    SwappedAt(x, y);
  }

  lemma SwappedAt(x: Edit, y: Edit)
    requires x.start == y.start
    ensures InsertAlike([x, y], [y, x]) <==> x.newText + y.newText == y.newText + x.newText
  {
    hide At, Inserted;
    forall at: int ensures At([x, y], at) == if at == x.start then [x, y] else [] {
      AtOfTwo(x, y, at);
    }
    forall at: int ensures At([y, x], at) == if at == x.start then [y, x] else [] {
      AtOfTwo(y, x, at);
    }
    InsertedOfTwo(x, y);
    InsertedOfTwo(y, x);
    assert At([x, y], x.start) == [x, y];
  }

  lemma TwoInsertionsFit(text: string, x: Edit, y: Edit)
    requires 0 <= x.start == x.end == y.start == y.end <= |text|
    ensures Fits(text, [x, y])
  {
    hide At;
    forall at: int, k: int | 0 < k < |At([x, y], at)| ensures At([x, y], at)[k].end == at {
      AtOfTwo(x, y, at);
    }
  }

  /** An insertion and a replacement at one offset: applicable with the replacement listed first, rejected otherwise. */
  lemma ReplacementComesFirst(text: string, insertion: Edit, replacement: Edit)
    requires 0 <= insertion.start == insertion.end == replacement.start < replacement.end <= |text|
    ensures Fits(text, [replacement, insertion]) && !Fits(text, [insertion, replacement])
  {
    hide At;
    var at := insertion.start;
    AtOfTwo(insertion, replacement, at);
    assert At([insertion, replacement], at)[1] == replacement;
    forall o: int, k: int | 0 < k < |At([replacement, insertion], o)|
      ensures At([replacement, insertion], o)[k].end == o
    {
      AtOfTwo(replacement, insertion, o);
    }
  }
}
