/**
 The tool calls of one model answer in ts-shared/legalese-agent/src/chat-service.ts: each call arrives in several
 frames, which are folded into one entry per call id.
 */
module ToolCalls {
  datatype Call = Call(callId: string, name: string, argsJson: string)

  const STATUS_UPDATE: string := "meta__post_status_update"

  /** `pendingCalls.find`, as an index. */
  function IndexOf(calls: seq<Call>, id: string): (i: nat)
    ensures i <= |calls|
    ensures i < |calls| ==> calls[i].callId == id
    ensures forall k | 0 <= k < i :: calls[k].callId != id
  {
    if calls == [] || calls[0].callId == id then 0 else 1 + IndexOf(calls[1..], id)
  }

  /** What one frame adds to an entry that is there already. */
  function Refreshed(call: Call, frame: Call): Call {
    Call(call.callId,
         if frame.name != STATUS_UPDATE && frame.name != "" then frame.name else call.name,
         if frame.argsJson != "" then frame.argsJson else call.argsJson)
  }

  // ----- What the folding means -----

  function Ids(calls: seq<Call>): (ids: seq<string>)
    ensures |ids| == |calls| && forall i | 0 <= i < |ids| :: ids[i] == calls[i].callId
  {
    if calls == [] then [] else Ids(calls[..|calls| - 1]) + [calls[|calls| - 1].callId]
  }

  /** The ids in the order in which they first appear. */
  function FirstIds(frames: seq<Call>): seq<string> {
    if frames == [] then []
    else
      var init, id := frames[..|frames| - 1], frames[|frames| - 1].callId;
      FirstIds(init) + if id in Ids(init) then [] else [id]
  }

  /** The entry that the frames with id `id` make together. */
  function Folded(frames: seq<Call>, id: string): Call {
    if frames == [] then Call(id, "", "")
    else
      var init, last := frames[..|frames| - 1], frames[|frames| - 1];
      if last.callId != id then Folded(init, id)
      else if id in Ids(init) then Refreshed(Folded(init, id), last)
      else last
  }

  /** One entry for each id, in the order of first appearance. */
  ghost predicate Collected(frames: seq<Call>, calls: seq<Call>) {
    && Ids(calls) == FirstIds(frames)
    && forall i | 0 <= i < |calls| :: calls[i] == Folded(frames, calls[i].callId)
  }

  predicate Distinct(ids: seq<string>) {
    forall i, j | 0 <= i < j < |ids| :: ids[i] != ids[j]
  }

  lemma {:induction false} FirstIdsAre(frames: seq<Call>)
    ensures Distinct(FirstIds(frames))
    ensures forall id :: id in FirstIds(frames) <==> id in Ids(frames)
  {
    if frames != [] {
      var init, last := frames[..|frames| - 1], frames[|frames| - 1];
      FirstIdsAre(init);
      assert last.callId !in Ids(init) ==> last.callId !in FirstIds(init);
    }
  }

  /** However a call's frames are spread over the answer, its id has exactly one entry. */
  lemma CollectedOnce(frames: seq<Call>, calls: seq<Call>)
    requires Collected(frames, calls)
    ensures Distinct(Ids(calls))
    ensures forall id :: id in Ids(calls) <==> id in Ids(frames)
  {
    FirstIdsAre(frames);
  }

  lemma Snoc(frames: seq<Call>, f: Call)
    ensures Ids(frames + [f]) == Ids(frames) + [f.callId]
    ensures FirstIds(frames + [f]) == FirstIds(frames) + if f.callId in Ids(frames) then [] else [f.callId]
    ensures forall id :: Folded(frames + [f], id) ==
                         if f.callId != id then Folded(frames, id)
                         else if id in Ids(frames) then Refreshed(Folded(frames, id), f)
                         else f
  {
    assert (frames + [f])[..|frames|] == frames;
  }

  /** The branch that refreshes an entry. */
  lemma KnownCall(frames: seq<Call>, calls: seq<Call>, f: Call, i: nat)
    requires Collected(frames, calls) && i == IndexOf(calls, f.callId) && i < |calls|
    ensures Collected(frames + [f], calls[i := Refreshed(calls[i], f)])
  {
    hide Refreshed, IndexOf, Folded, FirstIds;
    CollectedOnce(frames, calls);
    Snoc(frames, f);
    var next := calls[i := Refreshed(calls[i], f)];
    RefreshedId(calls[i], f);
    assert Ids(calls)[i] == f.callId;
    assert Ids(next) == Ids(calls);
    forall k | 0 <= k < |next| ensures next[k] == Folded(frames + [f], next[k].callId) {
      if k != i {
        assert Ids(calls)[k] != Ids(calls)[i];
      }
    }
  }

  lemma RefreshedId(call: Call, f: Call)
    ensures Refreshed(call, f).callId == call.callId
  {
  }

  /** The branch that adds one. */
  lemma NewCall(frames: seq<Call>, calls: seq<Call>, f: Call)
    requires Collected(frames, calls) && IndexOf(calls, f.callId) == |calls|
    ensures Collected(frames + [f], calls + [f])
  {
    hide Refreshed, IndexOf, Folded, FirstIds;
    CollectedOnce(frames, calls);
    Snoc(frames, f);
    Snoc(calls, f);
    assert f.callId !in Ids(calls) && f.callId !in Ids(frames);
    var next := calls + [f];
    forall k | 0 <= k < |next| ensures next[k] == Folded(frames + [f], next[k].callId) {
      if k < |calls| {
        assert Ids(calls)[k] in Ids(calls);
      }
    }
  }

  // ----- The entries in terms of the frames -----

  /** The first frame of `id`. */
  ghost predicate FirstAt(frames: seq<Call>, id: string, i: nat) {
    i < |frames| && frames[i].callId == id && forall k | 0 <= k < i :: frames[k].callId != id
  }

  /** The frame has arguments for `id`. */
  predicate HasArgs(f: Call, id: string) {
    f.callId == id && f.argsJson != ""
  }

  /** The frame at `i` names `id`: any name counts in its first frame, later ones only for a tool of its own. */
  ghost predicate Names(frames: seq<Call>, id: string, i: nat) {
    && i < |frames| && frames[i].callId == id && frames[i].name != ""
    && (frames[i].name != STATUS_UPDATE || FirstAt(frames, id, i))
  }

  /** The arguments are the last ones that are not empty among the frames of `id`. */
  ghost predicate ArgsAre(frames: seq<Call>, id: string, args: string) {
    && (forall i | 0 <= i < |frames| && HasArgs(frames[i], id) ::
          (forall k | i < k < |frames| :: !HasArgs(frames[k], id)) ==> args == frames[i].argsJson)
    && ((forall i | 0 <= i < |frames| :: !HasArgs(frames[i], id)) ==> args == "")
  }

  ghost predicate NameIs(frames: seq<Call>, id: string, name: string) {
    && (forall i: nat | Names(frames, id, i) && (forall k: nat | i < k :: !Names(frames, id, k)) ::
          name == frames[i].name)
    && ((forall i: nat :: !Names(frames, id, i)) ==> name == "")
  }

  lemma FirstAtSnoc(frames: seq<Call>, f: Call, id: string, i: nat)
    ensures i < |frames| ==> (FirstAt(frames + [f], id, i) <==> FirstAt(frames, id, i))
    ensures FirstAt(frames + [f], id, |frames|) <==> f.callId == id && id !in Ids(frames)
  {
    var more := frames + [f];
    assert forall k | 0 <= k < |frames| :: more[k] == frames[k];
    if id in Ids(frames) {
      var k :| 0 <= k < |Ids(frames)| && Ids(frames)[k] == id;
      assert more[k].callId == id;
    } else if f.callId == id {
      forall k | 0 <= k < |frames| ensures more[k].callId != id {
        assert Ids(frames)[k] in Ids(frames);
      }
    }
  }

  lemma NamesSnoc(frames: seq<Call>, f: Call, id: string, i: nat)
    ensures i < |frames| ==> (Names(frames + [f], id, i) <==> Names(frames, id, i))
    ensures Names(frames + [f], id, |frames|) <==>
            f.callId == id && f.name != "" && (f.name != STATUS_UPDATE || id !in Ids(frames))
  {
    FirstAtSnoc(frames, f, id, i);
    FirstAtSnoc(frames, f, id, |frames|);
    hide FirstAt;
  }

  lemma ArgsSnoc(frames: seq<Call>, f: Call, id: string, args: string)
    requires ArgsAre(frames, id, args)
    ensures ArgsAre(frames + [f], id, if HasArgs(f, id) then f.argsJson else args)
  {
    var more := frames + [f];
    assert forall k | 0 <= k < |frames| :: more[k] == frames[k];
    assert more[|frames|] == f;
    hide HasArgs;
  }

  lemma NameSnoc(frames: seq<Call>, f: Call, id: string, name: string)
    requires NameIs(frames, id, name)
    ensures NameIs(frames + [f], id, if Names(frames + [f], id, |frames|) then f.name else name)
  {
    var more := frames + [f];
    forall i: nat ensures i < |frames| ==> (Names(more, id, i) <==> Names(frames, id, i)) {
      NamesSnoc(frames, f, id, i);
    }
    assert forall i: nat | i > |frames| :: !Names(more, id, i);
    assert forall i: nat | i >= |frames| :: !Names(frames, id, i);
    assert more[|frames|] == f && forall k | 0 <= k < |frames| :: more[k] == frames[k];
    hide Names;
    if !Names(more, id, |frames|) {
      forall i: nat | Names(more, id, i) && forall k: nat | i < k :: !Names(more, id, k)
        ensures name == more[i].name
      {
        assert forall k: nat | i < k :: !Names(frames, id, k);
      }
    }
  }

  /** What the entry of an id holds. */
  lemma {:induction false} FoldedIs(frames: seq<Call>, id: string)
    ensures ArgsAre(frames, id, Folded(frames, id).argsJson)
    ensures NameIs(frames, id, Folded(frames, id).name)
    ensures id !in Ids(frames) ==> Folded(frames, id) == Call(id, "", "")
  {
    if frames != [] {
      var init, last := frames[..|frames| - 1], frames[|frames| - 1];
      assert frames == init + [last];
      FoldedIs(init, id);
      ArgsSnoc(init, last, id, Folded(init, id).argsJson);
      NameSnoc(init, last, id, Folded(init, id).name);
      NamesSnoc(init, last, id, |init|);
      hide ArgsAre, NameIs, Names;
    }
  }

  lemma {:induction false} FirstIdsInOrder(frames: seq<Call>, i: nat, j: nat, p: nat, q: nat)
    requires i < j < |FirstIds(frames)|
    requires FirstAt(frames, FirstIds(frames)[i], p) && FirstAt(frames, FirstIds(frames)[j], q)
    ensures p < q
  {
    var init, last := frames[..|frames| - 1], frames[|frames| - 1];
    assert frames == init + [last];
    FirstIdsAre(init);
    FirstAtSnoc(init, last, FirstIds(frames)[i], p);
    FirstAtSnoc(init, last, FirstIds(frames)[j], q);
    assert FirstIds(init)[i] in FirstIds(init);
    if j < |FirstIds(init)| {
      assert FirstIds(init)[j] in FirstIds(init);
      FirstIdsInOrder(init, i, j, p, q);
    }
  }

  method Collect(frames: seq<Call>) returns (pendingCalls: seq<Call>)
    ensures Collected(frames, pendingCalls) && Distinct(Ids(pendingCalls))
    ensures forall c | c in pendingCalls :: ArgsAre(frames, c.callId, c.argsJson) && NameIs(frames, c.callId, c.name)
  {
    hide Collected, ArgsAre, NameIs;
    pendingCalls := [];
    NothingCollected();
    for n := 0 to |frames|
      invariant Collected(frames[..n], pendingCalls)
    {
      var f := frames[n];
      assert frames[..n + 1] == frames[..n] + [f];
      var i := IndexOf(pendingCalls, f.callId);
      if i < |pendingCalls| {
        KnownCall(frames[..n], pendingCalls, f, i);
        pendingCalls := pendingCalls[i := Refreshed(pendingCalls[i], f)];
      } else {
        NewCall(frames[..n], pendingCalls, f);
        pendingCalls := pendingCalls + [f];
      }
    }
    assert frames[..|frames|] == frames;
    CollectedOnce(frames, pendingCalls);
    EntriesAre(frames, pendingCalls);
  }

  lemma EntriesAre(frames: seq<Call>, calls: seq<Call>)
    requires Collected(frames, calls)
    ensures forall c | c in calls :: ArgsAre(frames, c.callId, c.argsJson) && NameIs(frames, c.callId, c.name)
  {
    hide ArgsAre, NameIs;
    forall c | c in calls ensures ArgsAre(frames, c.callId, c.argsJson) && NameIs(frames, c.callId, c.name) {
      FoldedIs(frames, c.callId);
    }
  }

  lemma NothingCollected()
    ensures Collected([], [])
  {
  }
}
