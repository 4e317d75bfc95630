/**
 One turn of ts-shared/legalese-agent/src/chat-service.ts: `start` with its sub-turns and tool rounds, and the
 messages that `inject` queues while it runs. At every `await` the environment may queue messages or ask to stop.
 */
module ChatTurns {
  import opened Wrappers
  import opened ToolCalls
  import opened ChatHistory

  class Turn {
    const st: Setting

    var active: bool
    var aborted: bool
    var queue: seq<Injected>
    /** How many requests were sent, and how often the turn has waited. */
    var asked: nat
    var waited: nat

    /** What `inject` has queued and what `queue-consumed` has announced, the latter after the wait `drainedAt`. */
    ghost var accepted: seq<Injected>
    ghost var consumed: seq<Injected>
    ghost var drainedAt: nat
    ghost var rounds: seq<Round>
    /** The context could not be assembled. */
    ghost var unassembled: bool

    /** The queue holds what has arrived since it was last drained. */
    ghost predicate Queued()
      reads this`active, this`aborted, this`queue, this`waited, this`accepted, this`consumed, this`drainedAt
    {
      && (if active then accepted == consumed + queue else queue == [])
      && drainedAt <= waited
      && accepted == MessagesUpTo(st.arrivals, waited) && consumed == MessagesUpTo(st.arrivals, drainedAt)
      && aborted == StoppedUpTo(st.arrivals, waited)
    }

    ghost predicate Recorded()
      reads this`asked, this`rounds
    {
      asked == |rounds| && History(st, rounds) && ContextIsPlain(st.context)
    }

    constructor (st: Setting)
      requires ContextIsPlain(st.context)
      ensures this.st == st && !active
      ensures Queued() && Recorded() && waited == 0 && rounds == [] && !unassembled
    {
      this.st := st;
      active, aborted, queue, asked, waited := false, false, [], 0, 0;
      accepted, consumed, drainedAt, rounds, unassembled := [], [], 0, [], false;
    }

    /** A message for a turn that is not active is dropped. */
    method Inject(m: Injected)
      modifies this`queue, this`accepted
      ensures accepted == if active then old(accepted) + [m] else old(accepted)
      ensures queue == if active then old(queue) + [m] else old(queue)
    {
      if !active {
        return;
      }
      queue := queue + [m];
      accepted := accepted + [m];
    }

    /** What happens while the pipeline waits. */
    method Await()
      requires Queued() && active
      modifies this`queue, this`accepted, this`aborted, this`waited
      ensures Queued() && old(queue) <= queue && waited == old(waited) + 1 && (old(aborted) ==> aborted)
    {
      var arrival := ArrivalAt(st.arrivals, waited);
      for i := 0 to |arrival.messages|
        invariant queue == old(queue) + arrival.messages[..i]
        invariant accepted == old(accepted) + arrival.messages[..i]
        invariant aborted == old(aborted) && waited == old(waited)
      {
        Inject(arrival.messages[i]);
        assert arrival.messages[..i + 1] == arrival.messages[..i] + [arrival.messages[i]];
      }
      assert arrival.messages[..|arrival.messages|] == arrival.messages;
      aborted := aborted || arrival.stop;
      waited := waited + 1;
    }

    /** What comes of the answer to request `n`. */
    method ReadAnswer(n: nat) returns (answer: Option<(Finish, seq<Call>)>)
      ensures OutcomeFor(st.script, n, OutcomeOf(answer))
      ensures answer.Some? ==> n < |st.script| && Distinct(Ids(answer.value.1))
    {
      hide Collected;
      if n >= |st.script| || st.script[n].Threw? {
        return None;
      }
      if st.script[n].finish == Errored {
        NoDuplicates();
        return Some((Errored, []));
      }
      var pendingCalls := Collect(st.script[n].frames);
      return Some((st.script[n].finish, pendingCalls));
    }

    lemma NoDuplicates()
      ensures Distinct(Ids([]))
    {
    }

    /** One request and its answer. */
    method RunStreamIteration(messages: seq<Message>, ghost calls: seq<Call>, ghost carried: seq<Injected>)
      returns (answer: Option<(Finish, seq<Call>)>)
      requires Queued() && Recorded() && active && MayGoOn(st, rounds) && calls == NextCalls(rounds)
      requires Follows(st, rounds, Request(calls, carried, queue, messages))
      modifies this`queue, this`accepted, this`aborted, this`waited, this`asked, this`rounds
      ensures Queued() && Recorded() && old(queue) <= queue && waited > old(waited)
      ensures rounds ==
              old(rounds) + [Round(Request(calls, carried, old(queue), messages), OutcomeOf(answer), waited)]
      ensures NextCalls(rounds) == CallsAfter(OutcomeOf(answer)) && Carried(rounds) == Carried(old(rounds)) + carried
      ensures asked == old(asked) + 1 && (answer.Some? ==> asked <= |st.script| && Distinct(Ids(answer.value.1)))
    {
      hide History, OutcomeFor, OutcomeOf, Follows, Distinct, NextCalls, MayGoOn, MessagesUpTo, StoppedUpTo, Carried;
      ghost var request := Request(calls, carried, queue, messages);
      Await();
      answer := ReadAnswer(asked);
      ghost var round := Round(request, OutcomeOf(answer), waited);
      HistorySnoc(st, rounds, round);
      CarriedSnoc(rounds, round);
      asked := asked + 1;
      rounds := rounds + [round];
    }

    /** Each call is run; the results come back in call order. */
    method RunCalls(calls: seq<Call>) returns (results: Option<seq<Message>>)
      requires Queued() && active
      modifies this`queue, this`accepted, this`aborted, this`waited
      ensures Queued() && old(queue) <= queue && waited >= old(waited)
      ensures results.Some? <==> forall n: nat | old(waited) <= n < old(waited) + |calls| :: st.tools(n).Some?
      ensures results.Some? ==> results.value == ResultsOf(st, calls, old(waited)) && waited == old(waited) + |calls|
    {
      var toolMessages: seq<Message> := [];
      for i := 0 to |calls|
        invariant Queued() && old(queue) <= queue && waited == old(waited) + i && |toolMessages| == i
        invariant forall n: nat | old(waited) <= n < old(waited) + i :: st.tools(n).Some?
        invariant toolMessages == ResultsOf(st, calls, old(waited))[..i]
      {
        var result := st.tools(waited);
        Await();
        if result.None? {
          return None;
        }
        toolMessages := toolMessages + [Tool(calls[i].callId, calls[i].name, result.value)];
      }
      return Some(toolMessages);
    }

    /** The calls of the last answer are run, unless one throws or the turn is stopped. */
    method RunRound(pendingCalls: seq<Call>) returns (end: Option<End>, results: seq<Message>)
      requires Queued() && active && rounds != [] && pendingCalls != []
      requires rounds[|rounds| - 1].outcome == Ended(CallsTools, pendingCalls) && rounds[|rounds| - 1].readAt == waited
      modifies this`queue, this`accepted, this`aborted, this`waited
      ensures Queued() && old(queue) <= queue && waited >= old(waited)
      ensures end.Some? ==> EndsFor(st, rounds, aborted, end.value)
      ensures end.None? <==> MayGoOn(st, rounds)
      ensures end.None? ==> results == ResultsAfter(st, rounds)
    {
      hide MessagesUpTo, StoppedUpTo;
      ghost var last := rounds[|rounds| - 1];
      var r := RunCalls(pendingCalls);
      assert r.Some? <==> ToolsRun(st, last);
      if r.None? {
        return Some(if aborted then StoppedByUser else Failed), [];
      }
      assert aborted <==> StoppedInRound(st, last);
      if aborted {
        Await();
        return Some(StoppedByUser), [];
      }
      return None, r.value;
    }

    /** What a sub-turn promises: it ends the turn for a reason of its last answer, or with the results still to
        send. */
    ghost predicate SubTurnEnds(end: Option<End>, leftover: seq<Message>)
      reads this`rounds, this`aborted, this`queue
    {
      match end
      case Some(e) => EndsFor(st, rounds, aborted, e)
      case None =>
        && MayGoOn(st, rounds) && NudgeAfter(st, rounds).None? && leftover == ResultsAfter(st, rounds)
        && Distinct(Ids(NextCalls(rounds))) && (NextCalls(rounds) != [] ==> queue != [])
    }

    /** The queue is empty exactly when the requests have brought everything that has arrived. */
    lemma QueueShows()
      requires Queued() && active && consumed == Carried(rounds) && rounds != []
      requires rounds[|rounds| - 1].readAt == waited
      ensures queue == [] <==> MessagesUpTo(st.arrivals, rounds[|rounds| - 1].readAt) == Carried(rounds)
    {
    }

    lemma NoNudge()
      requires rounds != [] && !(rounds[|rounds| - 1].outcome.Ended? && rounds[|rounds| - 1].outcome.finish == Stopped)
      ensures NudgeAfter(st, rounds).None?
    {
    }

    /**
     What follows an answer: the sub-turn is over, or another request goes out, with what is to be fixed after a clean
     stop, or with the results of the calls when nobody has said anything.
     */
    method AfterAnswer(answer: Option<(Finish, seq<Call>)>)
      returns (over: bool, end: Option<End>, messages: seq<Message>)
      requires Queued() && active && rounds != [] && consumed == Carried(rounds)
      requires rounds[|rounds| - 1].outcome == OutcomeOf(answer) && (answer.Some? ==> Distinct(Ids(answer.value.1)))
      requires rounds[|rounds| - 1].readAt == waited
      modifies this`queue, this`accepted, this`aborted, this`waited
      ensures Queued() && old(queue) <= queue && waited >= old(waited)
      ensures over ==> SubTurnEnds(end, messages) && (end.None? ==> answer.Some?)
      ensures !over ==> answer.Some? && MayGoOn(st, rounds)
      ensures !over ==> Follows(st, rounds, Request(NextCalls(rounds), [], queue, messages))
    {
      hide MessagesUpTo, StoppedUpTo, EndsFor, Distinct, Queued, Carried, JoinedTexts;
      NoDuplicates();
      QueueShows();
      over, messages := true, [];
      if answer.None? {
        end := Some(if aborted then StoppedByUser else Failed);
        AnswerEnds(st, rounds, aborted, end.value);
        return;
      }
      var (finish, pendingCalls) := answer.value;
      if finish == Stopped && queue == [] {
        var nudge := st.nudges(waited);
        Await();
        if nudge.Some? {
          over, end, messages := false, None, [User(nudge.value)];
          return;
        }
      }
      if finish != CallsTools {
        Await();
        end := EndOf(finish);
        if end.Some? {
          AnswerEnds(st, rounds, aborted, end.value);
        }
        return;
      }
      if pendingCalls == [] {
        end := Some(NoCallsCame);
        AnswerEnds(st, rounds, aborted, NoCallsCame);
        return;
      }
      end, messages := RunRound(pendingCalls);
      NoNudge();
      if end.None? {
        if queue != [] {
          Await();
        } else {
          over := false;
        }
      }
    }

    /** Tool rounds until the model stops, the user says something, or the turn ends. */
    method RunSubTurn(first: seq<Message>, ghost carried: seq<Injected>)
      returns (end: Option<End>, leftover: seq<Message>)
      requires Queued() && Recorded() && active && MayGoOn(st, rounds) && consumed == Carried(rounds) + carried
      requires Follows(st, rounds, Request(NextCalls(rounds), carried, queue, first))
      modifies this`queue, this`accepted, this`aborted, this`waited, this`asked, this`rounds
      ensures Queued() && Recorded() && old(queue) <= queue && waited > old(waited)
      ensures old(rounds) < rounds && consumed == Carried(rounds)
      ensures rounds[|old(rounds)|].request == Request(NextCalls(old(rounds)), carried, old(queue), first)
      ensures SubTurnEnds(end, leftover)
      ensures end.None? ==> old(asked) < asked <= |st.script|
    {
      hide Follows, History, MessagesUpTo, StoppedUpTo, Distinct, Queued, Recorded, SubTurnEnds, Carried, MayGoOn;
      ghost var before := rounds;
      ghost var opening := Request(NextCalls(rounds), carried, queue, first);
      ghost var pending := carried;
      var nextMessages := first;
      while true
        invariant Queued() && Recorded() && MayGoOn(st, rounds) && consumed == Carried(rounds) + pending
        invariant old(queue) <= queue && waited >= old(waited) && asked >= old(asked)
        invariant Follows(st, rounds, Request(NextCalls(rounds), pending, queue, nextMessages))
        invariant if rounds == before then Request(NextCalls(rounds), pending, queue, nextMessages) == opening
                  else before < rounds && rounds[|before|].request == opening && pending == [] && waited > old(waited)
        decreases if asked <= |st.script| then |st.script| - asked else 0
      {
        var answer := RunStreamIteration(nextMessages, NextCalls(rounds), pending);
        pending := [];
        assert Carried(rounds) + pending == Carried(rounds);
        var over;
        over, end, nextMessages := AfterAnswer(answer);
        if over {
          return end, nextMessages;
        }
      }
    }

    /** `queue.splice(0, queue.length)` and `queue-consumed`. */
    method Drain() returns (drained: seq<Injected>)
      requires Queued() && active
      modifies this`queue, this`consumed, this`drainedAt
      ensures Queued() && queue == [] && drained == old(queue) && consumed == old(consumed) + drained
      ensures drainedAt == waited
    {
      drained := queue;
      queue := [];
      consumed := consumed + drained;
      drainedAt := waited;
    }

    /** The context, then the user's text unless the first request only continues the conversation. */
    method AssembleMessages(text: string, isFirst: bool) returns (messages: Option<seq<Message>>)
      requires Queued() && active
      modifies this`queue, this`accepted, this`aborted, this`waited
      ensures Queued() && old(queue) <= queue && drainedAt < waited
      ensures var context := st.context(text, isFirst);
              messages == if context.None? then None
                          else Some(context.value + if isFirst && st.continueTurn then [] else [User(text)])
    {
      var context := st.context(text, isFirst);
      Await();
      if context.None? {
        return None;
      }
      return Some(context.value + if isFirst && st.continueTurn then [] else [User(text)]);
    }

    /** What holds when a turn is about to assemble its next request, with the text of what was drained. */
    ghost predicate Ready(activeText: string, prepended: seq<Message>, drained: seq<Injected>)
      reads this
    {
      && Queued() && Recorded() && active && !unassembled && MayGoOn(st, rounds) && NudgeAfter(st, rounds).None?
      && prepended == ResultsAfter(st, rounds) && Distinct(Ids(NextCalls(rounds)))
      && consumed == Carried(rounds) + drained
      && if rounds == [] then drained == [] && activeText == st.text
         else drained != [] && activeText == JoinedTexts(drained)
    }

    /** The assembled messages may go out behind what is left to send. */
    lemma SubTurnFollows(activeText: string, prepended: seq<Message>, drained: seq<Injected>, assembled: seq<Message>)
      requires Ready(activeText, prepended, drained) && Assembled(st, rounds, drained) == Some(assembled)
      ensures Follows(st, rounds, Request(NextCalls(rounds), drained, queue, prepended + assembled))
    {
      hide MessagesUpTo, StoppedUpTo, Carried, JoinedTexts, Distinct, History;
    }

    /** What holds when it has come to an end. */
    ghost predicate Over(end: End)
      reads this
    {
      && Queued() && Recorded() && active && drainedAt < waited
      && Explained(st, rounds, consumed, unassembled, aborted, end) && (end == Finished ==> queue == [])
      && Carried(rounds) <= consumed && (!unassembled ==> rounds != [] && Carried(rounds) == consumed)
    }

    /** A sub-turn has run: either the turn is over, or the queue is drained for the next one. */
    method AfterSubTurn(stopped: Option<End>, leftover: seq<Message>)
      returns (end: Option<End>, activeText: string, ghost drained: seq<Injected>)
      requires Queued() && Recorded() && active && !unassembled && rounds != [] && drainedAt < waited
      requires consumed == Carried(rounds) && SubTurnEnds(stopped, leftover)
      modifies this`queue, this`consumed, this`drainedAt
      ensures end.Some? ==> Over(end.value)
      ensures end.None? ==> stopped.None? && Ready(activeText, leftover, drained)
      // The turn goes on exactly when somebody has said something.
      ensures stopped.None? ==> (end.None? <==> old(queue) != [])
    {
      hide JoinedTexts, Carried, History, MessagesUpTo, StoppedUpTo, EndsFor, Explained, MayGoOn, NudgeAfter, Distinct;
      drained, activeText := [], "";
      if stopped.Some? {
        SubTurnExplains(st, rounds, consumed, aborted, stopped.value);
        return stopped, activeText, drained;
      }
      if queue == [] {
        FinishedExplains(st, rounds, consumed, aborted);
        return Some(Finished), activeText, drained;
      }
      var next := Drain();
      return None, JoinedTexts(next), next;
    }

    lemma AssemblyFailed(activeText: string, prepended: seq<Message>, drained: seq<Injected>)
      requires Ready(activeText, prepended, drained) && Assembled(st, rounds, drained).None?
      ensures Explained(st, rounds, consumed, true, aborted, Failed) && Carried(rounds) <= consumed
    {
      hide MessagesUpTo, StoppedUpTo, Carried, JoinedTexts, Distinct, History, MayGoOn;
      assert consumed[|Carried(rounds)|..] == drained;
      AssemblyExplains(st, rounds, consumed, aborted);
    }

    /** The loop over sub-turns. */
    method RunSubTurns() returns (end: End)
      requires Ready(st.text, [], []) && rounds == []
      modifies this
      ensures Over(end)
    {
      hide JoinedTexts, Carried, History, MessagesUpTo, StoppedUpTo, Explained, MayGoOn, NudgeAfter, Distinct, Follows,
        EndsFor;
      var isFirst := true;
      var activeText := st.text;
      var prepended: seq<Message> := [];
      ghost var drained: seq<Injected> := [];
      while true
        invariant Ready(activeText, prepended, drained)
        invariant isFirst <==> rounds == []
        decreases if asked <= |st.script| then |st.script| - asked else 0
      {
        var assembled := AssembleMessages(activeText, isFirst);
        if assembled.None? {
          AssemblyFailed(activeText, prepended, drained);
          unassembled := true;
          return Failed;
        }
        Await();
        SubTurnFollows(activeText, prepended, drained, assembled.value);
        var stopped, leftover := RunSubTurn(prepended + assembled.value, drained);
        ghost var next;
        var over;
        over, activeText, next := AfterSubTurn(stopped, leftover);
        if over.Some? {
          return over.value;
        }
        prepended, isFirst := leftover, false;
        drained := next;
      }
    }

    /**
     The whole pipeline. Every request is the one that may follow, and `end` is the one that the last answer and what
     went wrong call for. Messages are announced and sent in the order they came, each once; those that came after the
     last drain are dropped, which happens exactly when some came then and the turn did not finish normally.
     */
    method Start() returns (end: End)
      requires Queued() && Recorded() && !active && waited == 0 && rounds == [] && !unassembled
      modifies this
      ensures Queued() && Recorded() && !active && drainedAt < waited
      ensures Explained(st, rounds, consumed, unassembled, aborted, end)
      ensures Carried(rounds) <= consumed <= accepted
      ensures !unassembled ==> rounds != [] && Carried(rounds) == consumed
      ensures consumed != accepted <==> end != Finished && !QuietBetween(st.arrivals, drainedAt, waited)
      ensures forall i | 0 <= i < |rounds| :: Brings(rounds[i].request)
    {
      hide Brings, Carried, History, MessagesUpTo, StoppedUpTo, ArrivalAt, ContextIsPlain, Explained, ResultsAfter,
        NudgeAfter, MayGoOn;
      NothingHappened(st);
      NoDuplicates();
      active, aborted, queue := true, false, [];
      end := RunSubTurns();
      MessagesGrow(st.arrivals, drainedAt, waited);
      active, queue := false, [];
      forall i | 0 <= i < |rounds| ensures Brings(rounds[i].request) {
        EveryRoundIsAnswered(st, rounds, i);
      }
    }
  }

  /**
   An answer that asks for tools but names none loses what has been queued, whatever it is and whoever assembles the
   context: the turn is over, though neither stopped nor failed nor cut short.
   */
  method LosesAMessage(m: Injected, text: string, context: (string, bool) -> Option<seq<Message>>)
    returns (turn: Turn, end: End)
    requires ContextIsPlain(context) && context(text, true).Some?
    ensures end == NoCallsCame && turn.accepted == [m] && turn.consumed == [] && !turn.aborted
  {
    var nothing: nat -> Option<string> := n => None;
    var st := Setting(text, false, context, [Streamed([], CallsTools)], [Arrival([m], false)], nothing, nothing);
    turn := new Turn(st);
    end := turn.Start();
    OnlyArrival(st.arrivals, m, turn.waited);
    assert !turn.unassembled;
    OneEmptyRound(st, turn.rounds);
  }

  lemma {:induction false} OnlyArrival(arrivals: seq<Arrival>, m: Injected, n: nat)
    requires arrivals == [Arrival([m], false)] && n > 0
    ensures MessagesUpTo(arrivals, n) == [m] && !StoppedUpTo(arrivals, n)
  {
    if n > 1 {
      OnlyArrival(arrivals, m, n - 1);
    }
  }

  lemma OneEmptyRound(st: Setting, rounds: seq<Round>)
    requires st.script == [Streamed([], CallsTools)] && ContextIsPlain(st.context)
    requires History(st, rounds) && rounds != []
    ensures |rounds| == 1 && rounds[0].outcome == Ended(CallsTools, [])
    ensures Carried(rounds) == []
  {
    EveryRoundIsAnswered(st, rounds, 0);
    FinalIsLast(st, rounds, 0);
    NoRoundsCarryNothing();
    assert rounds == [] + [rounds[0]] && rounds[..0] == [];
    CarriedSnoc([], rounds[0]);
  }

  lemma NoRoundsCarryNothing()
    ensures Carried([]) == []
  {
  }
}
