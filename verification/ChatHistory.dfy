/**
 What a turn of ts-shared/legalese-agent/src/chat-service.ts leaves behind: requests, the answers to them, messages that
 arrive while it waits, and how it ends.
 */
module ChatHistory {
  import opened Wrappers
  import opened ToolCalls

  datatype Message = User(text: string) | System(text: string) | Tool(callId: string, name: string, content: string)

  datatype Injected = Injected(injectionId: string, text: string)

  /** `CutShort` stands for every other reason the service may give: a length cap, a content filter, or another. */
  datatype Finish = Stopped | CallsTools | Aborted | Errored | CutShort

  /** What the service does with one request: a stream that ends, or a thrown error. */
  datatype Answer = Streamed(frames: seq<Call>, finish: Finish) | Threw

  /** What an answer comes to: its finish and the calls collected from its frames. */
  datatype Outcome = Broke | Ended(finish: Finish, calls: seq<Call>)

  /** How a turn ends; `Capped` is the end behind an answer that was `CutShort`, whatever the reason. */
  datatype End = Finished | StoppedByUser | Failed | Capped | NoCallsCame

  /**
   A request, with the calls of the tool round it follows, the queued messages it brings, and those that are still
   queued when it is sent.
   */
  datatype Request = Request(calls: seq<Call>, carried: seq<Injected>, waiting: seq<Injected>, messages: seq<Message>)

  /** A request, what its answer came to, and the wait after which the answer had been read. */
  datatype Round = Round(request: Request, outcome: Outcome, readAt: nat)

  // ----- Requests -----

  predicate ResultOf(m: Message, c: Call) {
    m.Tool? && m.callId == c.callId && m.name == c.name
  }

  /** One result for each call, in call order, and none behind them. */
  ghost predicate Answers(calls: seq<Call>, messages: seq<Message>) {
    && |calls| <= |messages|
    && (forall i | 0 <= i < |calls| :: ResultOf(messages[i], calls[i]))
    && (forall i | |calls| <= i < |messages| :: !messages[i].Tool?)
  }

  predicate StandsAt(text: string, part: string, at: nat) {
    at + |part| <= |text| && text[at..at + |part|] == part
  }

  /** `text` is made of `parts`, which stand at `starts`, with a blank line between neighbours and nothing else. */
  ghost predicate JoinedAt(text: string, parts: seq<string>, starts: seq<nat>) {
    && |starts| == |parts|
    && (if parts == [] then text == ""
        else starts[0] == 0 && starts[|parts| - 1] + |parts[|parts| - 1]| == |text|)
    && (forall i | 0 <= i < |parts| :: StandsAt(text, parts[i], starts[i]))
    && (forall i | 0 <= i < |parts| - 1 ::
          starts[i + 1] == starts[i] + |parts[i]| + 2 && StandsAt(text, "\n\n", starts[i] + |parts[i]|))
  }

  ghost predicate Joins(text: string, parts: seq<string>) {
    exists starts :: JoinedAt(text, parts, starts)
  }

  /** The texts that are not empty, in order. */
  function NonEmptyTexts(messages: seq<Injected>): seq<string> {
    if messages == [] then []
    else
      var last := messages[|messages| - 1].text;
      NonEmptyTexts(messages[..|messages| - 1]) + if last == "" then [] else [last]
  }

  /** The last message is the texts of the queued messages it brings, in order, each once. */
  ghost predicate Brings(r: Request) {
    r.carried != [] ==>
      r.messages != [] &&
      var last := r.messages[|r.messages| - 1];
      last.User? && Joins(last.text, NonEmptyTexts(r.carried))
  }

  /** No request goes out behind a tool round while messages that came before are queued. */
  ghost predicate Prompt(r: Request) {
    r.calls != [] && r.carried == [] ==> r.waiting == []
  }

  ghost predicate WellFormed(r: Request) {
    Answers(r.calls, r.messages) && Distinct(Ids(r.calls)) && Brings(r) && Prompt(r)
  }

  predicate NoTools(messages: seq<Message>) {
    forall i | 0 <= i < |messages| :: !messages[i].Tool?
  }

  /** The texts of the drained messages, joined with blank lines. */
  function JoinedTexts(drained: seq<Injected>): string {
    if drained == [] then ""
    else
      var before, text := JoinedTexts(drained[..|drained| - 1]), drained[|drained| - 1].text;
      if text == "" then before else if before == "" then text else before + "\n\n" + text
  }

  lemma JoinedOne(text: string)
    ensures JoinedAt(text, [text], [0])
  {
    assert text[0..|text|] == text;
  }

  lemma StandsStill(text: string, more: string, part: string, at: nat)
    requires StandsAt(text, part, at)
    ensures StandsAt(text + more, part, at)
  {
    assert (text + more)[at..at + |part|] == text[at..at + |part|];
  }

  lemma StandsBehind(before: string, part: string)
    ensures StandsAt(before + part, part, |before|)
  {
  }

  lemma JoinedMore(before: string, parts: seq<string>, starts: seq<nat>, text: string)
    requires JoinedAt(before, parts, starts) && parts != []
    ensures JoinedAt(before + "\n\n" + text, parts + [text], starts + [|before| + 2])
  {
    hide StandsAt;
    var broken := before + "\n\n";
    forall i | 0 <= i < |parts| ensures StandsAt(broken + text, parts[i], starts[i]) {
      StandsStill(before, "\n\n", parts[i], starts[i]);
      StandsStill(broken, text, parts[i], starts[i]);
    }
    forall i | 0 <= i < |parts| - 1 ensures StandsAt(broken + text, "\n\n", starts[i] + |parts[i]|) {
      StandsStill(before, "\n\n", "\n\n", starts[i] + |parts[i]|);
      StandsStill(broken, text, "\n\n", starts[i] + |parts[i]|);
    }
    StandsBehind(before, "\n\n");
    StandsStill(broken, text, "\n\n", |before|);
    StandsBehind(broken, text);
  }

  /** Joining loses, repeats and moves no text. */
  lemma {:induction false} JoinedTextsJoin(drained: seq<Injected>)
    ensures Joins(JoinedTexts(drained), NonEmptyTexts(drained))
    ensures JoinedTexts(drained) == "" <==> NonEmptyTexts(drained) == []
  {
    if drained == [] {
      assert JoinedAt("", [], []);
    } else {
      var init, text := drained[..|drained| - 1], drained[|drained| - 1].text;
      JoinedTextsJoin(init);
      var starts :| JoinedAt(JoinedTexts(init), NonEmptyTexts(init), starts);
      if text != "" && JoinedTexts(init) != "" {
        JoinedMore(JoinedTexts(init), NonEmptyTexts(init), starts, text);
      } else if text != "" {
        JoinedOne(text);
        assert NonEmptyTexts(drained) == [text];
      } else {
        assert NonEmptyTexts(drained) == NonEmptyTexts(init);
      }
    }
  }

  // ----- What arrives while the turn waits -----

  datatype Arrival = Arrival(messages: seq<Injected>, stop: bool)

  /** What arrives during the n-th wait. */
  function ArrivalAt(arrivals: seq<Arrival>, n: nat): Arrival {
    if n < |arrivals| then arrivals[n] else Arrival([], false)
  }

  /** The messages of the first `n` waits. */
  function MessagesUpTo(arrivals: seq<Arrival>, n: nat): seq<Injected> {
    if n == 0 then [] else MessagesUpTo(arrivals, n - 1) + ArrivalAt(arrivals, n - 1).messages
  }

  /** A stop was asked for in one of the first `n` waits. */
  predicate StoppedUpTo(arrivals: seq<Arrival>, n: nat) {
    n > 0 && (StoppedUpTo(arrivals, n - 1) || ArrivalAt(arrivals, n - 1).stop)
  }

  predicate QuietBetween(arrivals: seq<Arrival>, m: nat, n: nat) {
    forall k: nat | m <= k < n :: ArrivalAt(arrivals, k).messages == []
  }

  lemma {:induction false} MessagesGrow(arrivals: seq<Arrival>, m: nat, n: nat)
    requires m <= n
    ensures MessagesUpTo(arrivals, m) <= MessagesUpTo(arrivals, n)
    ensures MessagesUpTo(arrivals, m) == MessagesUpTo(arrivals, n) <==> QuietBetween(arrivals, m, n)
  {
    hide ArrivalAt;
    if m < n {
      MessagesGrow(arrivals, m, n - 1);
      assert QuietBetween(arrivals, m, n) <==>
             QuietBetween(arrivals, m, n - 1) && ArrivalAt(arrivals, n - 1).messages == [];
    }
  }

  // ----- What a turn meets -----

  /**
   What a turn is started with, what the service answers, in order, what arrives during its waits, in order, what the
   call that is run in the n-th wait returns (nothing if it throws), and what there is to be fixed when that is asked
   in the n-th wait. The context is that of the user's text or of queued messages; it may fail to be assembled.
   */
  datatype Setting = Setting(
    text: string, continueTurn: bool, context: (string, bool) -> Option<seq<Message>>,
    script: seq<Answer>, arrivals: seq<Arrival>, tools: nat -> Option<string>, nudges: nat -> Option<string>)

  function ContentOf(result: Option<string>): string {
    if result.Some? then result.value else ""
  }

  /** The context holds no tool results. */
  ghost predicate ContextIsPlain(context: (string, bool) -> Option<seq<Message>>) {
    forall t, isFirst :: context(t, isFirst).Some? ==> NoTools(context(t, isFirst).value)
  }

  // ----- The history of a turn -----

  /** The turn can go on after this. */
  predicate Continues(o: Outcome) {
    o.Ended? && (o.finish == Stopped || (o.finish == CallsTools && o.calls != []))
  }

  /** The calls whose results the next request must bring. */
  function CallsAfter(o: Outcome): seq<Call> {
    if o.Ended? && o.finish == CallsTools then o.calls else []
  }

  function NextCalls(rounds: seq<Round>): seq<Call> {
    if rounds == [] then [] else CallsAfter(rounds[|rounds| - 1].outcome)
  }

  /** One result for each of these calls, in order, with what the call has returned; the first is run in wait `at`. */
  function ResultsOf(st: Setting, calls: seq<Call>, at: nat): (results: seq<Message>)
    ensures |results| == |calls|
    ensures forall k | 0 <= k < |calls| ::
              results[k] == Tool(calls[k].callId, calls[k].name, ContentOf(st.tools(at + k)))
  {
    seq(|calls|, k requires 0 <= k < |calls| =>
      Tool(calls[k].callId, calls[k].name, ContentOf(st.tools(at + k))))
  }

  function ResultsAfter(st: Setting, rounds: seq<Round>): seq<Message> {
    if rounds == [] then [] else ResultsOf(st, NextCalls(rounds), rounds[|rounds| - 1].readAt)
  }

  /** None of the calls of the answer throws. */
  ghost predicate ToolsRun(st: Setting, r: Round) {
    forall n: nat | r.readAt <= n < r.readAt + |CallsAfter(r.outcome)| :: st.tools(n).Some?
  }

  /** A stop was asked for before the last call of the answer had been run: each call is one wait. */
  predicate StoppedInRound(st: Setting, r: Round) {
    CallsAfter(r.outcome) != [] && StoppedUpTo(st.arrivals, r.readAt + |CallsAfter(r.outcome)|)
  }

  ghost predicate MayGoOn(st: Setting, rounds: seq<Round>) {
    rounds == [] ||
    var last := rounds[|rounds| - 1];
    Continues(last.outcome) && ToolsRun(st, last) && !StoppedInRound(st, last)
  }

  /** All queued messages that the requests bring, in order. */
  ghost function Carried(rounds: seq<Round>): seq<Injected> {
    if rounds == [] then [] else Carried(rounds[..|rounds| - 1]) + rounds[|rounds| - 1].request.carried
  }

  lemma CarriedSnoc(rounds: seq<Round>, r: Round)
    ensures Carried(rounds + [r]) == Carried(rounds) + r.request.carried
  {
    assert (rounds + [r])[..|rounds|] == rounds;
  }

  /** What is asked to be fixed behind a clean stop, if nobody had said anything by then. */
  ghost function NudgeAfter(st: Setting, rounds: seq<Round>): Option<string> {
    if rounds == [] then None
    else
      var last := rounds[|rounds| - 1];
      var saidNothing := MessagesUpTo(st.arrivals, last.readAt) == Carried(rounds);
      if last.outcome.Ended? && last.outcome.finish == Stopped && saidNothing then st.nudges(last.readAt) else None
  }

  /** The messages of a sub-turn: its context, and the user's text unless the turn only continues the conversation. */
  function Assembled(st: Setting, rounds: seq<Round>, carried: seq<Injected>): Option<seq<Message>> {
    var text := if rounds == [] then st.text else JoinedTexts(carried);
    match st.context(text, rounds == [])
    case None => None
    case Some(messages) => Some(messages + if rounds == [] && st.continueTurn then [] else [User(text)])
  }

  /**
   The request that may follow these rounds: what is to be fixed, alone; the results of the last calls, alone; or the
   results and the messages of a new sub-turn.
   */
  ghost predicate Follows(st: Setting, before: seq<Round>, r: Request) {
    && r.calls == NextCalls(before) && Distinct(Ids(r.calls)) && Prompt(r)
    && if NudgeAfter(st, before).Some? then r.carried == [] && r.messages == [User(NudgeAfter(st, before).value)]
       else if before != [] && r.carried == [] then r.calls != [] && r.messages == ResultsAfter(st, before)
       else
         && (before == [] ==> r.carried == [])
         && Assembled(st, before, r.carried).Some?
         && r.messages == ResultsAfter(st, before) + Assembled(st, before, r.carried).value
  }

  /** The n-th answer comes to `o`; when the service has no more answers, requests fail. */
  ghost predicate OutcomeFor(script: seq<Answer>, n: nat, o: Outcome) {
    if n >= |script| || script[n].Threw? then o.Broke?
    else if script[n].finish == Errored then o == Ended(Errored, [])
    else o.Ended? && o.finish == script[n].finish && Collected(script[n].frames, o.calls)
  }

  /** Each request is one that may follow the rounds before it. */
  ghost predicate History(st: Setting, rounds: seq<Round>) {
    rounds == [] ||
    var before, last := rounds[..|rounds| - 1], rounds[|rounds| - 1];
    && History(st, before) && MayGoOn(st, before) && Follows(st, before, last.request)
    && OutcomeFor(st.script, |before|, last.outcome)
  }

  lemma HistorySnoc(st: Setting, rounds: seq<Round>, r: Round)
    requires History(st, rounds) && MayGoOn(st, rounds)
    requires Follows(st, rounds, r.request) && OutcomeFor(st.script, |rounds|, r.outcome)
    ensures History(st, rounds + [r]) && NextCalls(rounds + [r]) == CallsAfter(r.outcome)
  {
    assert (rounds + [r])[..|rounds|] == rounds;
  }

  lemma ResultsThenRest(st: Setting, calls: seq<Call>, at: nat, rest: seq<Message>)
    requires NoTools(rest)
    ensures Answers(calls, ResultsOf(st, calls, at) + rest)
    ensures var all := ResultsOf(st, calls, at) + rest; rest != [] ==> all[|all| - 1] == rest[|rest| - 1]
  {
    var all := ResultsOf(st, calls, at) + rest;
    assert forall i | |calls| <= i < |all| :: all[i] == rest[i - |calls|];
  }

  lemma AssembledIsPlain(st: Setting, before: seq<Round>, carried: seq<Injected>)
    requires ContextIsPlain(st.context) && Assembled(st, before, carried).Some?
    ensures NoTools(Assembled(st, before, carried).value)
    ensures before != [] ==> var messages := Assembled(st, before, carried).value;
                             messages != [] && messages[|messages| - 1] == User(JoinedTexts(carried))
  {
    hide JoinedTexts;
    var text := if before == [] then st.text else JoinedTexts(carried);
    assert NoTools(st.context(text, before == []).value);
  }

  /** Such a request answers the calls before it, and brings the queued messages it carries. */
  lemma FollowingIsWellFormed(st: Setting, before: seq<Round>, r: Request)
    requires ContextIsPlain(st.context) && Follows(st, before, r)
    ensures WellFormed(r) && r.calls == NextCalls(before) && ResultsAfter(st, before) <= r.messages
  {
    hide JoinedTexts, Joins, NonEmptyTexts, Distinct, NoTools, Assembled, ResultsOf, ContextIsPlain;
    JoinedTextsJoin(r.carried);
    var at := if before == [] then 0 else before[|before| - 1].readAt;
    NothingFollows(st);
    if Assembled(st, before, r.carried).Some? {
      AssembledIsPlain(st, before, r.carried);
      ResultsThenRest(st, r.calls, at, Assembled(st, before, r.carried).value);
    }
  }

  lemma NothingFollows(st: Setting)
    ensures forall at: nat :: ResultsOf(st, [], at) == []
  {
  }

  lemma {:induction false} RoundFollows(st: Setting, rounds: seq<Round>, i: nat)
    requires History(st, rounds) && i < |rounds|
    ensures Follows(st, rounds[..i], rounds[i].request) && MayGoOn(st, rounds[..i])
    ensures OutcomeFor(st.script, i, rounds[i].outcome)
  {
    hide Follows, OutcomeFor, MayGoOn;
    var before := rounds[..|rounds| - 1];
    if i < |before| {
      RoundFollows(st, before, i);
      assert before[..i] == rounds[..i];
    }
  }

  /**
   Every request behind a tool round starts with one result per distinct call id of the answer before it, in call
   order, before any other message, each with what its call has returned; no other request holds a result. Every request
   is the one that may follow.
   */
  lemma EveryRoundIsAnswered(st: Setting, rounds: seq<Round>, i: nat)
    requires History(st, rounds) && i < |rounds| && ContextIsPlain(st.context)
    ensures OutcomeFor(st.script, i, rounds[i].outcome)
    ensures var calls := if i == 0 then [] else CallsAfter(rounds[i - 1].outcome);
            Answers(calls, rounds[i].request.messages) && Distinct(Ids(calls))
    ensures var calls := if i == 0 then [] else CallsAfter(rounds[i - 1].outcome);
            forall k | 0 <= k < |calls| ::
              rounds[i].request.messages[k] ==
              Tool(calls[k].callId, calls[k].name, ContentOf(st.tools(rounds[i - 1].readAt + k)))
    ensures i > 0 ==>
              Continues(rounds[i - 1].outcome) && ToolsRun(st, rounds[i - 1]) && !StoppedInRound(st, rounds[i - 1])
    ensures Brings(rounds[i].request) && Prompt(rounds[i].request)
    ensures Follows(st, rounds[..i], rounds[i].request)
  {
    hide History, OutcomeFor, Answers, Brings, Prompt, Follows, Continues, StoppedInRound, ToolsRun, Distinct;
    hide NudgeAfter;
    RoundFollows(st, rounds, i);
    FollowingIsWellFormed(st, rounds[..i], rounds[i].request);
    if i > 0 {
      assert rounds[..i][i - 1] == rounds[i - 1];
    }
  }

  /** An answer after which the turn cannot go on is the last one; so is one whose tools throw, or are stopped. */
  lemma {:induction false} FinalIsLast(st: Setting, rounds: seq<Round>, i: nat)
    requires History(st, rounds) && i < |rounds| && ContextIsPlain(st.context)
    requires !Continues(rounds[i].outcome) || !ToolsRun(st, rounds[i]) || StoppedInRound(st, rounds[i])
    ensures i == |rounds| - 1
  {
    hide History, Continues, StoppedInRound, ToolsRun, Follows;
    if i + 1 < |rounds| {
      EveryRoundIsAnswered(st, rounds, i + 1);
    }
  }

  function OutcomeOf(answer: Option<(Finish, seq<Call>)>): Outcome {
    match answer
    case None => Broke
    case Some((finish, calls)) => Ended(finish, calls)
  }

  /** How the last answer ended, if it did. */
  function LastFinish(rounds: seq<Round>): Option<Finish> {
    if rounds != [] && rounds[|rounds| - 1].outcome.Ended? then Some(rounds[|rounds| - 1].outcome.finish) else None
  }

  lemma NothingHappened(st: Setting)
    ensures Carried([]) == [] == MessagesUpTo(st.arrivals, 0) && !StoppedUpTo(st.arrivals, 0)
    ensures ResultsAfter(st, []) == [] && NextCalls([]) == [] && NudgeAfter(st, []).None? && MayGoOn(st, [])
  {
  }

  /** Only a clean stop or a tool round lets the turn go on. */
  function EndOf(finish: Finish): (end: Option<End>)
    ensures end.None? <==> finish in {Stopped, CallsTools}
  {
    match finish
    case Stopped => None
    case CallsTools => None
    case Aborted => Some(StoppedByUser)
    case Errored => Some(Failed)
    case CutShort => Some(Capped)
  }

  // ----- How it ends -----

  /**
   The end that the last answer, a tool that threw, context that could not be assembled, and a request to stop call
   for. Every branch but the last one is an ending the source counts as final.
   */
  ghost function TurnEnd(st: Setting, rounds: seq<Round>, unassembled: bool, aborted: bool): End {
    if unassembled || rounds == [] then Failed
    else
      match rounds[|rounds| - 1].outcome
      case Broke => if aborted then StoppedByUser else Failed
      case Ended(finish, calls) =>
        match finish
        case Aborted => StoppedByUser
        case Errored => Failed
        case CutShort => Capped
        case CallsTools =>
          if calls == [] then NoCallsCame
          else if !ToolsRun(st, rounds[|rounds| - 1]) && !aborted then Failed
          else StoppedByUser
        case Stopped => Finished
  }

  /** A sub-turn that ends the turn does so for one of these reasons. */
  ghost predicate EndsFor(st: Setting, rounds: seq<Round>, aborted: bool, end: End) {
    && rounds != [] && end == TurnEnd(st, rounds, false, aborted) && end != Finished
    && (Continues(rounds[|rounds| - 1].outcome) && ToolsRun(st, rounds[|rounds| - 1]) ==>
          aborted && StoppedInRound(st, rounds[|rounds| - 1]))
  }

  /**
   The end is the one called for. A turn is stopped only by a request to stop, its own or the service's word, and one
   that comes while tools run does stop it; it finishes only when nothing is left to be fixed; and context fails to be
   assembled only where it is assembled.
   */
  ghost predicate Explained(st: Setting, rounds: seq<Round>, consumed: seq<Injected>, unassembled: bool, aborted: bool,
                            end: End) {
    && end == TurnEnd(st, rounds, unassembled, aborted)
    && (!unassembled && NextCalls(rounds) != [] && ToolsRun(st, rounds[|rounds| - 1]) ==>
          StoppedInRound(st, rounds[|rounds| - 1]))
    && (end == StoppedByUser ==> aborted || LastFinish(rounds) == Some(Aborted))
    && (end == Finished ==> NudgeAfter(st, rounds).None?)
    && (unassembled ==> MayGoOn(st, rounds) && AssemblyFails(st, rounds, consumed))
  }

  /** The context of what was announced last, or of the user's text, cannot be assembled. */
  ghost predicate AssemblyFails(st: Setting, rounds: seq<Round>, consumed: seq<Injected>) {
    && Carried(rounds) <= consumed && (rounds != [] <==> consumed != Carried(rounds))
    && Assembled(st, rounds, consumed[|Carried(rounds)|..]).None?
  }

  /** An answer after which the turn cannot go on ends it. */
  lemma AnswerEnds(st: Setting, rounds: seq<Round>, aborted: bool, end: End)
    requires rounds != [] && !Continues(rounds[|rounds| - 1].outcome)
    requires match rounds[|rounds| - 1].outcome
             case Broke => end == if aborted then StoppedByUser else Failed
             case Ended(finish, _) => end == if finish == CallsTools then NoCallsCame else EndOf(finish).value
    ensures EndsFor(st, rounds, aborted, end)
  {
  }

  lemma SubTurnExplains(st: Setting, rounds: seq<Round>, consumed: seq<Injected>, aborted: bool, end: End)
    requires EndsFor(st, rounds, aborted, end)
    ensures Explained(st, rounds, consumed, false, aborted, end) && end != Finished
  {
  }

  lemma AssemblyExplains(st: Setting, rounds: seq<Round>, consumed: seq<Injected>, aborted: bool)
    requires MayGoOn(st, rounds) && AssemblyFails(st, rounds, consumed)
    ensures Explained(st, rounds, consumed, true, aborted, Failed)
  {
  }

  lemma FinishedExplains(st: Setting, rounds: seq<Round>, consumed: seq<Injected>, aborted: bool)
    requires rounds != [] && MayGoOn(st, rounds) && NextCalls(rounds) == [] && NudgeAfter(st, rounds).None?
    ensures Explained(st, rounds, consumed, false, aborted, Finished)
  {
  }
}
