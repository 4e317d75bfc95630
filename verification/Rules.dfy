/**
 Boolean rules (the `IRExpr` of ts-shared/viz-expr/viz-expr.ts) and what a question about a rule means,
 without any diagram: completions of partial answers, settled outcomes, and inputs that still matter.
 */
module Rules {
  import opened Sorting

  /** A variable's identity (`Unique`). */
  type Unique = int

  datatype InertContext = InertAnd | InertOr

  datatype Expr =
    | TrueE
    | FalseE
    | UBoolVar(unique: Unique)
    | Not(negand: Expr)
    | And(args: seq<Expr>)
    | Or(args: seq<Expr>)
    | App(fnName: string, args: seq<Expr>)
    | InertE(context: InertContext)

  predicate AppFree(e: Expr) {
    match e
    case Not(n) => AppFree(n)
    case And(args) => forall a | a in args :: AppFree(a)
    case Or(args) => forall a | a in args :: AppFree(a)
    case App(_, _) => false
    case _ => true
  }

  /** The variables of an expression, not looking under `App`. */
  function Vars(e: Expr): set<Unique> {
    match e
    case UBoolVar(u) => {u}
    case Not(n) => Vars(n)
    case And(args) => set a, u | a in args && u in Vars(a) :: u
    case Or(args) => set a, u | a in args && u in Vars(a) :: u
    case _ => {}
  }

  /** The truth value of a rule when exactly the variables in `truths` are true. */
  ghost predicate Meaning(e: Expr, truths: iset<Unique>)
    requires AppFree(e)
  {
    match e
    case TrueE => true
    case FalseE => false
    case UBoolVar(u) => u in truths
    case Not(n) => !Meaning(n, truths)
    case And(args) => forall a | a in args :: Meaning(a, truths)
    case Or(args) => exists a | a in args :: Meaning(a, truths)
    case InertE(context) => context == InertAnd
  }

  lemma {:induction false} MeaningLooksAtVars(e: Expr, truths: iset<Unique>, others: iset<Unique>)
    requires AppFree(e)
    requires forall u | u in Vars(e) :: u in truths <==> u in others
    ensures Meaning(e, truths) == Meaning(e, others)
    decreases e
  {
    match e
    case Not(n) =>
      MeaningLooksAtVars(n, truths, others);
    case And(args) =>
      forall a | a in args ensures Meaning(a, truths) == Meaning(a, others) {
        assert forall u | u in Vars(a) :: u in Vars(e);
        MeaningLooksAtVars(a, truths, others);
      }
    case Or(args) =>
      forall a | a in args ensures Meaning(a, truths) == Meaning(a, others) {
        assert forall u | u in Vars(a) :: u in Vars(e);
        MeaningLooksAtVars(a, truths, others);
      }
    case _ =>
  }

  /** An inert element of a connective of its own kind can be left out. */
  lemma InertIsDropped(before: seq<Expr>, after: seq<Expr>, truths: iset<Unique>)
    requires AppFree(And(before + after)) && AppFree(Or(before + after))
    ensures AppFree(And(before + [InertE(InertAnd)] + after)) && AppFree(Or(before + [InertE(InertOr)] + after))
    ensures Meaning(And(before + [InertE(InertAnd)] + after), truths) == Meaning(And(before + after), truths)
    ensures Meaning(Or(before + [InertE(InertOr)] + after), truths) == Meaning(Or(before + after), truths)
  {
    forall context: InertContext, e: Expr
      ensures e in before + [InertE(context)] + after <==> e == InertE(context) || e in before + after
    {
    }
    var kept := before + after;
    if a :| a in kept && Meaning(a, truths) {
      assert a in before + [InertE(InertOr)] + after;
    }
    forall a | a in kept ensures a in before + [InertE(InertAnd)] + after {
    }
  }

  // ----- Questions -----

  /** Known answers; an absent variable is unknown. */
  type Bindings = map<Unique, bool>

  ghost predicate Completes(truths: iset<Unique>, bindings: Bindings) {
    forall u | u in bindings :: u in truths <==> bindings[u]
  }

  /** Every way to answer the open questions gives `outcome`. */
  ghost predicate Settled(e: Expr, bindings: Bindings, outcome: bool)
    requires AppFree(e)
  {
    forall truths: iset<Unique> | Completes(truths, bindings) :: Meaning(e, truths) == outcome
  }

  ghost function Setting(truths: iset<Unique>, u: Unique, b: bool): iset<Unique> {
    if b then truths + iset{u} else truths - iset{u}
  }

  /** `u` is unanswered and decides the outcome under some completion. */
  ghost predicate Matters(e: Expr, bindings: Bindings, u: Unique)
    requires AppFree(e)
  {
    && u !in bindings
    && exists truths: iset<Unique> :: Completes(truths, bindings)
         && Meaning(e, Setting(truths, u, true)) != Meaning(e, Setting(truths, u, false))
  }

  /** Answering `u` with `b` settles the rule one way or the other. */
  ghost predicate Settles(e: Expr, bindings: Bindings, u: Unique, b: bool)
    requires AppFree(e)
  {
    Settled(e, bindings[u := b], true) || Settled(e, bindings[u := b], false)
  }

  /** How many of the two answers to `u` settle the rule. */
  ghost function SettlingCount(e: Expr, bindings: Bindings, u: Unique): nat
    requires AppFree(e)
  {
    (if Settles(e, bindings, u, true) then 1 else 0) + (if Settles(e, bindings, u, false) then 1 else 0)
  }

  datatype Determined = Undetermined | Always(outcome: bool)

  datatype QueryOutcome = QueryOutcome(determined: Determined, support: seq<Unique>)

  /** An outcome that reports exactly what the answers given so far imply. */
  ghost predicate Exact(e: Expr, bindings: Bindings, o: QueryOutcome)
    requires AppFree(e)
  {
    && (forall b: bool :: o.determined == Always(b) <==> Settled(e, bindings, b))
    && StrictlySorted(o.support)
    && (forall u :: u in o.support <==> Matters(e, bindings, u))
  }

  lemma CompletionExists(bindings: Bindings) returns (truths: iset<Unique>)
    ensures Completes(truths, bindings)
  {
    truths := iset u | u in bindings && bindings[u];
  }

  /** An exact outcome is determined by the rule and the answers: earlier queries cannot show in it. */
  lemma ExactIsUnique(e: Expr, bindings: Bindings, o: QueryOutcome, p: QueryOutcome)
    requires AppFree(e) && Exact(e, bindings, o) && Exact(e, bindings, p)
    ensures o == p
  {
    var truths := CompletionExists(bindings);
    assert forall u :: u in Elements(o.support) <==> u in Elements(p.support);
    SortedIsUnique(o.support, p.support);
    assert forall b: bool :: o.determined == Always(b) <==> p.determined == Always(b);
    assert o.determined.Always? <==> o.determined == Always(true) || o.determined == Always(false);
    assert p.determined.Always? <==> p.determined == Always(true) || p.determined == Always(false);
  }

  // ----- Answering questions makes progress -----

  lemma MattersIsVariable(e: Expr, bindings: Bindings, u: Unique)
    requires AppFree(e) && Matters(e, bindings, u)
    ensures u in Vars(e)
  {
    var truths: iset<Unique> :| Completes(truths, bindings)
      && Meaning(e, Setting(truths, u, true)) != Meaning(e, Setting(truths, u, false));
    if u !in Vars(e) {
      MeaningLooksAtVars(e, Setting(truths, u, true), Setting(truths, u, false));
    }
  }

  /** An answer settles its own question and opens no new one. */
  lemma AnswerShrinks(e: Expr, bindings: Bindings, u: Unique, b: bool, w: Unique)
    requires AppFree(e) && u !in bindings && Matters(e, bindings[u := b], w)
    ensures w != u && Matters(e, bindings, w)
  {
    var truths: iset<Unique> :| Completes(truths, bindings[u := b])
      && Meaning(e, Setting(truths, w, true)) != Meaning(e, Setting(truths, w, false));
    assert Completes(truths, bindings) by {
      forall v | v in bindings ensures v in truths <==> bindings[v] {
        assert v in bindings[u := b];
      }
    }
  }

  /** Two completions that differ on finitely many open variables of the rule, none of which matters, agree. */
  lemma {:induction false} NothingMattersStep(e: Expr, bindings: Bindings, truths: iset<Unique>,
                                              others: iset<Unique>, open: set<Unique>)
    requires AppFree(e) && Completes(truths, bindings) && Completes(others, bindings)
    requires forall u :: !Matters(e, bindings, u)
    requires forall u | u in Vars(e) && u !in open :: u in truths <==> u in others
    ensures Meaning(e, truths) == Meaning(e, others)
    decreases open
  {
    assert (forall u :: u !in open) ==> open == {};
    if open == {} {
      MeaningLooksAtVars(e, truths, others);
    } else {
      var u :| u in open;
      if u in bindings {
        NothingMattersStep(e, bindings, truths, others, open - {u});
      } else {
        var next := Setting(truths, u, u in others);
        assert next == Setting(truths, u, true) || next == Setting(truths, u, false);
        assert truths == Setting(truths, u, true) || truths == Setting(truths, u, false);
        assert !Matters(e, bindings, u);
        NothingMattersStep(e, bindings, next, others, open - {u});
      }
    }
  }

  /** No question is left exactly when the outcome is settled. */
  lemma NothingMattersIffSettled(e: Expr, bindings: Bindings)
    requires AppFree(e)
    ensures (forall u :: !Matters(e, bindings, u)) <==> (Settled(e, bindings, true) || Settled(e, bindings, false))
  {
    if forall u :: !Matters(e, bindings, u) {
      var base := CompletionExists(bindings);
      forall truths: iset<Unique> | Completes(truths, bindings)
        ensures Meaning(e, truths) == Meaning(e, base)
      {
        NothingMattersStep(e, bindings, truths, base, Vars(e));
      }
      assert Settled(e, bindings, Meaning(e, base));
    } else {
      var u :| Matters(e, bindings, u);
      var truths: iset<Unique> :| Completes(truths, bindings)
        && Meaning(e, Setting(truths, u, true)) != Meaning(e, Setting(truths, u, false));
      assert Completes(Setting(truths, u, true), bindings) && Completes(Setting(truths, u, false), bindings);
    }
  }

  /** A questioner asks about variables that still matter, one after the other. */
  ghost predicate Interview(e: Expr, bindings: Bindings, answers: seq<(Unique, bool)>)
    requires AppFree(e)
    decreases |answers|
  {
    answers == [] ||
      (&& Matters(e, bindings, answers[0].0)
       && Interview(e, bindings[answers[0].0 := answers[0].1], answers[1..]))
  }

  ghost function Open(e: Expr, bindings: Bindings): set<Unique>
    requires AppFree(e)
  {
    set u | u in Vars(e) && Matters(e, bindings, u)
  }

  lemma {:induction false} InterviewIsBounded(e: Expr, bindings: Bindings, answers: seq<(Unique, bool)>)
    requires AppFree(e) && Interview(e, bindings, answers)
    ensures |answers| <= |Open(e, bindings)|
    decreases |answers|
  {
    if answers != [] {
      var (u, b) := answers[0];
      var next := bindings[u := b];
      InterviewIsBounded(e, next, answers[1..]);
      MattersIsVariable(e, bindings, u);
      forall w | w in Open(e, next) ensures w in Open(e, bindings) - {u} {
        AnswerShrinks(e, bindings, u, b, w);
      }
      SubsetSize(Open(e, next), Open(e, bindings) - {u});
    }
  }

  lemma {:induction false} SubsetSize<T>(a: set<T>, b: set<T>)
    requires a <= b
    ensures |a| <= |b|
  {
    assert |b - a| == |b| - |a|;
  }

  /** Questioning ends within as many answers as the support first reported has variables. */
  lemma QuestioningEnds(e: Expr, bindings: Bindings, o: QueryOutcome, answers: seq<(Unique, bool)>)
    requires AppFree(e) && Exact(e, bindings, o) && Interview(e, bindings, answers)
    ensures |answers| <= |o.support|
  {
    InterviewIsBounded(e, bindings, answers);
    forall u ensures u in Open(e, bindings) <==> u in Elements(o.support) {
      if Matters(e, bindings, u) {
        MattersIsVariable(e, bindings, u);
      }
    }
    assert Open(e, bindings) == Elements(o.support);
    ElementsSize(o.support);
  }

  lemma {:induction false} ElementsSize(xs: seq<int>)
    ensures |Elements(xs)| <= |xs|
    decreases |xs|
  {
    if xs == [] {
      assert Elements(xs) == {};
    } else {
      ElementsSize(xs[1..]);
      assert Elements(xs) == Elements(xs[1..]) + {xs[0]} by {
        forall x ensures x in xs <==> x in xs[1..] || x == xs[0] {
          assert xs == [xs[0]] + xs[1..];
        }
      }
    }
  }

  /** What an exact outcome says: support is empty exactly when the outcome is determined, and an answer to
      a question in it strictly shrinks it. */
  lemma ExactOutcomesMakeProgress(e: Expr, bindings: Bindings, o: QueryOutcome, u: Unique, b: bool, p: QueryOutcome)
    requires AppFree(e) && Exact(e, bindings, o)
    requires u in o.support && Exact(e, bindings[u := b], p)
    ensures Elements(p.support) < Elements(o.support)
  {
    forall w | w in p.support ensures w in o.support && w != u {
      AnswerShrinks(e, bindings, u, b, w);
    }
    assert u in Elements(o.support) && u !in Elements(p.support);
  }

  lemma EmptySupportIffDetermined(e: Expr, bindings: Bindings, o: QueryOutcome)
    requires AppFree(e) && Exact(e, bindings, o)
    ensures o.support == [] <==> o.determined.Always?
  {
    NothingMattersIffSettled(e, bindings);
    assert o.support != [] ==> o.support[0] in o.support;
  }
}
