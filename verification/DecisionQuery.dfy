/**
 `compileDecisionQuery` of ts-shared/boolean-analysis/src/decision-query.ts: a rule is compiled once onto a
 diagram, and every query is answered by restricting that diagram.
 */
module DecisionQueries {
  import opened Sorting
  import opened Wrappers
  import opened Diagram
  import opened DiagramMeaning
  import opened RobddTables
  import opened QueryMeaning
  import opened Ranking
  import R = Rules

  // ----- Variable order -----

  datatype CompileError = AppUnsupported | MissingIndex(unique: R.Unique)

  /** `u` is the last element of `order` that `index` saw: `Map.set` overwrites. */
  method BuildIndex(order: seq<R.Unique>) returns (index: Index)
    ensures Indexes(index, order)
  {
    index := map[];
    for i := 0 to |order|
      invariant forall u :: u in index <==> u in order[..i]
      invariant forall u | u in index :: index[u] < i && order[index[u]] == u
      invariant forall u, j | u in index && index[u] < j < i :: order[j] != u
    {
      assert order[..i + 1] == order[..i] + [order[i]];
      index := index[order[i] := i];
    }
    assert order[..|order|] == order;
  }

  /** The variables in the order in which a left-to-right walk meets them, repetitions included. */
  function Occurrences(e: R.Expr): seq<R.Unique>
    decreases e
  {
    match e
    case UBoolVar(u) => [u]
    case Not(n) => Occurrences(n)
    case And(args) => OccurrencesIn(args)
    case Or(args) => OccurrencesIn(args)
    case _ => []
  }

  function OccurrencesIn(args: seq<R.Expr>): seq<R.Unique>
    decreases args
  {
    if args == [] then [] else OccurrencesIn(args[..|args| - 1]) + Occurrences(args[|args| - 1])
  }

  /** `out` followed by the elements of `xs` that are new, each once. */
  function AppendNew(out: seq<R.Unique>, xs: seq<R.Unique>): seq<R.Unique> {
    if xs == [] then out
    else
      var sofar := AppendNew(out, xs[..|xs| - 1]);
      var x := xs[|xs| - 1];
      if x in sofar then sofar else sofar + [x]
  }

  lemma {:induction false} AppendNewTwice(out: seq<R.Unique>, xs: seq<R.Unique>, ys: seq<R.Unique>)
    ensures AppendNew(out, xs + ys) == AppendNew(AppendNew(out, xs), ys)
    decreases |ys|
  {
    if ys == [] {
      assert xs + ys == xs;
    } else {
      AppendNewTwice(out, xs, ys[..|ys| - 1]);
      assert (xs + ys)[..|xs + ys| - 1] == xs + ys[..|ys| - 1];
    }
  }

  ghost predicate NoDuplicates(xs: seq<R.Unique>) {
    forall i, j | 0 <= i < j < |xs| :: xs[i] != xs[j]
  }

  lemma {:induction false} AppendNewElements(out: seq<R.Unique>, xs: seq<R.Unique>)
    requires NoDuplicates(out)
    ensures NoDuplicates(AppendNew(out, xs))
    ensures forall u :: u in AppendNew(out, xs) <==> u in out || u in xs
    decreases |xs|
  {
    if xs != [] {
      AppendNewElements(out, xs[..|xs| - 1]);
      assert xs == xs[..|xs| - 1] + [xs[|xs| - 1]];
    }
  }

  lemma {:induction false} OccurrencesAreVars(e: R.Expr, u: R.Unique)
    ensures u in Occurrences(e) <==> u in R.Vars(e)
    decreases e
  {
    match e
    case Not(n) => OccurrencesAreVars(n, u);
    case And(args) => OccurrencesInAreVars(args, u);
    case Or(args) => OccurrencesInAreVars(args, u);
    case _ =>
  }

  lemma {:induction false} OccurrencesInAreVars(args: seq<R.Expr>, u: R.Unique)
    ensures u in OccurrencesIn(args) <==> exists a :: a in args && u in R.Vars(a)
    decreases args
  {
    if args != [] {
      var rest, last := args[..|args| - 1], args[|args| - 1];
      OccurrencesInAreVars(rest, u);
      OccurrencesAreVars(last, u);
      assert args == rest + [last];
    }
  }

  /** `collectVarOrder`: the default order, or the refusal of a rule with an `App` in it. */
  method CollectVarOrder(e: R.Expr) returns (r: Result<seq<R.Unique>, CompileError>)
    ensures r.Success? <==> R.AppFree(e)
    ensures r.Failure? ==> r.error == AppUnsupported
    ensures r.Success? ==> r.value == AppendNew([], Occurrences(e))
    ensures r.Success? ==> NoDuplicates(r.value) && Elements(r.value) == R.Vars(e)
  {
    var seen, out, ok := Collect(e, {}, []);
    if !ok {
      return Failure(AppUnsupported);
    }
    AppendNewElements([], Occurrences(e));
    forall u ensures u in Elements(out) <==> u in R.Vars(e) {
      OccurrencesAreVars(e, u);
    }
    return Success(out);
  }

  /** The closure `go` of `collectVarOrder`, with `seen` and `out` passed along. */
  method Collect(e: R.Expr, seen: set<R.Unique>, out: seq<R.Unique>)
    returns (seen': set<R.Unique>, out': seq<R.Unique>, ok: bool)
    requires seen == Elements(out)
    ensures seen' == Elements(out')
    ensures ok <==> R.AppFree(e)
    ensures ok ==> out' == AppendNew(out, Occurrences(e))
    decreases e, 1
  {
    seen', out', ok := seen, out, true;
    match e {
      case UBoolVar(u) =>
        assert AppendNew(out, []) == out;
        if u !in seen {
          seen', out' := seen + {u}, out + [u];
        }
      case Not(n) =>
        seen', out', ok := Collect(n, seen, out);
      case And(args) =>
        seen', out', ok := CollectAll(e, args, seen, out);
      case Or(args) =>
        seen', out', ok := CollectAll(e, args, seen, out);
      case App(_, _) =>
        ok := false;
      case _ =>
    }
  }

  /** `args.forEach(go)` */
  method CollectAll(ghost e: R.Expr, args: seq<R.Expr>, seen: set<R.Unique>, out: seq<R.Unique>)
    returns (seen': set<R.Unique>, out': seq<R.Unique>, ok: bool)
    requires seen == Elements(out)
    requires forall a | a in args :: a < e
    ensures seen' == Elements(out')
    ensures ok <==> forall a | a in args :: R.AppFree(a)
    ensures ok ==> out' == AppendNew(out, OccurrencesIn(args))
    decreases e, 0
  {
    seen', out', ok := seen, out, true;
    for i := 0 to |args|
      invariant seen' == Elements(out')
      invariant ok
      invariant forall j | 0 <= j < i :: R.AppFree(args[j])
      invariant out' == AppendNew(out, OccurrencesIn(args[..i]))
    {
      assert args[i] in args;
      seen', out', ok := Collect(args[i], seen', out');
      if !ok {
        return;
      }
      assert args[..i + 1][..i] == args[..i];
      AppendNewTwice(out, OccurrencesIn(args[..i]), Occurrences(args[i]));
    }
    assert args[..|args|] == args;
  }

  // ----- Which rules are refused -----

  /** The first obstacle a left-to-right compilation meets. */
  function Refusal(e: R.Expr, index: Index): Option<CompileError>
    decreases e
  {
    match e
    case UBoolVar(u) => if u in index then None else Some(MissingIndex(u))
    case Not(n) => Refusal(n, index)
    case And(args) => RefusalIn(args, index)
    case Or(args) => RefusalIn(args, index)
    case App(_, _) => Some(AppUnsupported)
    case _ => None
  }

  function RefusalIn(args: seq<R.Expr>, index: Index): Option<CompileError>
    decreases args
  {
    if args == [] then None
    else
      var earlier := RefusalIn(args[..|args| - 1], index);
      if earlier.Some? then earlier else Refusal(args[|args| - 1], index)
  }

  /** Exactly the rules without `App` over indexed variables are compiled. */
  lemma {:induction false} RefusalIsExact(e: R.Expr, index: Index)
    ensures Refusal(e, index).None? <==> R.AppFree(e) && R.Vars(e) <= index.Keys
    decreases e
  {
    match e
    case Not(n) => RefusalIsExact(n, index);
    case And(args) => RefusalInIsExact(args, index); NaryVars(Diagram.And, args, index.Keys);
    case Or(args) => RefusalInIsExact(args, index); NaryVars(Diagram.Or, args, index.Keys);
    case _ =>
  }

  lemma NaryVars(op: Op, args: seq<R.Expr>, known: set<R.Unique>)
    ensures R.Vars(Nary(op, args)) <= known <==> forall a | a in args :: R.Vars(a) <= known
  {
    if R.Vars(Nary(op, args)) <= known {
      forall a, u | a in args && u in R.Vars(a) ensures u in known {
        assert u in R.Vars(Nary(op, args));
      }
    }
  }

  lemma {:induction false} RefusalInIsExact(args: seq<R.Expr>, index: Index)
    ensures RefusalIn(args, index).None? <==> forall a | a in args :: R.AppFree(a) && R.Vars(a) <= index.Keys
    decreases args
  {
    if args != [] {
      var rest, last := args[..|args| - 1], args[|args| - 1];
      RefusalInIsExact(rest, index);
      RefusalIsExact(last, index);
      assert args == rest + [last];
    }
  }

  lemma {:induction false} RefusalInPrefix(args: seq<R.Expr>, index: Index, k: nat)
    requires k <= |args| && RefusalIn(args[..k], index).Some?
    ensures RefusalIn(args, index) == RefusalIn(args[..k], index)
    decreases |args|
  {
    if k == |args| {
      assert args[..k] == args;
    } else {
      var rest := args[..|args| - 1];
      assert rest[..k] == args[..k];
      RefusalInPrefix(rest, index, k);
    }
  }

  // ----- n-ary connectives as folds -----

  /** `And` or `Or` over `args`. */
  function Nary(op: Op, args: seq<R.Expr>): R.Expr {
    if op.And? then R.And(args) else R.Or(args)
  }

  lemma NaryAppFree(op: Op, args: seq<R.Expr>)
    ensures R.AppFree(Nary(op, args)) <==> forall a | a in args :: R.AppFree(a)
  {
  }

  lemma NaryStep(op: Op, args: seq<R.Expr>, last: R.Expr, truths: iset<R.Unique>)
    requires R.AppFree(Nary(op, args)) && R.AppFree(last)
    ensures R.AppFree(Nary(op, args + [last]))
    ensures R.Meaning(Nary(op, args + [last]), truths)
         == OpEval(op, R.Meaning(Nary(op, args), truths), R.Meaning(last, truths))
  {
    assert forall a :: a in args + [last] <==> a in args || a == last;
    if op.Or? {
      assert last in args + [last];
    }
  }

  /** `id` computes `e` with nothing answered yet. */
  ghost predicate Compiles(nodes: seq<Node>, id: nat, e: R.Expr, index: Index)
    requires WellFormed(nodes)
  {
    id < |nodes| && R.AppFree(e) && forall env: Assignment :: Eval(nodes, id, env) == R.Meaning(e, Named(env, index))
  }

  lemma CompilesGrows(nodes: seq<Node>, later: seq<Node>, id: nat, e: R.Expr, index: Index)
    requires WellFormed(nodes) && Grows(nodes, later) && Compiles(nodes, id, e, index)
    ensures Compiles(later, id, e, index)
  {
    forall env: Assignment ensures Eval(later, id, env) == R.Meaning(e, Named(env, index)) {
      EvalGrows(nodes, later, id, env);
    }
  }

  lemma CompilesComputes(nodes: seq<Node>, id: nat, e: R.Expr, index: Index)
    requires WellFormed(nodes) && Compiles(nodes, id, e, index)
    ensures Computes(nodes, id, e, index, map[])
  {
    forall env: Assignment ensures Eval(nodes, id, env) == R.Meaning(e, Overlay(Named(env, index), map[])) {
      assert Overlay(Named(env, index), map[]) == Named(env, index);
    }
  }

  lemma RestrictCompiled(nodes: seq<Node>, id: nat, e: R.Expr, index: Index, bindings: R.Bindings)
    requires WellFormed(nodes) && Compiles(nodes, id, e, index) && R.Vars(e) <= index.Keys && Injective(index)
    ensures var r := PlainRestrict(nodes, id, LevelBindings(bindings, index));
            Computes(r.nodes, r.id, e, index, bindings)
  {
    CompilesComputes(nodes, id, e, index);
    RestrictComputes(nodes, id, e, index, map[], bindings);
    assert map[] + bindings == bindings;
  }

  lemma NegCompiles(nodes: seq<Node>, id: nat, e: R.Expr, index: Index)
    requires WellFormed(nodes) && Compiles(nodes, id, e, index)
    ensures var r := PlainNeg(nodes, id); Compiles(r.nodes, r.id, R.Not(e), index)
  {
    var r := PlainNeg(nodes, id);
    forall env: Assignment ensures Eval(r.nodes, r.id, env) == R.Meaning(R.Not(e), Named(env, index)) {
      NegMeaning(nodes, id, env);
    }
  }

  lemma VariableCompiles(nodes: seq<Node>, u: R.Unique, index: Index)
    requires WellFormed(nodes) && u in index
    ensures var r := PlainMk(nodes, index[u], FALSE, TRUE); Compiles(r.nodes, r.id, R.UBoolVar(u), index)
  {
    var r := PlainMk(nodes, index[u], FALSE, TRUE);
    forall env: Assignment ensures Eval(r.nodes, r.id, env) == R.Meaning(R.UBoolVar(u), Named(env, index)) {
      MkMeaning(nodes, index[u], FALSE, TRUE, env);
    }
  }

  lemma ApplyCompiles(nodes: seq<Node>, op: Op, acc: nat, args: seq<R.Expr>, id: nat, last: R.Expr, index: Index)
    requires WellFormed(nodes)
    requires Compiles(nodes, acc, Nary(op, args), index) && Compiles(nodes, id, last, index)
    ensures var r := PlainApply(nodes, op, acc, id); Compiles(r.nodes, r.id, Nary(op, args + [last]), index)
  {
    var r := PlainApply(nodes, op, acc, id);
    NaryAppFree(op, args);
    NaryStep(op, args, last, iset{});
    forall env: Assignment
      ensures Eval(r.nodes, r.id, env) == R.Meaning(Nary(op, args + [last]), Named(env, index))
    {
      ApplyMeaning(nodes, op, acc, id, env);
      NaryStep(op, args, last, Named(env, index));
    }
  }

  lemma NothingReduced(nodes: seq<Node>, op: Op, index: Index)
    requires WellFormed(nodes)
    ensures RefusalIn([], index).None?
    ensures Compiles(nodes, if op.And? then TRUE else FALSE, Nary(op, []), index)
  {
  }

  lemma RefusalInSnoc(args: seq<R.Expr>, last: R.Expr, index: Index)
    ensures RefusalIn(args + [last], index) ==
            if RefusalIn(args, index).Some? then RefusalIn(args, index) else Refusal(last, index)
  {
    assert (args + [last])[..|args|] == args;
  }

  lemma CompiledIsNode(nodes: seq<Node>, id: nat, e: R.Expr, index: Index)
    requires WellFormed(nodes) && Compiles(nodes, id, e, index)
    ensures id < |nodes|
  {
  }

  // ----- The compiled query -----

  datatype QueryResult = QueryResult(
    determined: R.Determined, support: seq<R.Unique>, ranked: seq<R.Unique>,
    impact: Impacts, nodes: nat, supportSize: nat)

  /** The answer a caller may rely on: the outcome, the open questions and the effect of every answer are exact. */
  ghost predicate ExactAnswer(e: R.Expr, index: Index, bindings: R.Bindings, res: QueryResult)
    requires R.AppFree(e)
  {
    && R.Exact(e, bindings, R.QueryOutcome(res.determined, res.support))
    && res.impact.Keys == Elements(res.support)
    && (forall u | u in res.impact ::
          && R.Exact(e, bindings[u := true], res.impact[u].ifTrue)
          && R.Exact(e, bindings[u := false], res.impact[u].ifFalse))
    && multiset(res.ranked) == multiset(res.support)
    && Ranked(res.ranked, res.impact, index)
    && res.supportSize == |res.support|
  }

  lemma SettlingIsCounted(e: R.Expr, index: Index, bindings: R.Bindings, res: QueryResult, u: R.Unique)
    requires R.AppFree(e) && ExactAnswer(e, index, bindings, res) && u in res.support
    ensures SettlingAnswers(u, res.impact) == R.SettlingCount(e, bindings, u)
  {
    hide Ranked;
    assert u in res.impact.Keys;
    ExactSettles(e, bindings[u := true], res.impact[u].ifTrue);
    ExactSettles(e, bindings[u := false], res.impact[u].ifFalse);
  }

  lemma ExactSettles(e: R.Expr, bindings: R.Bindings, o: R.QueryOutcome)
    requires R.AppFree(e) && R.Exact(e, bindings, o)
    ensures o.determined.Always? <==> R.Settled(e, bindings, true) || R.Settled(e, bindings, false)
  {
    assert o.determined.Always? <==> o.determined == R.Always(true) || o.determined == R.Always(false);
  }

  lemma {:induction false} RankedPair(xs: seq<R.Unique>, impact: Impacts, index: Index, i: nat, j: nat)
    requires Ranked(xs, impact, index) && i < j < |xs|
    ensures NotAfter(xs[i], xs[j], impact, index)
  {
    if i == 0 {
      assert xs[j] == xs[1..][j - 1];
    } else {
      RankedPair(xs[1..], impact, index, i - 1, j - 1);
    }
  }

  /** More settling answers, or as many and a smaller last place in the variable order. */
  ghost predicate WorthMore(e: R.Expr, order: seq<R.Unique>, bindings: R.Bindings, u: R.Unique, w: R.Unique)
    requires R.AppFree(e)
  {
    var a, b := R.SettlingCount(e, bindings, u), R.SettlingCount(e, bindings, w);
    a > b || (a == b && exists p: nat, q: nat :: LastAt(order, u, p) && LastAt(order, w, q) && p < q)
  }

  /** The ranking in terms of the rule: what is worth more stands first. */
  ghost predicate BestFirst(e: R.Expr, order: seq<R.Unique>, bindings: R.Bindings, ranked: seq<R.Unique>)
    requires R.AppFree(e)
  {
    forall i: nat, j: nat | i < |ranked| && j < |ranked| && WorthMore(e, order, bindings, ranked[i], ranked[j]) :: i < j
  }

  lemma RankedIsOpen(e: R.Expr, index: Index, bindings: R.Bindings, res: QueryResult, u: R.Unique)
    requires R.AppFree(e) && R.Vars(e) <= index.Keys && ExactAnswer(e, index, bindings, res) && u in res.ranked
    ensures u in res.support && u in index && Ranked(res.ranked, res.impact, index)
  {
    assert u in multiset(res.ranked);
    RankedIsIndexed(e, index, bindings, res);
    hide R.Exact, Ranked, R.Vars;
  }

  lemma LastIsIndex(index: Index, order: seq<R.Unique>, u: R.Unique, p: nat)
    requires Indexes(index, order) && u in index && LastAt(order, u, p)
    ensures index[u] == p
  {
  }

  lemma BetterIsBefore(xs: seq<R.Unique>, impact: Impacts, index: Index, i: nat, j: nat)
    requires Ranked(xs, impact, index) && i < |xs| && j < |xs| && !NotAfter(xs[j], xs[i], impact, index)
    ensures i < j || xs[i] == xs[j]
  {
    if j < i {
      RankedPair(xs, impact, index, j, i);
    }
  }

  lemma RankedBySettling(e: R.Expr, index: Index, order: seq<R.Unique>, bindings: R.Bindings, res: QueryResult,
                         i: nat, j: nat)
    requires R.AppFree(e) && R.Vars(e) <= index.Keys && Indexes(index, order)
    requires ExactAnswer(e, index, bindings, res) && i < |res.ranked| && j < |res.ranked|
    requires WorthMore(e, order, bindings, res.ranked[i], res.ranked[j])
    ensures i < j
  {
    hide R.SettlingCount, R.Exact, Ranked, R.Vars, ExactAnswer, LastAt, Indexes, SettlingAnswers, R.AppFree;
    var u, w := res.ranked[i], res.ranked[j];
    RankedIsOpen(e, index, bindings, res, u);
    RankedIsOpen(e, index, bindings, res, w);
    SettlingIsCounted(e, index, bindings, res, u);
    SettlingIsCounted(e, index, bindings, res, w);
    if R.SettlingCount(e, bindings, u) == R.SettlingCount(e, bindings, w) {
      var p: nat, q: nat :| LastAt(order, u, p) && LastAt(order, w, q) && p < q;
      LastIsIndex(index, order, u, p);
      LastIsIndex(index, order, w, q);
    }
    BetterIsBefore(res.ranked, res.impact, index, i, j);
  }

  /** Apart from the node count, an exact answer depends on the rule, the order and the bindings alone:
      no earlier query can show in it. */
  lemma AnswerIsIndependent(e: R.Expr, index: Index, bindings: R.Bindings, a: QueryResult, b: QueryResult)
    requires R.AppFree(e) && R.Vars(e) <= index.Keys && Injective(index)
    requires ExactAnswer(e, index, bindings, a) && ExactAnswer(e, index, bindings, b)
    ensures a == b.(nodes := a.nodes)
  {
    SameOutcome(e, index, bindings, a, b);
    SameImpact(e, index, bindings, a, b);
    RankedIsIndexed(e, index, bindings, a);
    hide R.Exact, Ranked, Elements;
    assert Ranked(b.ranked, a.impact, index) && multiset(a.ranked) == multiset(b.ranked);
    RankingIsUnique(a.ranked, b.ranked, a.impact, index);
  }

  lemma SameOutcome(e: R.Expr, index: Index, bindings: R.Bindings, a: QueryResult, b: QueryResult)
    requires R.AppFree(e) && ExactAnswer(e, index, bindings, a) && ExactAnswer(e, index, bindings, b)
    ensures a.determined == b.determined && a.support == b.support && a.supportSize == b.supportSize
  {
    hide R.Exact, Ranked;
    R.ExactIsUnique(e, bindings, R.QueryOutcome(a.determined, a.support), R.QueryOutcome(b.determined, b.support));
  }

  lemma SameImpact(e: R.Expr, index: Index, bindings: R.Bindings, a: QueryResult, b: QueryResult)
    requires R.AppFree(e) && ExactAnswer(e, index, bindings, a) && ExactAnswer(e, index, bindings, b)
    requires a.support == b.support
    ensures a.impact == b.impact
  {
    hide R.Exact, Ranked, Elements;
    forall u | u in a.impact ensures u in b.impact && a.impact[u] == b.impact[u] {
      assert u in b.impact.Keys;
      R.ExactIsUnique(e, bindings[u := true], a.impact[u].ifTrue, b.impact[u].ifTrue);
      R.ExactIsUnique(e, bindings[u := false], a.impact[u].ifFalse, b.impact[u].ifFalse);
    }
    assert a.impact.Keys == b.impact.Keys;
  }

  lemma RankedIsIndexed(e: R.Expr, index: Index, bindings: R.Bindings, a: QueryResult)
    requires R.AppFree(e) && R.Vars(e) <= index.Keys && ExactAnswer(e, index, bindings, a)
    ensures forall u | u in a.ranked :: u in index
  {
    forall u | u in a.ranked ensures u in index {
      assert u in multiset(a.ranked) && u in multiset(a.support);
      R.MattersIsVariable(e, bindings, u);
    }
  }

  class CompiledQuery {
    var varOrder: seq<R.Unique>
    var index: Index
    var bdd: Robdd
    var root: nat
    ghost var expr: R.Expr

    ghost predicate Indexed()
      reads this
    {
      Indexes(index, varOrder) && Injective(index)
    }

    ghost predicate Valid()
      reads this, bdd
    {
      && Indexed()
      && bdd.Valid()
      && R.AppFree(expr) && R.Vars(expr) <= index.Keys
      && Compiles(bdd.nodes, root, expr, index)
    }

    constructor (varOrder: seq<R.Unique>)
      ensures this.varOrder == varOrder && Indexed()
      ensures fresh(bdd) && bdd.Valid()
    {
      var index := BuildIndex(varOrder);
      this.varOrder := varOrder;
      this.index := index;
      bdd := new Robdd();
      root := FALSE;
      expr := R.FalseE;
    }

    /** The closure `compile`. */
    method Compile(e: R.Expr) returns (r: Result<nat, CompileError>)
      requires bdd.Valid()
      modifies bdd
      ensures bdd.Valid() && Grows(old(bdd.nodes), bdd.nodes)
      ensures r.Failure? <==> Refusal(e, index).Some?
      ensures r.Failure? ==> Refusal(e, index) == Some(r.error)
      ensures r.Success? ==> Compiles(bdd.nodes, r.value, e, index)
      decreases e, 1
    {
      match e {
        case TrueE =>
          r := Success(TRUE);
        case FalseE =>
          r := Success(FALSE);
        case UBoolVar(u) =>
          if u !in index {
            return Failure(MissingIndex(u));
          }
          VariableCompiles(bdd.nodes, u, index);
          var id := bdd.Variable(index[u]);
          r := Success(id);
        case Not(n) =>
          r := Compile(n);
          if r.Success? {
            NegCompiles(bdd.nodes, r.value, n, index);
            var id := bdd.Neg(r.value);
            r := Success(id);
          }
        case And(args) =>
          r := Reduce(e, Diagram.And, args);
        case Or(args) =>
          r := Reduce(e, Diagram.Or, args);
        case App(_, _) =>
          r := Failure(AppUnsupported);
        case InertE(context) =>
          r := Success(if context.InertAnd? then TRUE else FALSE);
      }
    }

    /** `args.reduce((acc, x) => bdd.apply(op, acc, compile(x)), identity)` */
    method Reduce(ghost e: R.Expr, op: Op, args: seq<R.Expr>) returns (r: Result<nat, CompileError>)
      requires bdd.Valid()
      requires forall a | a in args :: a < e
      modifies bdd
      ensures bdd.Valid() && Grows(old(bdd.nodes), bdd.nodes)
      ensures r.Failure? <==> RefusalIn(args, index).Some?
      ensures r.Failure? ==> RefusalIn(args, index) == Some(r.error)
      ensures r.Success? ==> Compiles(bdd.nodes, r.value, Nary(op, args), index)
      decreases e, 0
    {
      hide Compiles, RefusalIn, Refusal, PlainApply, Nary;
      var acc: nat := if op.And? then TRUE else FALSE;
      NothingReduced(bdd.nodes, op, index);
      for i := 0 to |args|
        invariant bdd.Valid() && Grows(old(bdd.nodes), bdd.nodes)
        invariant RefusalIn(args[..i], index).None?
        invariant Compiles(bdd.nodes, acc, Nary(op, args[..i]), index)
      {
        ghost var before := bdd.nodes;
        assert args[i] in args;
        var x := Compile(args[i]);
        assert args[..i + 1] == args[..i] + [args[i]];
        RefusalInSnoc(args[..i], args[i], index);
        if x.Failure? {
          RefusalInPrefix(args, index, i + 1);
          return x;
        }
        CompilesGrows(before, bdd.nodes, acc, Nary(op, args[..i]), index);
        ApplyCompiles(bdd.nodes, op, acc, args[..i], x.value, args[i], index);
        CompiledIsNode(bdd.nodes, acc, Nary(op, args[..i]), index);
        CompiledIsNode(bdd.nodes, x.value, args[i], index);
        acc := bdd.Apply(op, acc, x.value);
      }
      assert args[..|args|] == args;
      r := Success(acc);
    }

    /** The answer to a query for some known bindings; unknown names in them are ignored. */
    method Query(bindings: R.Bindings) returns (res: QueryResult)
      requires Valid()
      modifies bdd
      ensures Valid()
      ensures ExactAnswer(expr, index, bindings, res)
      // The questions most worth asking come first; ties go by the variable order.
      ensures BestFirst(expr, varOrder, bindings, res.ranked)
      ensures res.nodes == |bdd.nodes|
    {
      var restricted := RestrictRoot(bindings);
      var outcome := Outcome(restricted, bindings);
      var support := outcome.support;
      var impact := ImpactOf(restricted, support, bindings);
      res := QueryResult(outcome.determined, support, Rank(support, impact, index), impact, |bdd.nodes|, |support|);
      RankingIsMeant(bindings, res);
    }

    lemma RankingIsMeant(bindings: R.Bindings, res: QueryResult)
      requires Valid() && ExactAnswer(expr, index, bindings, res)
      ensures BestFirst(expr, varOrder, bindings, res.ranked)
    {
      hide WorthMore, ExactAnswer, Compiles;
      forall i: nat, j: nat | i < |res.ranked| && j < |res.ranked|
        && WorthMore(expr, varOrder, bindings, res.ranked[i], res.ranked[j])
        ensures i < j
      {
        RankedBySettling(expr, index, varOrder, bindings, res, i, j);
      }
    }

    method RestrictRoot(bindings: R.Bindings) returns (restricted: nat)
      requires Valid()
      modifies bdd
      ensures Valid() && restricted < |bdd.nodes|
      ensures Computes(bdd.nodes, restricted, expr, index, bindings)
    {
      ghost var before := bdd.nodes;
      RestrictCompiled(before, root, expr, index, bindings);
      restricted := bdd.Restrict(root, LevelBindings(bindings, index));
      CompilesGrows(before, bdd.nodes, root, expr, index);
    }

    /** The loop of `query` that supposes both answers to every open question. */
    method ImpactOf(restricted: nat, support: seq<R.Unique>, ghost bindings: R.Bindings) returns (impact: Impacts)
      requires Valid() && restricted < |bdd.nodes|
      requires Computes(bdd.nodes, restricted, expr, index, bindings)
      requires forall u | u in support :: R.Matters(expr, bindings, u)
      modifies bdd
      ensures Valid()
      ensures impact.Keys == Elements(support)
      ensures forall u | u in impact ::
          && R.Exact(expr, bindings[u := true], impact[u].ifTrue)
          && R.Exact(expr, bindings[u := false], impact[u].ifFalse)
    {
      impact := map[];
      for i := 0 to |support|
        invariant Valid()
        invariant restricted < |bdd.nodes| && Computes(bdd.nodes, restricted, expr, index, bindings)
        invariant forall u :: u in impact <==> u in support[..i]
        invariant forall u | u in impact ::
          && R.Exact(expr, bindings[u := true], impact[u].ifTrue)
          && R.Exact(expr, bindings[u := false], impact[u].ifFalse)
      {
        var u := support[i];
        assert support[..i + 1] == support[..i] + [u];
        assert R.Matters(expr, bindings, u);
        R.MattersIsVariable(expr, bindings, u);
        var ifTrue := Suppose(restricted, bindings, u, true);
        var ifFalse := Suppose(restricted, bindings, u, false);
        impact := impact[u := VarImpact(ifTrue, ifFalse)];
      }
      assert support[..|support|] == support;
      assert forall u :: u in impact.Keys <==> u in Elements(support);
    }

    /** `outcomeFromRestricted` */
    method Outcome(id: nat, ghost bindings: R.Bindings) returns (o: R.QueryOutcome)
      requires Valid() && id < |bdd.nodes|
      requires Computes(bdd.nodes, id, expr, index, bindings)
      ensures R.Exact(expr, bindings, o)
    {
      var levels := bdd.Support(id);
      o := R.QueryOutcome(DeterminedId(id), NamesOf(levels, varOrder));
      OutcomeIsExact(bdd.nodes, id, expr, index, varOrder, bindings);
    }

    /** The outcome if an open question `u` were answered with `b`. */
    method Suppose(restricted: nat, ghost bindings: R.Bindings, u: R.Unique, b: bool) returns (o: R.QueryOutcome)
      requires Valid() && restricted < |bdd.nodes|
      requires Computes(bdd.nodes, restricted, expr, index, bindings)
      requires u in index && u !in bindings
      modifies bdd
      ensures Valid() && Grows(old(bdd.nodes), bdd.nodes)
      ensures Computes(bdd.nodes, restricted, expr, index, bindings)
      ensures R.Exact(expr, bindings[u := b], o)
    {
      ghost var before := bdd.nodes;
      var answer := map[index[u] := b];
      assert LevelBindings(map[u := b], index) == answer;
      RestrictComputes(before, restricted, expr, index, bindings, map[u := b]);
      assert bindings + map[u := b] == bindings[u := b];
      var id := bdd.Restrict(restricted, answer);
      CompilesGrows(before, bdd.nodes, root, expr, index);
      ComputesGrows(before, bdd.nodes, restricted, expr, index, bindings);
      o := Outcome(id, bindings[u := b]);
    }
  }

  /** Compile a rule onto a diagram, with the variables in the given order. */
  method CompileDecisionQuery(expr: R.Expr, varOrder: seq<R.Unique>) returns (r: Result<CompiledQuery, CompileError>)
    ensures r.Success? <==> R.AppFree(expr) && R.Vars(expr) <= Elements(varOrder)
    ensures r.Success? ==> fresh(r.value) && fresh(r.value.bdd) && r.value.Valid()
    ensures r.Success? ==> r.value.expr == expr && r.value.varOrder == varOrder
  {
    var query := new CompiledQuery(varOrder);
    assert Indexes(query.index, varOrder);
    assert forall u :: u in query.index.Keys <==> u in Elements(varOrder);
    RefusalIsExact(expr, query.index);
    var root := query.Compile(expr);
    if root.Failure? {
      return Failure(root.error);
    }
    query.root := root.value;
    query.expr := expr;
    r := Success(query);
  }

  /** The same with the default order: only a rule with an `App` in it is refused. */
  method CompileWithDefaultOrder(expr: R.Expr) returns (r: Result<CompiledQuery, CompileError>)
    ensures r.Success? <==> R.AppFree(expr)
    ensures r.Success? ==> fresh(r.value) && fresh(r.value.bdd) && r.value.Valid() && r.value.expr == expr
    ensures r.Success? ==> NoDuplicates(r.value.varOrder) && Elements(r.value.varOrder) == R.Vars(expr)
  {
    var order := CollectVarOrder(expr);
    if order.Failure? {
      return Failure(order.error);
    }
    r := CompileDecisionQuery(expr, order.value);
  }
}
