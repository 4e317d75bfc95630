/**
 Why a restricted diagram answers a query exactly: the correspondence between variables and diagram
 levels, and the reading of an outcome off a diagram.
 */
module QueryMeaning {
  import opened Sorting
  import opened Diagram
  import opened DiagramMeaning
  import R = Rules

  type Index = map<R.Unique, nat>

  ghost predicate Injective(index: Index) {
    forall u, w | u in index && w in index && index[u] == index[w] :: u == w
  }

  /** The last position of a variable in `order`. */
  ghost predicate LastAt(order: seq<R.Unique>, u: R.Unique, i: nat) {
    i < |order| && order[i] == u && forall j | i < j < |order| :: order[j] != u
  }

  /** `index` gives every variable of `order` its last position. */
  ghost predicate Indexes(index: Index, order: seq<R.Unique>) {
    && (forall u :: u in index <==> u in order)
    && (forall u | u in index :: LastAt(order, u, index[u]))
  }

  /** The variables whose levels are true in `env`. */
  ghost function Named(env: Assignment, index: Index): iset<R.Unique> {
    iset u | u in index && index[u] in env
  }

  ghost function Overlay(truths: iset<R.Unique>, bindings: R.Bindings): iset<R.Unique> {
    iset u: R.Unique | if u in bindings then bindings[u] else u in truths
  }

  /** Node `id` computes rule `e` with the answers in `bindings` filled in. */
  ghost predicate Computes(nodes: seq<Node>, id: nat, e: R.Expr, index: Index, bindings: R.Bindings)
    requires WellFormed(nodes) && id < |nodes| && R.AppFree(e)
  {
    forall env: Assignment ::
      Eval(nodes, id, env) == R.Meaning(e, Overlay(Named(env, index), bindings))
  }

  lemma ComputesGrows(nodes: seq<Node>, later: seq<Node>, id: nat, e: R.Expr, index: Index, bindings: R.Bindings)
    requires WellFormed(nodes) && Grows(nodes, later) && id < |nodes| && R.AppFree(e)
    requires Computes(nodes, id, e, index, bindings)
    ensures Computes(later, id, e, index, bindings)
  {
    forall env: Assignment
      ensures Eval(later, id, env) == R.Meaning(e, Overlay(Named(env, index), bindings))
    {
      EvalGrows(nodes, later, id, env);
    }
  }

  /** The bindings as levels; variables the diagram does not know are dropped. */
  function LevelBindings(bindings: R.Bindings, index: Index): map<nat, bool>
    requires Injective(index)
  {
    map u | u in bindings && u in index :: index[u] := bindings[u]
  }

  lemma LevelBindingsAt(bindings: R.Bindings, index: Index, u: R.Unique)
    requires Injective(index) && u in index
    ensures index[u] in LevelBindings(bindings, index) <==> u in bindings
    ensures u in bindings ==> LevelBindings(bindings, index)[index[u]] == bindings[u]
  {
  }

  /** Restricting adds answers: `more` on top of `bindings`, for disjoint sets of variables. */
  lemma RestrictComputes(nodes: seq<Node>, id: nat, e: R.Expr, index: Index, bindings: R.Bindings, more: R.Bindings)
    requires WellFormed(nodes) && id < |nodes| && R.AppFree(e) && R.Vars(e) <= index.Keys
    requires Injective(index) && Computes(nodes, id, e, index, bindings)
    requires bindings.Keys !! more.Keys
    ensures var r := PlainRestrict(nodes, id, LevelBindings(more, index));
            Computes(r.nodes, r.id, e, index, bindings + more)
  {
    var levels := LevelBindings(more, index);
    var r := PlainRestrict(nodes, id, levels);
    forall env: Assignment
      ensures Eval(r.nodes, r.id, env) == R.Meaning(e, Overlay(Named(env, index), bindings + more))
    {
      RestrictMeaning(nodes, id, levels, env);
      var filled := Overlay(Named(Override(env, levels), index), bindings);
      forall u | u in R.Vars(e)
        ensures u in filled <==> u in Overlay(Named(env, index), bindings + more)
      {
        LevelBindingsAt(more, index, u);
      }
      R.MeaningLooksAtVars(e, filled, Overlay(Named(env, index), bindings + more));
    }
  }

  /** The levels of the variables in `truths`. */
  ghost function Levels(truths: iset<R.Unique>, index: Index): Assignment {
    iset u | u in index && u in truths :: index[u]
  }

  lemma LevelsNamed(truths: iset<R.Unique>, index: Index, u: R.Unique)
    requires Injective(index) && u in index
    ensures u in Named(Levels(truths, index), index) <==> u in truths
  {
    if index[u] in Levels(truths, index) {
      var w :| w in index && w in truths && index[w] == index[u];
    }
  }

  /** Every completion is met by some assignment of the diagram. */
  lemma CompletionMeaning(nodes: seq<Node>, id: nat, e: R.Expr, index: Index, bindings: R.Bindings,
                          truths: iset<R.Unique>)
    requires WellFormed(nodes) && id < |nodes| && R.AppFree(e) && R.Vars(e) <= index.Keys
    requires Injective(index) && Computes(nodes, id, e, index, bindings)
    requires R.Completes(truths, bindings)
    ensures Eval(nodes, id, Levels(truths, index)) == R.Meaning(e, truths)
  {
    var env := Levels(truths, index);
    forall u | u in R.Vars(e) ensures u in Overlay(Named(env, index), bindings) <==> u in truths {
      LevelsNamed(truths, index, u);
    }
    R.MeaningLooksAtVars(e, Overlay(Named(env, index), bindings), truths);
  }

  lemma ConstantIffSettled(nodes: seq<Node>, id: nat, e: R.Expr, index: Index, bindings: R.Bindings, outcome: bool)
    requires WellFormed(nodes) && id < |nodes| && R.AppFree(e) && R.Vars(e) <= index.Keys
    requires Injective(index) && Computes(nodes, id, e, index, bindings)
    ensures id == (if outcome then TRUE else FALSE) <==> R.Settled(e, bindings, outcome)
  {
    var leaf := if outcome then TRUE else FALSE;
    Canonical(nodes, id, leaf);
    if id == leaf {
      forall truths: iset<R.Unique> | R.Completes(truths, bindings) ensures R.Meaning(e, truths) == outcome {
        CompletionMeaning(nodes, id, e, index, bindings, truths);
      }
    }
    if R.Settled(e, bindings, outcome) {
      forall env: Assignment ensures Eval(nodes, id, env) == Eval(nodes, leaf, env) {
        assert R.Completes(Overlay(Named(env, index), bindings), bindings);
      }
      assert SameFunction(nodes, id, leaf);
    }
  }

  lemma FlipLevel(env: Assignment, index: Index, bindings: R.Bindings, u: R.Unique, b: bool)
    requires Injective(index) && u in index && u !in bindings
    ensures Overlay(Named(With(env, index[u], b), index), bindings)
         == R.Setting(Overlay(Named(env, index), bindings), u, b)
  {
    forall w: R.Unique
      ensures w in Overlay(Named(With(env, index[u], b), index), bindings)
         <==> w in R.Setting(Overlay(Named(env, index), bindings), u, b)
    {
      assert w in index && w != u ==> index[w] != index[u];
    }
  }

  lemma FlipAnsweredLevel(env: Assignment, index: Index, bindings: R.Bindings, u: R.Unique, b: bool)
    requires Injective(index) && u in index && u in bindings
    ensures Overlay(Named(With(env, index[u], b), index), bindings) == Overlay(Named(env, index), bindings)
  {
    forall w: R.Unique
      ensures w in Overlay(Named(With(env, index[u], b), index), bindings)
         <==> w in Overlay(Named(env, index), bindings)
    {
      assert w in index && w != u ==> index[w] != index[u];
    }
  }

  lemma TestedIffMatters(nodes: seq<Node>, id: nat, e: R.Expr, index: Index, bindings: R.Bindings, u: R.Unique)
    requires WellFormed(nodes) && id < |nodes| && R.AppFree(e) && R.Vars(e) <= index.Keys
    requires Injective(index) && Computes(nodes, id, e, index, bindings)
    requires u in index
    ensures index[u] in Tested(nodes, id) <==> R.Matters(e, bindings, u)
  {
    var level := index[u];
    if level in Tested(nodes, id) {
      var env := TestedDecides(nodes, id, level);
      if u in bindings {
        FlipAnsweredLevel(env, index, bindings, u, true);
        FlipAnsweredLevel(env, index, bindings, u, false);
      } else {
        FlipLevel(env, index, bindings, u, true);
        FlipLevel(env, index, bindings, u, false);
        assert R.Completes(Overlay(Named(env, index), bindings), bindings);
      }
    }
    if R.Matters(e, bindings, u) {
      var truths: iset<R.Unique> :| R.Completes(truths, bindings)
        && R.Meaning(e, R.Setting(truths, u, true)) != R.Meaning(e, R.Setting(truths, u, false));
      var env := Levels(truths, index);
      CompletionMeaning(nodes, id, e, index, bindings, R.Setting(truths, u, true));
      CompletionMeaning(nodes, id, e, index, bindings, R.Setting(truths, u, false));
      SettingLevels(truths, index, u, true);
      SettingLevels(truths, index, u, false);
      assert DependsOn(nodes, id, level);
      SupportIsExact(nodes, id, level);
    }
  }

  lemma SettingLevels(truths: iset<R.Unique>, index: Index, u: R.Unique, b: bool)
    requires Injective(index) && u in index
    ensures Levels(R.Setting(truths, u, b), index) == With(Levels(truths, index), index[u], b)
  {
    var l, r := Levels(R.Setting(truths, u, b), index), With(Levels(truths, index), index[u], b);
    forall v: nat ensures v in l <==> v in r {
      if w :| w in index && index[w] == v {
        assert v in l <==> w in R.Setting(truths, u, b);
        assert v in Levels(truths, index) <==> w in truths;
      }
    }
  }

  lemma TestedIsIndexed(nodes: seq<Node>, id: nat, e: R.Expr, index: Index, bindings: R.Bindings, level: nat)
    requires WellFormed(nodes) && id < |nodes| && R.AppFree(e)
    requires Computes(nodes, id, e, index, bindings)
    requires level in Tested(nodes, id)
    ensures exists u :: u in index && index[u] == level
  {
    var env := TestedDecides(nodes, id, level);
    assert (forall u | u in index :: index[u] != level)
      ==> Named(With(env, level, true), index) == Named(With(env, level, false), index);
  }

  // ----- Reading an outcome off a diagram -----

  function DeterminedId(id: nat): R.Determined {
    if id == TRUE then R.Always(true) else if id == FALSE then R.Always(false) else R.Undetermined
  }

  /** The variables at some levels, duplicates removed and sorted. Levels past the end of `order` drop out. */
  function NamesOf(levels: set<nat>, order: seq<R.Unique>): seq<R.Unique> {
    SortedSeq(set level | level in levels && level < |order| :: order[level])
  }

  lemma OutcomeIsExact(nodes: seq<Node>, id: nat, e: R.Expr, index: Index, order: seq<R.Unique>, bindings: R.Bindings)
    requires WellFormed(nodes) && id < |nodes| && R.AppFree(e) && R.Vars(e) <= index.Keys
    requires Injective(index) && Indexes(index, order) && Computes(nodes, id, e, index, bindings)
    ensures R.Exact(e, bindings, R.QueryOutcome(DeterminedId(id), NamesOf(Tested(nodes, id), order)))
  {
    ConstantIffSettled(nodes, id, e, index, bindings, true);
    ConstantIffSettled(nodes, id, e, index, bindings, false);
    var names := NamesOf(Tested(nodes, id), order);
    forall u ensures u in names <==> R.Matters(e, bindings, u) {
      assert u in names <==> u in Elements(names);
      if u in names {
        var level :| level in Tested(nodes, id) && level < |order| && order[level] == u;
        TestedIsIndexed(nodes, id, e, index, bindings, level);
        assert index[u] == level;
        TestedIffMatters(nodes, id, e, index, bindings, u);
      }
      if R.Matters(e, bindings, u) {
        R.MattersIsVariable(e, bindings, u);
        TestedIffMatters(nodes, id, e, index, bindings, u);
      }
    }
  }
}
