/**
 What the diagrams mean: each operation computes the Boolean function it should, ids are canonical,
 and the variables found by walking a diagram are exactly those its function depends on.
 */
module DiagramMeaning {
  import opened Diagram

  // ----- A node keeps its meaning while the table grows -----

  lemma {:induction false} EvalGrows(nodes: seq<Node>, later: seq<Node>, id: nat, env: Assignment)
    requires WellFormed(nodes) && Grows(nodes, later) && id < |nodes|
    ensures Eval(later, id, env) == Eval(nodes, id, env)
    decreases id
  {
    assert nodes[id] == later[id] && NodeOrdered(nodes, id);
    if nodes[id].Branch? {
      EvalGrows(nodes, later, nodes[id].low, env);
      EvalGrows(nodes, later, nodes[id].high, env);
    }
  }

  // ----- The operations mean what they should -----

  lemma MkMeaning(nodes: seq<Node>, level: nat, low: nat, high: nat, env: Assignment)
    requires WellFormed(nodes) && low < |nodes| && high < |nodes|
    requires Above(nodes, level, low) && Above(nodes, level, high)
    ensures var r := PlainMk(nodes, level, low, high);
            Eval(r.nodes, r.id, env) == if level in env then Eval(nodes, high, env) else Eval(nodes, low, env)
  {
    var r := PlainMk(nodes, level, low, high);
    EvalGrows(nodes, r.nodes, low, env);
    EvalGrows(nodes, r.nodes, high, env);
  }

  lemma {:induction false} NegMeaning(nodes: seq<Node>, id: nat, env: Assignment)
    requires WellFormed(nodes) && id < |nodes|
    ensures var r := PlainNeg(nodes, id);
            Eval(r.nodes, r.id, env) == !Eval(nodes, id, env)
    decreases id
  {
    assert NodeOrdered(nodes, id);
    match nodes[id]
    case Terminal(_) =>
    case Branch(level, low, high) =>
      var l := PlainNeg(nodes, low);
      var h := PlainNeg(l.nodes, high);
      NegMeaning(nodes, low, env);
      NegMeaning(l.nodes, high, env);
      EvalGrows(l.nodes, h.nodes, l.id, env);
      EvalGrows(nodes, l.nodes, high, env);
      MkMeaning(h.nodes, level, l.id, h.id, env);
  }

  lemma CofactorMeaning(nodes: seq<Node>, id: nat, top: nat, env: Assignment)
    requires WellFormed(nodes) && id < |nodes|
    requires nodes[id].Branch? ==> top <= nodes[id].level
    ensures Eval(nodes, Cofactor(nodes, id, top, top in env), env) == Eval(nodes, id, env)
  {
    assert NodeOrdered(nodes, id);
  }

  lemma {:induction false} ApplyMeaning(nodes: seq<Node>, op: Op, a: nat, b: nat, env: Assignment)
    requires WellFormed(nodes) && a < |nodes| && b < |nodes|
    ensures var r := PlainApply(nodes, op, a, b);
            Eval(r.nodes, r.id, env) == OpEval(op, Eval(nodes, a, env), Eval(nodes, b, env))
    decreases a + b, 1
  {
    assert NodeOrdered(nodes, a) && NodeOrdered(nodes, b);
    if a != b && !(a < 2 && b < 2) {
      var top := TopLevel(nodes, a, b);
      var h := ApplyHalves(nodes, op, a, b, top);
      MkMeaning(h.high.nodes, top, h.low.id, h.high.id, env);
      ApplyHalfMeaning(nodes, op, a, b, top, env);
      CofactorMeaning(nodes, a, top, env);
      CofactorMeaning(nodes, b, top, env);
    }
  }

  /** The half that `env` selects means what `op` gives for the selected cofactors. */
  lemma {:induction false} ApplyHalfMeaning(nodes: seq<Node>, op: Op, a: nat, b: nat, top: nat, env: Assignment)
    requires WellFormed(nodes) && a < |nodes| && b < |nodes|
    requires (nodes[a].Branch? || nodes[b].Branch?) && top == TopLevel(nodes, a, b)
    ensures var h := ApplyHalves(nodes, op, a, b, top);
            var ca, cb := Cofactor(nodes, a, top, top in env), Cofactor(nodes, b, top, top in env);
            Eval(h.high.nodes, if top in env then h.high.id else h.low.id, env)
              == OpEval(op, Eval(nodes, ca, env), Eval(nodes, cb, env))
    decreases a + b, 0
  {
    var h := ApplyHalves(nodes, op, a, b, top);
    var side := top in env;
    var ca, cb := Cofactor(nodes, a, top, side), Cofactor(nodes, b, top, side);
    if side {
      EvalGrows(nodes, h.low.nodes, ca, env);
      EvalGrows(nodes, h.low.nodes, cb, env);
      ApplyMeaning(h.low.nodes, op, ca, cb, env);
    } else {
      ApplyMeaning(nodes, op, ca, cb, env);
      EvalGrows(h.low.nodes, h.high.nodes, h.low.id, env);
    }
  }

  /** `env` with the variables in `bindings` set as bound. */
  ghost function Override(env: Assignment, bindings: map<nat, bool>): Assignment {
    iset v: nat | if v in bindings then bindings[v] else v in env
  }

  lemma {:induction false} RestrictMeaning(nodes: seq<Node>, id: nat, bindings: map<nat, bool>, env: Assignment)
    requires WellFormed(nodes) && id < |nodes|
    ensures var r := PlainRestrict(nodes, id, bindings);
            Eval(r.nodes, r.id, env) == Eval(nodes, id, Override(env, bindings))
    decreases id
  {
    assert NodeOrdered(nodes, id);
    if id < 2 {
    } else if bindings == map[] {
      assert Override(env, bindings) == env;
    } else {
      var node := nodes[id];
      if node.level in bindings {
        RestrictMeaning(nodes, if bindings[node.level] then node.high else node.low, bindings, env);
      } else {
        var l := PlainRestrict(nodes, node.low, bindings);
        var h := PlainRestrict(l.nodes, node.high, bindings);
        RestrictMeaning(nodes, node.low, bindings, env);
        RestrictMeaning(l.nodes, node.high, bindings, env);
        EvalGrows(l.nodes, h.nodes, l.id, env);
        EvalGrows(nodes, l.nodes, node.high, Override(env, bindings));
        MkMeaning(h.nodes, node.level, l.id, h.id, env);
      }
    }
  }

  // ----- Canonicity -----

  /** A node looks only at variables below its own level. */
  lemma {:induction false} EvalLooksBelow(nodes: seq<Node>, id: nat, level: nat, env: Assignment, other: Assignment)
    requires WellFormed(nodes) && id < |nodes| && Above(nodes, level, id)
    requires forall v: nat | v > level :: v in env <==> v in other
    ensures Eval(nodes, id, env) == Eval(nodes, id, other)
    decreases id
  {
    assert NodeOrdered(nodes, id);
    if nodes[id].Branch? {
      EvalLooksBelow(nodes, nodes[id].low, nodes[id].level, env, other);
      EvalLooksBelow(nodes, nodes[id].high, nodes[id].level, env, other);
    }
  }

  /** `env` with variable `v` set to `b`. */
  ghost function With(env: Assignment, v: nat, b: bool): Assignment {
    if b then env + iset{v} else env - iset{v}
  }

  /** Setting the variable a node tests picks one child. */
  lemma EvalOneSide(nodes: seq<Node>, id: nat, env: Assignment, side: bool)
    requires WellFormed(nodes) && id < |nodes| && nodes[id].Branch? && NodeOrdered(nodes, id)
    ensures Eval(nodes, id, With(env, nodes[id].level, side))
         == Eval(nodes, if side then nodes[id].high else nodes[id].low, env)
  {
    var level := nodes[id].level;
    EvalLooksBelow(nodes, if side then nodes[id].high else nodes[id].low, level, env, With(env, level, side));
  }

  lemma EvalUntouched(nodes: seq<Node>, id: nat, level: nat, env: Assignment, side: bool)
    requires WellFormed(nodes) && id < |nodes| && Above(nodes, level, id)
    ensures Eval(nodes, id, With(env, level, side)) == Eval(nodes, id, env)
  {
    EvalLooksBelow(nodes, id, level, env, With(env, level, side));
  }

  /** Distinct nodes disagree somewhere. */
  lemma {:induction false} Distinguish(nodes: seq<Node>, a: nat, b: nat) returns (env: Assignment)
    requires WellFormed(nodes) && a < |nodes| && b < |nodes| && a != b
    ensures Eval(nodes, a, env) != Eval(nodes, b, env)
    decreases a + b
  {
    assert NodeOrdered(nodes, a) && NodeOrdered(nodes, b);
    if nodes[a].Terminal? && nodes[b].Terminal? {
      env := iset{};
    } else if nodes[a].Branch? && nodes[b].Branch? && nodes[a].level == nodes[b].level {
      if nodes[a].low == nodes[b].low && nodes[a].high == nodes[b].high {
        SameNodeSameId(nodes, a, b);
      }
      var side := nodes[a].low == nodes[b].low;
      var ca := if side then nodes[a].high else nodes[a].low;
      var cb := if side then nodes[b].high else nodes[b].low;
      var e := Distinguish(nodes, ca, cb);
      EvalOneSide(nodes, a, e, side);
      EvalOneSide(nodes, b, e, side);
      env := With(e, nodes[a].level, side);
    } else if nodes[a].Terminal? || (nodes[b].Branch? && nodes[b].level < nodes[a].level) {
      env := DistinguishUpper(nodes, b, a);
    } else {
      env := DistinguishUpper(nodes, a, b);
    }
  }

  /** The case in which only `a` tests its top variable. */
  lemma DistinguishUpper(nodes: seq<Node>, a: nat, b: nat) returns (env: Assignment)
    requires WellFormed(nodes) && a < |nodes| && b < |nodes|
    requires nodes[a].Branch? && Above(nodes, nodes[a].level, b) && NodeOrdered(nodes, a)
    ensures Eval(nodes, a, env) != Eval(nodes, b, env)
    decreases a + b, 0
  {
    var side := nodes[a].low == b;
    var child := if side then nodes[a].high else nodes[a].low;
    var e := Distinguish(nodes, child, b);
    EvalOneSide(nodes, a, e, side);
    EvalUntouched(nodes, b, nodes[a].level, e, side);
    env := With(e, nodes[a].level, side);
  }

  ghost predicate SameFunction(nodes: seq<Node>, a: nat, b: nat)
    requires WellFormed(nodes) && a < |nodes| && b < |nodes|
  {
    forall env: Assignment :: Eval(nodes, a, env) == Eval(nodes, b, env)
  }

  /** Two ids denote the same Boolean function exactly when they are equal. */
  lemma Canonical(nodes: seq<Node>, a: nat, b: nat)
    requires WellFormed(nodes) && a < |nodes| && b < |nodes|
    ensures SameFunction(nodes, a, b) <==> a == b
  {
    if a != b {
      var env := Distinguish(nodes, a, b);
    }
  }

  // ----- Support -----

  /** The variables tested in the diagram of `id`. */
  ghost function Tested(nodes: seq<Node>, id: nat): set<nat>
    requires Ordered(nodes) && id < |nodes|
    decreases id
  {
    assert NodeOrdered(nodes, id);
    match nodes[id]
    case Terminal(_) => {}
    case Branch(level, low, high) => {level} + Tested(nodes, low) + Tested(nodes, high)
  }

  ghost predicate DependsOn(nodes: seq<Node>, id: nat, v: nat)
    requires WellFormed(nodes) && id < |nodes|
  {
    exists env: Assignment :: Eval(nodes, id, With(env, v, true)) != Eval(nodes, id, With(env, v, false))
  }

  lemma {:induction false} TestedLiesBelow(nodes: seq<Node>, id: nat, level: nat)
    requires WellFormed(nodes) && id < |nodes| && Above(nodes, level, id)
    ensures forall v | v in Tested(nodes, id) :: level < v
    decreases id
  {
    assert NodeOrdered(nodes, id);
    if nodes[id].Branch? {
      TestedLiesBelow(nodes, nodes[id].low, nodes[id].level);
      TestedLiesBelow(nodes, nodes[id].high, nodes[id].level);
    }
  }

  lemma {:induction false} UntestedIsIrrelevant(nodes: seq<Node>, id: nat, v: nat, env: Assignment, b: bool)
    requires WellFormed(nodes) && id < |nodes| && v !in Tested(nodes, id)
    ensures Eval(nodes, id, With(env, v, b)) == Eval(nodes, id, env)
    decreases id
  {
    assert NodeOrdered(nodes, id);
    if nodes[id].Branch? {
      UntestedIsIrrelevant(nodes, nodes[id].low, v, env, b);
      UntestedIsIrrelevant(nodes, nodes[id].high, v, env, b);
    }
  }

  /** Every tested variable has an assignment under which it decides the outcome. */
  lemma {:induction false} TestedDecides(nodes: seq<Node>, id: nat, v: nat) returns (env: Assignment)
    requires WellFormed(nodes) && id < |nodes| && v in Tested(nodes, id)
    ensures Eval(nodes, id, With(env, v, true)) != Eval(nodes, id, With(env, v, false))
    decreases id
  {
    assert NodeOrdered(nodes, id);
    var node := nodes[id];
    if v == node.level {
      env := Distinguish(nodes, node.low, node.high);
      EvalOneSide(nodes, id, env, true);
      EvalOneSide(nodes, id, env, false);
    } else {
      var side := v in Tested(nodes, node.high);
      var child := if side then node.high else node.low;
      TestedLiesBelow(nodes, child, node.level);
      var e := TestedDecides(nodes, child, v);
      env := With(e, node.level, side);
      SwapWith(e, node.level, side, v, true);
      SwapWith(e, node.level, side, v, false);
      EvalOneSide(nodes, id, With(e, v, true), side);
      EvalOneSide(nodes, id, With(e, v, false), side);
    }
  }

  lemma SwapWith(env: Assignment, v: nat, b: bool, w: nat, c: bool)
    requires v != w
    ensures With(With(env, v, b), w, c) == With(With(env, w, c), v, b)
  {
  }

  /** Walking the diagram finds exactly the variables its function depends on. */
  lemma SupportIsExact(nodes: seq<Node>, id: nat, v: nat)
    requires WellFormed(nodes) && id < |nodes|
    ensures v in Tested(nodes, id) <==> DependsOn(nodes, id, v)
  {
    if v in Tested(nodes, id) {
      var env := TestedDecides(nodes, id, v);
    } else {
      forall env: Assignment
        ensures Eval(nodes, id, With(env, v, true)) == Eval(nodes, id, With(env, v, false))
      {
        UntestedIsIrrelevant(nodes, id, v, env, true);
        UntestedIsIrrelevant(nodes, id, v, env, false);
      }
    }
  }

  /** A diagram tests nothing exactly when it is one of the two constants. */
  lemma TestsNothingIffTerminal(nodes: seq<Node>, id: nat)
    requires WellFormed(nodes) && id < |nodes|
    ensures Tested(nodes, id) == {} <==> id < 2
  {
    assert NodeOrdered(nodes, id);
    if id >= 2 {
      assert nodes[id].level in Tested(nodes, id);
    }
  }
}
