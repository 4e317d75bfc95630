/**
 Reduced ordered binary decision diagrams as plain values: the node table, the function
 each node denotes, and the diagram operations written as unmemoised recursions.
 The class `Robdd` (Robdd.dfy) runs the same operations with its unique table and memo tables and is
 proved to compute exactly these functions; what the diagrams mean is proved here.
 */
module Diagram {

  datatype Op = And | Or

  datatype Node = Terminal(value: bool) | Branch(level: nat, low: nat, high: nat)

  /** The variables that are true. */
  type Assignment = iset<nat>

  const FALSE: nat := 0
  const TRUE: nat := 1

  predicate OpEval(op: Op, a: bool, b: bool) {
    match op
    case And => a && b
    case Or => a || b
  }

  // ----- Well-formed node tables -----

  /** Node `id` tests no variable up to `level`. */
  ghost predicate Above(nodes: seq<Node>, level: nat, id: nat)
    requires id < |nodes|
  {
    nodes[id].Branch? ==> level < nodes[id].level
  }

  /** Children have smaller ids, variables increase downwards, and no node tests in vain. */
  ghost predicate NodeOrdered(nodes: seq<Node>, id: nat)
    requires id < |nodes|
  {
    nodes[id].Branch? ==>
      && nodes[id].low < id && nodes[id].high < id
      && nodes[id].low != nodes[id].high
      && Above(nodes, nodes[id].level, nodes[id].low)
      && Above(nodes, nodes[id].level, nodes[id].high)
  }

  ghost predicate Ordered(nodes: seq<Node>) {
    && |nodes| >= 2
    && nodes[FALSE] == Terminal(false)
    && nodes[TRUE] == Terminal(true)
    && (forall id {:trigger NodeOrdered(nodes, id)} :: 2 <= id < |nodes| ==>
      nodes[id].Branch? && NodeOrdered(nodes, id))
  }

  /** No earlier node equals node `id`. */
  ghost predicate NodeUnique(nodes: seq<Node>, id: nat)
    requires id < |nodes|
  {
    forall other: nat | other < id :: nodes[other] != nodes[id]
  }

  ghost predicate Unique(nodes: seq<Node>) {
    forall id {:trigger NodeUnique(nodes, id)} :: 0 <= id < |nodes| ==> NodeUnique(nodes, id)
  }

  ghost predicate WellFormed(nodes: seq<Node>) {
    Ordered(nodes) && Unique(nodes)
  }

  ghost predicate Grows(before: seq<Node>, after: seq<Node>) {
    before <= after && WellFormed(after)
  }

  /** The Boolean function node `id` denotes. */
  ghost predicate Eval(nodes: seq<Node>, id: nat, env: Assignment)
    requires Ordered(nodes) && id < |nodes|
    decreases id
  {
    assert NodeOrdered(nodes, id);
    match nodes[id]
    case Terminal(value) => value
    case Branch(level, low, high) =>
      if level in env then Eval(nodes, high, env) else Eval(nodes, low, env)
  }

  // ----- The operations, without memo tables -----

  /** A table together with a node of it. */
  datatype Rooted = Rooted(nodes: seq<Node>, id: nat)

  /** `r` is a node of a table that grew out of `before`. */
  ghost predicate Result(before: seq<Node>, r: Rooted) {
    Grows(before, r.nodes) && r.id < |r.nodes|
  }

  /** `r` tests nothing, or tests first a variable no smaller than the one node `id` tests. */
  ghost predicate StartsBelow(nodes: seq<Node>, id: nat, r: Rooted)
    requires id < |nodes| && r.id < |r.nodes|
  {
    r.nodes[r.id].Branch? ==> nodes[id].Branch? && nodes[id].level <= r.nodes[r.id].level
  }

  lemma AppendWellFormed(nodes: seq<Node>, level: nat, low: nat, high: nat)
    requires WellFormed(nodes) && low < |nodes| && high < |nodes| && low != high
    requires Above(nodes, level, low) && Above(nodes, level, high)
    requires Branch(level, low, high) !in nodes
    ensures WellFormed(nodes + [Branch(level, low, high)])
  {
    var after := nodes + [Branch(level, low, high)];
    forall id | 2 <= id < |after| ensures after[id].Branch? && NodeOrdered(after, id) {
      assert id < |nodes| ==> NodeOrdered(nodes, id);
    }
    forall id | 0 <= id < |after| ensures NodeUnique(after, id) {
      assert id < |nodes| ==> NodeUnique(nodes, id);
    }
  }

  /** A branch node occurs at one place only. */
  lemma SameNodeSameId(nodes: seq<Node>, a: nat, b: nat)
    requires WellFormed(nodes) && a < |nodes| && b < |nodes| && nodes[a] == nodes[b]
    ensures a == b
  {
    assert NodeUnique(nodes, a) && NodeUnique(nodes, b);
  }

  ghost function PlainMk(nodes: seq<Node>, level: nat, low: nat, high: nat): (r: Rooted)
    requires WellFormed(nodes) && low < |nodes| && high < |nodes|
    requires Above(nodes, level, low) && Above(nodes, level, high)
    ensures Result(nodes, r)
    ensures r.nodes[r.id].Branch? ==> level <= r.nodes[r.id].level
  {
    if low == high then
      Rooted(nodes, low)
    else if Branch(level, low, high) in nodes then
      var id: nat :| id < |nodes| && nodes[id] == Branch(level, low, high);
      Rooted(nodes, id)
    else
      AppendWellFormed(nodes, level, low, high);
      Rooted(nodes + [Branch(level, low, high)], |nodes|)
  }

  ghost function PlainNeg(nodes: seq<Node>, id: nat): (r: Rooted)
    requires WellFormed(nodes) && id < |nodes|
    ensures Result(nodes, r)
    ensures StartsBelow(nodes, id, r)
    decreases id
  {
    assert NodeOrdered(nodes, id);
    match nodes[id]
    case Terminal(value) => Rooted(nodes, if value then FALSE else TRUE)
    case Branch(level, low, high) =>
      var l := PlainNeg(nodes, low);
      var h := PlainNeg(l.nodes, high);
      PlainMk(h.nodes, level, l.id, h.id)
  }

  /** The variable an `apply` of `a` and `b` branches on: the smaller top variable. */
  function TopLevel(nodes: seq<Node>, a: nat, b: nat): (top: nat)
    requires a < |nodes| && b < |nodes| && (nodes[a].Branch? || nodes[b].Branch?)
    ensures nodes[a].Branch? ==> top <= nodes[a].level
    ensures nodes[b].Branch? ==> top <= nodes[b].level
    ensures (nodes[a].Branch? && nodes[a].level == top) || (nodes[b].Branch? && nodes[b].level == top)
  {
    if nodes[a].Terminal? then nodes[b].level
    else if nodes[b].Terminal? then nodes[a].level
    else if nodes[a].level <= nodes[b].level then nodes[a].level else nodes[b].level
  }

  /** Node `id` with variable `top` fixed to `side`. */
  function Cofactor(nodes: seq<Node>, id: nat, top: nat, side: bool): (c: nat)
    requires Ordered(nodes) && id < |nodes|
    requires nodes[id].Branch? ==> top <= nodes[id].level
    ensures c < |nodes| && c <= id && Above(nodes, top, c)
    ensures nodes[id].Branch? && nodes[id].level == top ==> c < id
  {
    assert NodeOrdered(nodes, id);
    if nodes[id].Branch? && nodes[id].level == top then
      (if side then nodes[id].high else nodes[id].low)
    else
      id
  }

  ghost function PlainApply(nodes: seq<Node>, op: Op, a: nat, b: nat): (r: Rooted)
    requires WellFormed(nodes) && a < |nodes| && b < |nodes|
    ensures Result(nodes, r)
    ensures StartsBelow(nodes, a, r) || StartsBelow(nodes, b, r)
    decreases a + b, 1
  {
    if a == b then
      Rooted(nodes, a)
    else if a < 2 && b < 2 then
      Rooted(nodes, if OpEval(op, a == TRUE, b == TRUE) then TRUE else FALSE)
    else
      assert NodeOrdered(nodes, a) && NodeOrdered(nodes, b);
      var top := TopLevel(nodes, a, b);
      var h := ApplyHalves(nodes, op, a, b, top);
      PlainMk(h.high.nodes, top, h.low.id, h.high.id)
  }

  /** The results for the two values of one variable; the second was computed on the table of the first. */
  datatype Halves = Halves(low: Rooted, high: Rooted)

  ghost predicate HalvesBelow(nodes: seq<Node>, top: nat, h: Halves) {
    && Result(nodes, h.low) && Result(h.low.nodes, h.high)
    && Above(h.high.nodes, top, h.low.id) && Above(h.high.nodes, top, h.high.id)
  }

  /** The two recursive calls of `PlainApply`. */
  ghost function ApplyHalves(nodes: seq<Node>, op: Op, a: nat, b: nat, top: nat): (h: Halves)
    requires WellFormed(nodes) && a < |nodes| && b < |nodes|
    requires (nodes[a].Branch? || nodes[b].Branch?) && top == TopLevel(nodes, a, b)
    ensures HalvesBelow(nodes, top, h)
    decreases a + b, 0
  {
    var low := PlainApply(nodes, op, Cofactor(nodes, a, top, false), Cofactor(nodes, b, top, false));
    var high := PlainApply(low.nodes, op, Cofactor(nodes, a, top, true), Cofactor(nodes, b, top, true));
    Halves(low, high)
  }

  ghost function PlainRestrict(nodes: seq<Node>, id: nat, bindings: map<nat, bool>): (r: Rooted)
    requires WellFormed(nodes) && id < |nodes|
    ensures Result(nodes, r)
    ensures StartsBelow(nodes, id, r)
    decreases id
  {
    if id < 2 || bindings == map[] then
      Rooted(nodes, id)
    else
      assert NodeOrdered(nodes, id);
      var node := nodes[id];
      if node.level in bindings then
        PlainRestrict(nodes, if bindings[node.level] then node.high else node.low, bindings)
      else
        var l := PlainRestrict(nodes, node.low, bindings);
        var h := PlainRestrict(l.nodes, node.high, bindings);
        PlainMk(h.nodes, node.level, l.id, h.id)
  }

  // ----- A table that already holds an answer gives it again and stays as it is -----

  lemma MkStable(nodes: seq<Node>, later: seq<Node>, level: nat, low: nat, high: nat)
    requires WellFormed(nodes) && low < |nodes| && high < |nodes|
    requires Above(nodes, level, low) && Above(nodes, level, high)
    requires Grows(PlainMk(nodes, level, low, high).nodes, later)
    ensures PlainMk(later, level, low, high) == Rooted(later, PlainMk(nodes, level, low, high).id)
  {
    if low != high {
      var r := PlainMk(nodes, level, low, high);
      assert r.nodes[r.id] == later[r.id];
      assert Branch(level, low, high) in later;
      SameNodeSameId(later, r.id, PlainMk(later, level, low, high).id);
    }
  }

  lemma {:induction false} NegStable(nodes: seq<Node>, later: seq<Node>, id: nat)
    requires WellFormed(nodes) && id < |nodes|
    requires Grows(PlainNeg(nodes, id).nodes, later)
    ensures PlainNeg(later, id) == Rooted(later, PlainNeg(nodes, id).id)
    decreases id
  {
    assert nodes[id] == later[id] && NodeOrdered(nodes, id);
    if nodes[id].Branch? {
      var l := PlainNeg(nodes, nodes[id].low);
      var h := PlainNeg(l.nodes, nodes[id].high);
      NegStable(nodes, later, nodes[id].low);
      NegStable(l.nodes, later, nodes[id].high);
      MkStable(h.nodes, later, nodes[id].level, l.id, h.id);
    }
  }

  lemma {:induction false} ApplyStable(nodes: seq<Node>, later: seq<Node>, op: Op, a: nat, b: nat)
    requires WellFormed(nodes) && a < |nodes| && b < |nodes|
    requires Grows(PlainApply(nodes, op, a, b).nodes, later)
    ensures PlainApply(later, op, a, b) == Rooted(later, PlainApply(nodes, op, a, b).id)
    decreases a + b, 1
  {
    assert nodes[a] == later[a] && nodes[b] == later[b];
    if a != b && !(a < 2 && b < 2) {
      assert NodeOrdered(nodes, a) && NodeOrdered(nodes, b);
      var top := TopLevel(nodes, a, b);
      var h := ApplyHalves(nodes, op, a, b, top);
      ApplyHalvesStable(nodes, later, op, a, b, top);
      MkStable(h.high.nodes, later, top, h.low.id, h.high.id);
    }
  }

  lemma {:induction false} ApplyHalvesStable(nodes: seq<Node>, later: seq<Node>, op: Op, a: nat, b: nat, top: nat)
    requires WellFormed(nodes) && a < |nodes| && b < |nodes|
    requires (nodes[a].Branch? || nodes[b].Branch?) && top == TopLevel(nodes, a, b)
    requires Grows(ApplyHalves(nodes, op, a, b, top).high.nodes, later)
    ensures top == TopLevel(later, a, b)
    ensures var h := ApplyHalves(nodes, op, a, b, top);
            ApplyHalves(later, op, a, b, top) == Halves(Rooted(later, h.low.id), Rooted(later, h.high.id))
    decreases a + b, 0
  {
    assert nodes[a] == later[a] && nodes[b] == later[b];
    var h := ApplyHalves(nodes, op, a, b, top);
    ApplyStable(nodes, later, op, Cofactor(nodes, a, top, false), Cofactor(nodes, b, top, false));
    ApplyStable(h.low.nodes, later, op, Cofactor(nodes, a, top, true), Cofactor(nodes, b, top, true));
  }

  lemma {:induction false} RestrictStable(nodes: seq<Node>, later: seq<Node>, id: nat, bindings: map<nat, bool>)
    requires WellFormed(nodes) && id < |nodes|
    requires Grows(PlainRestrict(nodes, id, bindings).nodes, later)
    ensures PlainRestrict(later, id, bindings) == Rooted(later, PlainRestrict(nodes, id, bindings).id)
    decreases id
  {
    assert nodes[id] == later[id] && NodeOrdered(nodes, id);
    if id >= 2 && bindings != map[] {
      var node := nodes[id];
      if node.level in bindings {
        RestrictStable(nodes, later, if bindings[node.level] then node.high else node.low, bindings);
      } else {
        var l := PlainRestrict(nodes, node.low, bindings);
        var h := PlainRestrict(l.nodes, node.high, bindings);
        RestrictStable(nodes, later, node.low, bindings);
        RestrictStable(l.nodes, later, node.high, bindings);
        MkStable(h.nodes, later, node.level, l.id, h.id);
      }
    }
  }
}
