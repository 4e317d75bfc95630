/**
 The hash-consed diagram of ts-shared/boolean-analysis/src/robdd.ts: a growing node table, a unique table
 and three memo tables. Every method is proved to compute what the unmemoised recursion of `Diagram`
 computes on the same table, down to the node table it leaves behind.
 */
module RobddTables {
  import opened Diagram
  import opened DiagramMeaning
  import opened MemoKeys

  // ----- What the tables may hold -----

  ghost predicate TableExact(nodes: seq<Node>, table: map<Node, nat>) {
    && (forall node | node in table :: node.Branch? && table[node] < |nodes| && nodes[table[node]] == node)
    && (forall id: nat | id < |nodes| && nodes[id].Branch? :: nodes[id] in table)
  }

  ghost predicate NegRecorded(nodes: seq<Node>, id: nat, res: nat)
    requires WellFormed(nodes)
  {
    id < |nodes| && PlainNeg(nodes, id) == Rooted(nodes, res)
  }

  ghost predicate ApplyRecorded(nodes: seq<Node>, op: Op, a: nat, b: nat, res: nat)
    requires WellFormed(nodes)
  {
    a < |nodes| && b < |nodes| && PlainApply(nodes, op, a, b) == Rooted(nodes, res)
  }

  ghost predicate RestrictRecorded(nodes: seq<Node>, id: nat, bindings: map<nat, bool>, res: nat)
    requires WellFormed(nodes)
  {
    id < |nodes| && PlainRestrict(nodes, id, bindings) == Rooted(nodes, res)
  }

  ghost predicate NegMemoExact(nodes: seq<Node>, memo: map<nat, nat>)
    requires WellFormed(nodes)
  {
    forall id | id in memo :: NegRecorded(nodes, id, memo[id])
  }

  ghost predicate ApplyMemoExact(nodes: seq<Node>, memo: map<(Op, nat, nat), nat>)
    requires WellFormed(nodes)
  {
    forall op, a, b | (op, a, b) in memo :: ApplyRecorded(nodes, op, a, b, memo[(op, a, b)])
  }

  ghost predicate RestrictMemoExact(nodes: seq<Node>, memo: map<string, nat>)
    requires WellFormed(nodes)
  {
    forall id: nat, bindings: map<nat, bool> | RestrictKey(id, bindings) in memo ::
      RestrictRecorded(nodes, id, bindings, memo[RestrictKey(id, bindings)])
  }

  // ----- Entries stay right while the node table grows -----

  lemma NegMemoGrows(nodes: seq<Node>, later: seq<Node>, memo: map<nat, nat>)
    requires WellFormed(nodes) && Grows(nodes, later) && NegMemoExact(nodes, memo)
    ensures NegMemoExact(later, memo)
  {
    forall id | id in memo ensures NegRecorded(later, id, memo[id]) {
      assert NegRecorded(nodes, id, memo[id]);
      NegStable(nodes, later, id);
    }
  }

  lemma ApplyMemoGrows(nodes: seq<Node>, later: seq<Node>, memo: map<(Op, nat, nat), nat>)
    requires WellFormed(nodes) && Grows(nodes, later) && ApplyMemoExact(nodes, memo)
    ensures ApplyMemoExact(later, memo)
  {
    forall op, a, b | (op, a, b) in memo ensures ApplyRecorded(later, op, a, b, memo[(op, a, b)]) {
      assert ApplyRecorded(nodes, op, a, b, memo[(op, a, b)]);
      ApplyStable(nodes, later, op, a, b);
    }
  }

  lemma RestrictMemoGrows(nodes: seq<Node>, later: seq<Node>, memo: map<string, nat>)
    requires WellFormed(nodes) && Grows(nodes, later) && RestrictMemoExact(nodes, memo)
    ensures RestrictMemoExact(later, memo)
  {
    forall id: nat, bindings: map<nat, bool> | RestrictKey(id, bindings) in memo
      ensures RestrictRecorded(later, id, bindings, memo[RestrictKey(id, bindings)])
    {
      assert RestrictRecorded(nodes, id, bindings, memo[RestrictKey(id, bindings)]);
      RestrictStable(nodes, later, id, bindings);
    }
  }

  // ----- A finished call may be recorded -----

  lemma NegMemoAdds(before: seq<Node>, nodes: seq<Node>, memo: map<nat, nat>, id: nat, res: nat)
    requires WellFormed(before) && WellFormed(nodes) && NegMemoExact(nodes, memo)
    requires id < |before| && PlainNeg(before, id) == Rooted(nodes, res)
    ensures NegMemoExact(nodes, memo[id := res])
  {
    NegStable(before, nodes, id);
    assert NegRecorded(nodes, id, res);
  }

  lemma ApplyMemoAdds(before: seq<Node>, nodes: seq<Node>, memo: map<(Op, nat, nat), nat>, op: Op, a: nat, b: nat,
                      res: nat)
    requires WellFormed(before) && WellFormed(nodes) && ApplyMemoExact(nodes, memo)
    requires a < |before| && b < |before| && PlainApply(before, op, a, b) == Rooted(nodes, res)
    ensures ApplyMemoExact(nodes, memo[(op, a, b) := res])
  {
    ApplyStable(before, nodes, op, a, b);
    assert ApplyRecorded(nodes, op, a, b, res);
  }

  lemma RestrictMemoAdds(before: seq<Node>, nodes: seq<Node>, memo: map<string, nat>, id: nat,
                         bindings: map<nat, bool>, key: string, res: nat)
    requires WellFormed(before) && WellFormed(nodes) && RestrictMemoExact(nodes, memo)
    requires id < |before| && PlainRestrict(before, id, bindings) == Rooted(nodes, res)
    requires key == RestrictKey(id, bindings)
    ensures RestrictMemoExact(nodes, memo[key := res])
  {
    RestrictStable(before, nodes, id, bindings);
    var more := memo[key := res];
    forall i: nat, b: map<nat, bool> | RestrictKey(i, b) in more
      ensures RestrictRecorded(nodes, i, b, more[RestrictKey(i, b)])
    {
      if RestrictKey(i, b) == RestrictKey(id, bindings) {
        RestrictKeyInjective(i, b, id, bindings);
      }
    }
  }

  lemma RestrictMemoHit(nodes: seq<Node>, memo: map<string, nat>, id: nat, bindings: map<nat, bool>, key: string)
    requires WellFormed(nodes) && RestrictMemoExact(nodes, memo)
    requires key == RestrictKey(id, bindings) && key in memo
    ensures id < |nodes| && PlainRestrict(nodes, id, bindings) == Rooted(nodes, memo[key])
  {
    assert RestrictRecorded(nodes, id, bindings, memo[RestrictKey(id, bindings)]);
  }

  // ----- Two recursive calls and one `mk` make one step of the plain recursion -----

  lemma NegJoins(before: seq<Node>, id: nat, l: Rooted, h: Rooted, r: Rooted)
    requires WellFormed(before) && id < |before| && before[id].Branch? && NodeOrdered(before, id)
    requires l == PlainNeg(before, before[id].low) && Result(before, l)
    requires h == PlainNeg(l.nodes, before[id].high) && Result(l.nodes, h)
    requires Above(h.nodes, before[id].level, l.id) && Above(h.nodes, before[id].level, h.id)
    requires r == PlainMk(h.nodes, before[id].level, l.id, h.id)
    ensures PlainNeg(before, id) == r
  {
  }

  lemma RestrictJoins(before: seq<Node>, id: nat, bindings: map<nat, bool>, l: Rooted, h: Rooted, r: Rooted)
    requires WellFormed(before) && 2 <= id < |before| && before[id].Branch? && NodeOrdered(before, id)
    requires bindings != map[] && before[id].level !in bindings
    requires l == PlainRestrict(before, before[id].low, bindings) && Result(before, l)
    requires h == PlainRestrict(l.nodes, before[id].high, bindings) && Result(l.nodes, h)
    requires Above(h.nodes, before[id].level, l.id) && Above(h.nodes, before[id].level, h.id)
    requires r == PlainMk(h.nodes, before[id].level, l.id, h.id)
    ensures PlainRestrict(before, id, bindings) == r
  {
  }

  class Robdd {
    var nodes: seq<Node>
    var uniqueTable: map<Node, nat>
    var negMemo: map<nat, nat>
    var applyMemo: map<(Op, nat, nat), nat>
    var restrictMemo: map<string, nat>

    ghost predicate Valid()
      reads this
    {
      && WellFormed(nodes)
      && TableExact(nodes, uniqueTable)
      && NegMemoExact(nodes, negMemo)
      && ApplyMemoExact(nodes, applyMemo)
      && RestrictMemoExact(nodes, restrictMemo)
    }

    constructor ()
      ensures Valid()
      ensures nodes == [Terminal(false), Terminal(true)]
    {
      nodes := [Terminal(false), Terminal(true)];
      uniqueTable, negMemo, applyMemo, restrictMemo := map[], map[], map[], map[];
    }

    /** The variable order is the caller's business: `level` must lie above both children. */
    method Mk(level: nat, low: nat, high: nat) returns (id: nat)
      requires Valid() && low < |nodes| && high < |nodes|
      requires Above(nodes, level, low) && Above(nodes, level, high)
      modifies this
      ensures Valid()
      ensures Rooted(nodes, id) == PlainMk(old(nodes), level, low, high)
    {
      if low == high {
        return low;
      }
      var key := Branch(level, low, high);
      if key in uniqueTable {
        id := uniqueTable[key];
        SameNodeSameId(nodes, id, PlainMk(nodes, level, low, high).id);
        return;
      }
      assert key !in nodes;
      id := |nodes|;
      AppendWellFormed(nodes, level, low, high);
      ghost var later := nodes + [key];
      NegMemoGrows(nodes, later, negMemo);
      ApplyMemoGrows(nodes, later, applyMemo);
      RestrictMemoGrows(nodes, later, restrictMemo);
      nodes := nodes + [key];
      uniqueTable := uniqueTable[key := id];
    }

    /** `var` */
    method Variable(level: nat) returns (id: nat)
      requires Valid()
      modifies this
      ensures Valid()
      ensures Rooted(nodes, id) == PlainMk(old(nodes), level, FALSE, TRUE)
    {
      id := Mk(level, FALSE, TRUE);
    }

    predicate IsTerminal(id: nat) {
      id == FALSE || id == TRUE
    }

    method Neg(id: nat) returns (res: nat)
      requires Valid() && id < |nodes|
      modifies this
      ensures Valid()
      ensures Rooted(nodes, res) == PlainNeg(old(nodes), id)
      // A call that is repeated is looked up and changes nothing.
      ensures id in negMemo && negMemo[id] == res
      ensures old(id in negMemo) ==> negMemo == old(negMemo) && nodes == old(nodes)
      decreases id
    {
      if id in negMemo {
        assert NegRecorded(nodes, id, negMemo[id]);
        return negMemo[id];
      }
      assert NodeOrdered(nodes, id);
      var node := nodes[id];
      match node {
        case Terminal(value) =>
          res := if value then FALSE else TRUE;
        case Branch(level, low, high) =>
          var l := Neg(low);
          ghost var nodes1 := nodes;
          var h := Neg(high);
          ghost var nodes2 := nodes;
          res := Mk(level, l, h);
          NegJoins(old(nodes), id, Rooted(nodes1, l), Rooted(nodes2, h), Rooted(nodes, res));
      }
      RememberNeg(old(nodes), id, res);
    }

    method RememberNeg(ghost before: seq<Node>, id: nat, res: nat)
      requires Valid() && WellFormed(before)
      requires id < |before| && PlainNeg(before, id) == Rooted(nodes, res)
      modifies this`negMemo
      ensures Valid() && negMemo == old(negMemo)[id := res]
    {
      NegMemoAdds(before, nodes, negMemo, id, res);
      negMemo := negMemo[id := res];
    }

    method Apply(op: Op, a: nat, b: nat) returns (res: nat)
      requires Valid() && a < |nodes| && b < |nodes|
      modifies this
      ensures Valid()
      ensures Rooted(nodes, res) == PlainApply(old(nodes), op, a, b)
      ensures a != b && !(IsTerminal(a) && IsTerminal(b)) ==> (op, a, b) in applyMemo && applyMemo[(op, a, b)] == res
      ensures old((op, a, b) in applyMemo) ==> applyMemo == old(applyMemo) && nodes == old(nodes)
      decreases a + b, 1
    {
      if a == b {
        return a;
      }
      if IsTerminal(a) && IsTerminal(b) {
        return if OpEval(op, a == TRUE, b == TRUE) then TRUE else FALSE;
      }
      var key := (op, a, b);
      if key in applyMemo {
        assert ApplyRecorded(nodes, op, a, b, applyMemo[(op, a, b)]);
        return applyMemo[key];
      }
      res := Expand(op, a, b);
      ApplyMemoAdds(old(nodes), nodes, applyMemo, op, a, b, res);
      applyMemo := applyMemo[key := res];
    }

    /** The part of `apply` behind its memo table: split on the smaller variable and join with `mk`. */
    method Expand(op: Op, a: nat, b: nat) returns (res: nat)
      requires Valid() && a < |nodes| && b < |nodes|
      requires a != b && !(IsTerminal(a) && IsTerminal(b))
      modifies this
      ensures Valid()
      ensures Rooted(nodes, res) == PlainApply(old(nodes), op, a, b)
      decreases a + b, 0
    {
      assert NodeOrdered(nodes, a) && NodeOrdered(nodes, b);
      var top := TopLevel(nodes, a, b);
      var aHigh, bHigh := Cofactor(nodes, a, top, true), Cofactor(nodes, b, top, true);
      var low := Apply(op, Cofactor(nodes, a, top, false), Cofactor(nodes, b, top, false));
      ghost var nodes1 := nodes;
      var high := Apply(op, aHigh, bHigh);
      ghost var nodes2 := nodes;
      assert ApplyHalves(old(nodes), op, a, b, top) == Halves(Rooted(nodes1, low), Rooted(nodes2, high));
      res := Mk(top, low, high);
    }

    method Restrict(id: nat, bindings: map<nat, bool>) returns (res: nat)
      requires Valid() && id < |nodes|
      modifies this
      ensures Valid()
      ensures Rooted(nodes, res) == PlainRestrict(old(nodes), id, bindings)
      ensures !IsTerminal(id) && bindings != map[] ==>
                RestrictKey(id, bindings) in restrictMemo && restrictMemo[RestrictKey(id, bindings)] == res
      ensures old(RestrictKey(id, bindings) in restrictMemo) ==>
                restrictMemo == old(restrictMemo) && nodes == old(nodes)
      decreases id, 1
    {
      if IsTerminal(id) || bindings == map[] {
        return id;
      }
      var key := RestrictKey(id, bindings);
      if key in restrictMemo {
        RestrictMemoHit(nodes, restrictMemo, id, bindings, key);
        return restrictMemo[key];
      }
      res := Descend(id, bindings);
      RememberRestrict(old(nodes), id, bindings, key, res);
    }

    method RememberRestrict(ghost before: seq<Node>, ghost id: nat, ghost bindings: map<nat, bool>, key: string,
                            res: nat)
      requires Valid() && WellFormed(before) && key == RestrictKey(id, bindings)
      requires id < |before| && PlainRestrict(before, id, bindings) == Rooted(nodes, res)
      modifies this`restrictMemo
      ensures Valid() && restrictMemo == old(restrictMemo)[key := res]
    {
      RestrictMemoAdds(before, nodes, restrictMemo, id, bindings, key, res);
      restrictMemo := restrictMemo[key := res];
    }

    /** The part of `restrict` behind its memo table. */
    method Descend(id: nat, bindings: map<nat, bool>) returns (res: nat)
      requires Valid() && id < |nodes|
      requires !IsTerminal(id) && bindings != map[]
      modifies this
      ensures Valid()
      ensures Rooted(nodes, res) == PlainRestrict(old(nodes), id, bindings)
      decreases id, 0
    {
      assert NodeOrdered(nodes, id);
      var node := nodes[id];
      if node.level in bindings {
        res := Restrict(if bindings[node.level] then node.high else node.low, bindings);
      } else {
        var low := Restrict(node.low, bindings);
        ghost var nodes1 := nodes;
        var high := Restrict(node.high, bindings);
        ghost var nodes2 := nodes;
        res := Mk(node.level, low, high);
        RestrictJoins(old(nodes), id, bindings, Rooted(nodes1, low), Rooted(nodes2, high), Rooted(nodes, res));
      }
    }

    /** `support`: a depth-first walk that enters every node once. */
    method Support(id: nat) returns (vars: set<nat>)
      requires Valid() && id < |nodes|
      ensures vars == Tested(nodes, id)
    {
      var visited;
      vars, visited := Go(id, {}, {});
    }

    /** The closure `go` of `support`, with its two captured sets passed along. A visited node that does
        not lie above `id` has its variables collected already: only ancestors of `id` are still open. */
    method Go(id: nat, vars: set<nat>, visited: set<nat>) returns (vars': set<nat>, visited': set<nat>)
      requires Valid() && id < |nodes|
      requires forall n | n in visited :: n < |nodes|
      requires forall n | n in visited && n <= id :: Tested(nodes, n) <= vars
      ensures vars' == vars + Tested(nodes, id)
      ensures visited <= visited'
      ensures forall n | n in visited' && n !in visited :: n <= id && Tested(nodes, n) <= vars'
      decreases id
    {
      assert NodeOrdered(nodes, id);
      if IsTerminal(id) || id in visited {
        return vars, visited;
      }
      var node := nodes[id];
      vars', visited' := vars + {node.level}, visited + {id};
      vars', visited' := Go(node.low, vars', visited');
      vars', visited' := Go(node.high, vars', visited');
    }
  }
}
