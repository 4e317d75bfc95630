/**
 The string under which `ROBDD.restrict` memoises: the node id, a bar, and the bindings sorted by
 variable as `v=0` or `v=1` joined with commas. Two calls share a key only if they are the same call.
 */
module MemoKeys {
  import opened Decimals
  import opened Sorting

  // ----- Bindings -----

  /** `=1` or `=0`, and the remaining pairs after a comma. */
  function ValueAndRest(value: bool, last: bool, rest: string): string {
    (if value then "=1" else "=0") + (if last then "" else "," + rest)
  }

  /** The pairs `${v}=${b ? 1 : 0}` joined with commas. */
  function JoinPairs(vars: seq<nat>, bindings: map<nat, bool>): string
    requires forall v | v in vars :: v in bindings
  {
    if vars == [] then ""
    else Decimal(vars[0]) + ValueAndRest(bindings[vars[0]], |vars| == 1, JoinPairs(vars[1..], bindings))
  }

  lemma ValueAndRestInjective(b: bool, last: bool, rest: string, b': bool, last': bool, rest': string)
    requires ValueAndRest(b, last, rest) == ValueAndRest(b', last', rest')
    ensures b == b' && last == last' && (!last ==> rest == rest')
  {
    var s, t := ValueAndRest(b, last, rest), ValueAndRest(b', last', rest');
    assert s[1] == (if b then '1' else '0') && t[1] == (if b' then '1' else '0');
    assert |s| == 2 <==> last;
    assert |t| == 2 <==> last';
    assert !last ==> s[3..] == rest;
    assert !last' ==> t[3..] == rest';
  }

  function SortedKeys(bindings: map<nat, bool>): (vars: seq<nat>)
    ensures forall v: nat :: v in vars <==> v in bindings
  {
    var keys: set<int> := set v | v in bindings.Keys;
    var vars := SortedSeq(keys);
    assert forall v :: v in vars <==> v in Elements(vars);
    vars
  }

  /** `bindingsKey` */
  function BindingsKey(bindings: map<nat, bool>): string {
    JoinPairs(SortedKeys(bindings), bindings)
  }

  /** The key of `restrict(id, bindings)` in the memo table. */
  function RestrictKey(id: nat, bindings: map<nat, bool>): string {
    Decimal(id) + ("|" + BindingsKey(bindings))
  }

  lemma {:induction false} JoinPairsInjective(vs: seq<nat>, b: map<nat, bool>, ws: seq<nat>, c: map<nat, bool>)
    requires forall v | v in vs :: v in b
    requires forall w | w in ws :: w in c
    requires JoinPairs(vs, b) == JoinPairs(ws, c)
    ensures vs == ws && forall v | v in vs :: b[v] == c[v]
    decreases |vs|
  {
    assert vs == [] <==> JoinPairs(vs, b) == "";
    assert ws == [] <==> JoinPairs(ws, c) == "";
    if vs != [] && ws != [] {
      var s := ValueAndRest(b[vs[0]], |vs| == 1, JoinPairs(vs[1..], b));
      var t := ValueAndRest(c[ws[0]], |ws| == 1, JoinPairs(ws[1..], c));
      assert s[0] == '=' && t[0] == '=';
      DecimalThenRest(vs[0], s, ws[0], t);
      ValueAndRestInjective(b[vs[0]], |vs| == 1, JoinPairs(vs[1..], b), c[ws[0]], |ws| == 1, JoinPairs(ws[1..], c));
      if |vs| > 1 {
        JoinPairsInjective(vs[1..], b, ws[1..], c);
      }
      assert vs == [vs[0]] + vs[1..] && ws == [ws[0]] + ws[1..];
    }
  }

  lemma SameKeysSameValues(vs: seq<nat>, b: map<nat, bool>, c: map<nat, bool>)
    requires forall v: nat :: v in vs <==> v in b
    requires forall v: nat :: v in vs <==> v in c
    requires forall v | v in vs :: b[v] == c[v]
    ensures b == c
  {
    assert b.Keys == c.Keys;
  }

  lemma BindingsKeyInjective(b: map<nat, bool>, c: map<nat, bool>)
    requires BindingsKey(b) == BindingsKey(c)
    ensures b == c
  {
    var vs, ws := SortedKeys(b), SortedKeys(c);
    JoinPairsInjective(vs, b, ws, c);
    SameKeysSameValues(vs, b, c);
  }

  /** Distinct calls of `restrict` have distinct memo keys. */
  lemma RestrictKeyInjective(i: nat, b: map<nat, bool>, j: nat, c: map<nat, bool>)
    requires RestrictKey(i, b) == RestrictKey(j, c)
    ensures i == j && b == c
  {
    DecimalThenRest(i, "|" + BindingsKey(b), j, "|" + BindingsKey(c));
    assert BindingsKey(b) == ("|" + BindingsKey(b))[1..] == ("|" + BindingsKey(c))[1..] == BindingsKey(c);
    BindingsKeyInjective(b, c);
  }
}
