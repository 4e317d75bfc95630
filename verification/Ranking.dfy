/** `rank`: the open questions ordered by how many of their two answers settle the outcome, then by level. */
module Ranking {
  import opened Sorting
  import R = Rules

  datatype VarImpact = VarImpact(ifTrue: R.QueryOutcome, ifFalse: R.QueryOutcome)

  type Impacts = map<R.Unique, VarImpact>

  /** How many answers to `u` settle the outcome; a variable without an entry counts as two. */
  function SettlingAnswers(u: R.Unique, impact: Impacts): nat {
    if u in impact then
      (if impact[u].ifTrue.determined.Always? then 1 else 0) + (if impact[u].ifFalse.determined.Always? then 1 else 0)
    else 2
  }

  function LevelOf(u: R.Unique, index: map<R.Unique, nat>): nat {
    if u in index then index[u] else 1_000_000
  }

  /** `u` may stand before `w`. */
  predicate NotAfter(u: R.Unique, w: R.Unique, impact: Impacts, index: map<R.Unique, nat>) {
    var a, b := SettlingAnswers(u, impact), SettlingAnswers(w, impact);
    a > b || (a == b && LevelOf(u, index) <= LevelOf(w, index))
  }

  ghost predicate MayLead(u: R.Unique, xs: seq<R.Unique>, impact: Impacts, index: map<R.Unique, nat>) {
    forall x | x in xs :: NotAfter(u, x, impact, index)
  }

  /** Every element may stand before all that follow it. */
  ghost predicate Ranked(xs: seq<R.Unique>, impact: Impacts, index: map<R.Unique, nat>) {
    xs == [] || (MayLead(xs[0], xs[1..], impact, index) && Ranked(xs[1..], impact, index))
  }

  lemma LeadTransfers(u: R.Unique, xs: seq<R.Unique>, impact: Impacts, index: map<R.Unique, nat>)
    requires Ranked(xs, impact, index) && xs != [] && NotAfter(u, xs[0], impact, index)
    ensures MayLead(u, xs, impact, index)
  {
    assert xs == [xs[0]] + xs[1..];
    forall x | x in xs ensures NotAfter(u, x, impact, index) {
      assert x == xs[0] || NotAfter(xs[0], x, impact, index);
    }
  }

  function Insert(u: R.Unique, xs: seq<R.Unique>, impact: Impacts, index: map<R.Unique, nat>): (ys: seq<R.Unique>)
    requires Ranked(xs, impact, index)
    ensures Ranked(ys, impact, index)
    ensures multiset(ys) == multiset(xs) + multiset{u}
    ensures forall x :: x in ys <==> x == u || x in xs
  {
    if xs == [] then
      assert [u][1..] == [];
      [u]
    else if NotAfter(u, xs[0], impact, index) then
      LeadTransfers(u, xs, impact, index);
      assert ([u] + xs)[1..] == xs;
      [u] + xs
    else
      var rest := Insert(u, xs[1..], impact, index);
      assert xs == [xs[0]] + xs[1..];
      assert ([xs[0]] + rest)[1..] == rest;
      assert NotAfter(xs[0], u, impact, index);
      [xs[0]] + rest
  }

  function Rank(support: seq<R.Unique>, impact: Impacts, index: map<R.Unique, nat>): (ys: seq<R.Unique>)
    ensures Ranked(ys, impact, index)
    ensures multiset(ys) == multiset(support)
  {
    if support == [] then [] else
      assert support == [support[0]] + support[1..];
      Insert(support[0], Rank(support[1..], impact, index), impact, index)
  }

  lemma HeadTiesOrLeads(xs: seq<R.Unique>, x: R.Unique, impact: Impacts, index: map<R.Unique, nat>)
    requires Ranked(xs, impact, index) && x in xs
    ensures NotAfter(xs[0], x, impact, index)
  {
    assert xs == [xs[0]] + xs[1..];
  }

  /** With distinct levels there is one ranking, whatever the sorting algorithm and the order it starts from. */
  lemma {:induction false} RankingIsUnique(xs: seq<R.Unique>, ys: seq<R.Unique>, impact: Impacts,
                                           index: map<R.Unique, nat>)
    requires Ranked(xs, impact, index) && Ranked(ys, impact, index)
    requires multiset(xs) == multiset(ys)
    requires forall u, w | u in xs && w in xs && LevelOf(u, index) == LevelOf(w, index) :: u == w
    ensures xs == ys
    decreases |xs|
  {
    assert |xs| == |multiset(xs)| == |multiset(ys)| == |ys|;
    if xs != [] {
      assert xs[0] in multiset(ys) && ys[0] in multiset(xs);
      HeadTiesOrLeads(xs, ys[0], impact, index);
      HeadTiesOrLeads(ys, xs[0], impact, index);
      assert LevelOf(xs[0], index) == LevelOf(ys[0], index);
      assert xs == [xs[0]] + xs[1..] && ys == [ys[0]] + ys[1..];
      assert multiset(xs[1..]) == multiset(xs) - multiset{xs[0]};
      assert multiset(ys[1..]) == multiset(ys) - multiset{ys[0]};
      RankingIsUnique(xs[1..], ys[1..], impact, index);
    }
  }
}
