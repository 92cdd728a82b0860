/**
  What it means for facts to follow from other facts under a set of rules:
  a derivation is a sequence of rule ids, fired one after another, each of
  whose premises are among the starting facts and the conclusions of the
  rules before it. Both engines are measured against this notion.
 */
module Derivations {
  import opened Models

  /** Every premise of `r` is in `facts` (`set(rule.premises).issubset(facts)`). */
  predicate PremisesIn(r: Rule, facts: set<string>) {
    forall p :: p in r.premises ==> p in facts
  }

  /** The conclusions of the rules that `ids` names in `byId`. */
  function Conclusions(byId: map<int, Rule>, ids: seq<int>): (r: set<string>)
    ensures forall k :: 0 <= k < |ids| && ids[k] in byId ==> byId[ids[k]].conclusion in r
    ensures forall x :: x in r ==> exists k :: 0 <= k < |ids| && ids[k] in byId && byId[ids[k]].conclusion == x
  {
    if ids == [] then {}
    else
      var prefix := ids[..|ids| - 1];
      var last := ids[|ids| - 1];
      var c := Conclusions(byId, prefix);
      assert forall k :: 0 <= k < |prefix| ==> prefix[k] == ids[k];
      c + (if last in byId then {byId[last].conclusion} else {})
  }

  /**
    `ids` fires rules one after another from the facts `init`: each names
    a rule whose premises are among `init` and the conclusions of the
    rules fired before it.
   */
  predicate IsDerivation(byId: map<int, Rule>, init: set<string>, ids: seq<int>)
    decreases |ids|
  {
    ids == [] ||
      (var prefix := ids[..|ids| - 1];
       var last := ids[|ids| - 1];
       IsDerivation(byId, init, prefix) && last in byId
       && PremisesIn(byId[last], init + Conclusions(byId, prefix)))
  }

  /** Firing one more rule: when it extends a derivation, and what it adds. */
  lemma DerivationSnoc(byId: map<int, Rule>, init: set<string>, ids: seq<int>, id: int)
    ensures IsDerivation(byId, init, ids + [id]) <==>
      IsDerivation(byId, init, ids) && id in byId && PremisesIn(byId[id], init + Conclusions(byId, ids))
    ensures Conclusions(byId, ids + [id]) == Conclusions(byId, ids) + (if id in byId then {byId[id].conclusion} else {})
  {
    assert (ids + [id])[..|ids|] == ids;
  }

  /** Every prefix of a derivation is a derivation, and each step's premises come before it. */
  lemma {:induction false} DerivationAt(byId: map<int, Rule>, init: set<string>, ids: seq<int>, k: nat)
    requires IsDerivation(byId, init, ids) && k < |ids|
    ensures IsDerivation(byId, init, ids[..k + 1])
    ensures ids[k] in byId && PremisesIn(byId[ids[k]], init + Conclusions(byId, ids[..k]))
    decreases |ids|
  {
    if k + 1 < |ids| {
      var prefix := ids[..|ids| - 1];
      DerivationAt(byId, init, prefix, k);
      assert prefix[..k + 1] == ids[..k + 1] && prefix[..k] == ids[..k];
    } else {
      assert ids[..k + 1] == ids;
    }
  }

  /** Some derivation from `init` reaches every fact of `goals`. */
  ghost predicate Derivable(byId: map<int, Rule>, init: set<string>, goals: set<string>) {
    exists ids :: IsDerivation(byId, init, ids) && goals <= init + Conclusions(byId, ids)
  }

  /** No rule of `byId` whose premises are all in `facts` has its conclusion outside them. */
  predicate Closed(byId: map<int, Rule>, facts: set<string>) {
    forall id :: id in byId && PremisesIn(byId[id], facts) ==> byId[id].conclusion in facts
  }

  /** A derivation from inside a closed set of facts never leaves it. */
  lemma {:induction false} ClosedBounds(byId: map<int, Rule>, init: set<string>, facts: set<string>, ids: seq<int>)
    requires Closed(byId, facts) && init <= facts && IsDerivation(byId, init, ids)
    ensures init + Conclusions(byId, ids) <= facts
    decreases |ids|
  {
    if ids != [] {
      var prefix := ids[..|ids| - 1];
      var last := ids[|ids| - 1];
      ClosedBounds(byId, init, facts, prefix);
      DerivationSnoc(byId, init, prefix, last);
      assert prefix + [last] == ids;
    }
  }

  /** Goals outside a closed superset of the starting facts cannot be derived. */
  lemma ClosedNotDerivable(byId: map<int, Rule>, init: set<string>, facts: set<string>, goals: set<string>)
    requires Closed(byId, facts) && init <= facts && !(goals <= facts)
    ensures !Derivable(byId, init, goals)
  {
    forall ids | IsDerivation(byId, init, ids) ensures !(goals <= init + Conclusions(byId, ids)) {
      ClosedBounds(byId, init, facts, ids);
    }
  }
}
