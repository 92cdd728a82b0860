/**
  Backward chaining. To prove a goal: it holds if it is a known fact; it
  fails if it is already being proven (a cycle) or if no rule concludes
  it; otherwise the rules concluding it are tried in id order, each by
  proving its premises in turn, and the first rule whose premises all
  hold adds the goal to the known facts and its id to the used rules.
  Facts proven along a failed attempt stay known. The goals are proven one
  after another, and the run stops at the first that fails.
 */
module Backward {
  import opened Strings
  import opened Seqs
  import opened Results
  import opened Models
  import opened Knowledge
  import opened Derivations
  import opened Forward
  import opened Utils

  // ---------------------------------------------------------------------
  // Rules by conclusion
  // ---------------------------------------------------------------------

  /** The rules concluding `goal`, in rule order: the list `_build_lookup` files under `goal`. */
  function Concluding(rules: seq<Rule>, goal: string): (r: seq<Rule>)
    ensures forall x :: x in r <==> x in rules && x.conclusion == goal
  {
    if rules == [] then []
    else
      var prefix := rules[..|rules| - 1];
      var last := rules[|rules| - 1];
      assert rules == prefix + [last];
      Concluding(prefix, goal) + (if last.conclusion == goal then [last] else [])
  }

  /** The atoms some rule concludes: the goals for which a rule is tried. */
  function ConclusionSet(rules: seq<Rule>): set<string> {
    set r | r in rules :: r.conclusion
  }

  /** A goal with a concluding rule is a conclusion. */
  lemma ConcludingIn(rules: seq<Rule>, goal: string)
    requires Concluding(rules, goal) != []
    ensures goal in ConclusionSet(rules)
  {
    var r := Concluding(rules, goal)[0];
    assert r in Concluding(rules, goal);
  }

  /** Scanning one more rule files it under its conclusion. */
  lemma ConcludingSnoc(rules: seq<Rule>, i: nat, goal: string)
    requires i < |rules|
    ensures Concluding(rules[..i + 1], goal) ==
      Concluding(rules[..i], goal) + (if rules[i].conclusion == goal then [rules[i]] else [])
  {
    assert rules[..i + 1][..i] == rules[..i];
  }

  /** `m` files each atom under the rules concluding it, and has no entry for an atom no rule concludes. */
  ghost predicate Files(m: map<string, seq<Rule>>, rules: seq<Rule>) {
    forall g :: (g in m ==> m[g] == Concluding(rules, g)) && (g !in m ==> Concluding(rules, g) == [])
  }

  /** Filing one more rule under its conclusion. */
  lemma FilesSnoc(m: map<string, seq<Rule>>, rules: seq<Rule>, i: nat)
    requires i < |rules| && Files(m, rules[..i])
    ensures var c := rules[i].conclusion;
      Files(m[c := (if c in m then m[c] else []) + [rules[i]]], rules[..i + 1])
  {
    var c := rules[i].conclusion;
    var m' := m[c := (if c in m then m[c] else []) + [rules[i]]];
    forall g ensures (g in m' ==> m'[g] == Concluding(rules[..i + 1], g)) && (g !in m' ==> Concluding(rules[..i + 1], g) == []) {
      ConcludingSnoc(rules, i, g);
    }
  }

  /**
    `_build_lookup`: each conclusion mapped to the rules concluding it, in
    rule order; an atom no rule concludes has no entry.
   */
  method BuildLookup(rules: seq<Rule>) returns (m: map<string, seq<Rule>>)
    ensures Files(m, rules)
  {
    m := map[];
    var i := 0;
    while i < |rules|
      invariant i <= |rules| && Files(m, rules[..i])
    {
      var rule := rules[i];
      var filed := if rule.conclusion in m then m[rule.conclusion] else [];
      FilesSnoc(m, rules, i);
      m := m[rule.conclusion := filed + [rule]];
      i := i + 1;
    }
    assert rules[..i] == rules;
  }

  // ---------------------------------------------------------------------
  // Candidate order
  // ---------------------------------------------------------------------

  /** Minus the id: sorting by it ascending sorts by id descending. */
  function NegId(r: Rule): int {
    -r.id
  }

  /**
    `sorted(candidates, key=id, reverse=(mode == "max"))`. Python's
    reverse sort is stable, which is a stable sort by minus the id.
   */
  function OrderRules(candidates: seq<Rule>, mode: IndexMode): (r: seq<Rule>)
    ensures multiset(r) == multiset(candidates)
    ensures DistinctKeys(candidates, RuleId) && mode == Min ==> StrictlyAscending(r, RuleId)
    ensures DistinctKeys(candidates, RuleId) && mode == Max ==> StrictlyDescending(r, RuleId)
  {
    if mode == Min then
      assert DistinctKeys(candidates, RuleId) ==> StrictlyAscending(SortBy(candidates, RuleId), RuleId) by {
        if DistinctKeys(candidates, RuleId) {
          SortByStrict(candidates, RuleId);
        }
      }
      SortBy(candidates, RuleId)
    else
      var down := SortBy(candidates, NegId);
      assert DistinctKeys(candidates, RuleId) ==> StrictlyDescending(down, RuleId) by {
        if DistinctKeys(candidates, RuleId) {
          assert DistinctKeys(candidates, NegId);
          SortByStrict(candidates, NegId);
        }
      }
      down
  }

  /** The rules of a knowledge base have distinct ids, so so do the candidates for any goal. */
  lemma {:induction false} ConcludingUnique(rules: seq<Rule>, goal: string)
    requires UniqueIds(rules)
    ensures DistinctKeys(Concluding(rules, goal), RuleId)
  {
    if rules != [] {
      var prefix := rules[..|rules| - 1];
      var last := rules[|rules| - 1];
      assert UniqueIds(prefix) by {
        assert forall k :: 0 <= k < |prefix| ==> prefix[k] == rules[k];
      }
      ConcludingUnique(prefix, goal);
      var c := Concluding(prefix, goal);
      forall x | x in c ensures x.id != last.id {
        var k :| 0 <= k < |prefix| && prefix[k] == x;
        assert rules[k] == x;
      }
      if last.conclusion == goal {
        forall i, j | 0 <= i < j < |c + [last]| ensures RuleId((c + [last])[i]) != RuleId((c + [last])[j]) {
          if j == |c| {
            assert (c + [last])[i] in c;
          }
        }
      }
    }
  }

  // ---------------------------------------------------------------------
  // The search, as functions of its state
  // ---------------------------------------------------------------------

  /** What every `prove` call shares: the rules in id order and the index mode. */
  datatype Setup = Setup(rules: seq<Rule>, mode: IndexMode)

  /** The state `prove` updates: `known`, `visiting`, `used_rules` and `steps`. */
  datatype BState = BState(known: set<string>, visiting: set<string>, used: seq<int>, steps: seq<Event>)

  /** What a call returns, with the state it leaves. */
  datatype Attempt = Attempt(proved: bool, st: BState)

  /** `steps.append(e)`. */
  function Log(st: BState, e: Event): BState {
    st.(steps := st.steps + [e])
  }

  /**
    `prove(goal, depth)`: a known goal holds; a goal being proven already
    is a cycle and a goal no rule concludes fails; any other goal is
    explored. Every call leaves `visiting` as it found it.
   */
  function ProveGoal(s: Setup, st: BState, goal: string, depth: nat): (r: Attempt)
    ensures r.st.visiting == st.visiting
    decreases |ConclusionSet(s.rules) - st.visiting|, 1, 0, 0
  {
    if goal in st.known then Attempt(true, Log(st, AlreadyKnown(goal, depth)))
    else if goal in st.visiting then Attempt(false, Log(st, CycleDetected(goal, depth)))
    else if Concluding(s.rules, goal) == [] then Attempt(false, Log(st, NoRuleFor(goal, depth)))
    else Explore(s, st, goal, depth)
  }

  /**
    The rest of `prove` for a goal with candidate rules: the goal is marked
    as visiting while its candidates are tried in order, and unmarked
    afterwards; a failure is noted.
   */
  function Explore(s: Setup, st: BState, goal: string, depth: nat): (r: Attempt)
    requires goal !in st.visiting && Concluding(s.rules, goal) != []
    ensures r.st.visiting == st.visiting
    decreases |ConclusionSet(s.rules) - st.visiting|, 0, 0, 0
  {
    var ordered := OrderRules(Concluding(s.rules, goal), s.mode);
    var st1 := Log(st.(visiting := st.visiting + {goal}), Considering(goal, |ordered|, s.mode, depth));
    ConcludingIn(s.rules, goal);
    assert |ConclusionSet(s.rules) - st1.visiting| < |ConclusionSet(s.rules) - st.visiting| by {
      assert ConclusionSet(s.rules) - st.visiting == (ConclusionSet(s.rules) - st1.visiting) + {goal};
    }
    var r := TryRules(s, st1, goal, depth, ordered);
    var st2 := r.st.(visiting := r.st.visiting - {goal});
    if r.proved then Attempt(true, st2)
    else Attempt(false, Log(st2, NotProved(goal, depth)))
  }

  /** What `Explore` returns, in terms of trying the ordered candidates from the marked state. */
  lemma ExploreTries(s: Setup, st: BState, goal: string, depth: nat, ordered: seq<Rule>, st1: BState)
    requires goal !in st.visiting && Concluding(s.rules, goal) != []
    requires ordered == OrderRules(Concluding(s.rules, goal), s.mode)
    requires st1 == Log(st.(visiting := st.visiting + {goal}), Considering(goal, |ordered|, s.mode, depth))
    ensures var r := TryRules(s, st1, goal, depth, ordered);
      var st2 := r.st.(visiting := r.st.visiting - {goal});
      Explore(s, st, goal, depth) == if r.proved then Attempt(true, st2) else Attempt(false, Log(st2, NotProved(goal, depth)))
  {
  }

  /**
    The loop over the ordered candidate rules: each is announced and its
    premises are proven; the first whose premises all hold adds the goal
    to the known facts and its id to the used rules.
   */
  function TryRules(s: Setup, st: BState, goal: string, depth: nat, rules: seq<Rule>): (r: Attempt)
    ensures r.st.visiting == st.visiting
    decreases |ConclusionSet(s.rules) - st.visiting|, 2, |rules|, 0
  {
    if rules == [] then Attempt(false, st)
    else
      var rule := rules[0];
      var p := ProvePremises(s, Log(st, TryRule(rule.id, DefaultText(rule), depth)), rule.id, depth, rule.premises);
      if p.proved then
        Attempt(true, Log(p.st.(known := p.st.known + {goal}, used := p.st.used + [rule.id]), ProvedBy(goal, rule.id, depth)))
      else TryRules(s, p.st, goal, depth, rules[1..])
  }

  /**
    The loop over a rule's premises, in declared order: each is announced
    and proven one level deeper, and the first that fails ends the loop
    with a note that the rule is dropped.
   */
  function ProvePremises(s: Setup, st: BState, ruleId: int, depth: nat, premises: seq<string>): (r: Attempt)
    ensures r.st.visiting == st.visiting
    decreases |ConclusionSet(s.rules) - st.visiting|, 2, 0, |premises|
  {
    if premises == [] then Attempt(true, st)
    else
      var premise := premises[0];
      var q := ProveGoal(s, Log(st, ProvePremise(premise, depth)), premise, depth + 2);
      if !q.proved then Attempt(false, Log(q.st, PremiseFailed(premise, ruleId, depth)))
      else ProvePremises(s, q.st, ruleId, depth, premises[1..])
  }

  /**
    The loop over the top-level goals: a goal known already is skipped,
    the others are proven at depth 1, and the first failure ends the loop.
    `proved` is false exactly when some goal failed.
   */
  function ProveGoals(s: Setup, st: BState, goals: seq<string>): (r: Attempt)
    ensures r.st.visiting == st.visiting
    decreases |goals|
  {
    if goals == [] then Attempt(true, st)
    else
      var goal := goals[0];
      if goal in st.known then ProveGoals(s, Log(st, GoalHeld(goal)), goals[1..])
      else
        var q := ProveGoal(s, Log(st, GoalStarted(goal)), goal, 1);
        if !q.proved then Attempt(false, Log(q.st, GoalFailed(goal)))
        else ProveGoals(s, Log(q.st, GoalDone(goal)), goals[1..])
  }

  // ---------------------------------------------------------------------
  // What the search keeps
  // ---------------------------------------------------------------------

  /** Marking a goal with candidate rules as visiting leaves fewer conclusions to mark. */
  lemma Shrinks(s: Setup, visiting: set<string>, goal: string)
    requires goal !in visiting && Concluding(s.rules, goal) != []
    ensures |ConclusionSet(s.rules) - (visiting + {goal})| < |ConclusionSet(s.rules) - visiting|
  {
    ConcludingIn(s.rules, goal);
    assert ConclusionSet(s.rules) - visiting == (ConclusionSet(s.rules) - (visiting + {goal})) + {goal};
  }

  /** `b` is `a` after more work: known facts are never dropped, and used rules and steps are only appended. */
  predicate Extends(a: BState, b: BState) {
    a.known <= b.known && a.used <= b.used && a.steps <= b.steps
  }

  /**
    A `prove` call only adds facts, none of them a goal that was being
    proven when it started, and it returns true exactly when its goal is
    known afterwards.
   */
  lemma {:induction false} ProveGoalGrows(s: Setup, st: BState, goal: string, depth: nat)
    ensures var r := ProveGoal(s, st, goal, depth);
      Extends(st, r.st) && (r.st.known - st.known) !! st.visiting && (r.proved <==> goal in r.st.known)
    decreases |ConclusionSet(s.rules) - st.visiting|, 1, 0, 0
  {
    if goal !in st.known && goal !in st.visiting && Concluding(s.rules, goal) != [] {
      ExploreGrows(s, st, goal, depth);
    }
  }

  /** Exploring an unknown goal: it is known afterwards exactly when the exploration succeeded. */
  lemma {:induction false} ExploreGrows(s: Setup, st: BState, goal: string, depth: nat)
    requires goal !in st.known && goal !in st.visiting && Concluding(s.rules, goal) != []
    ensures var r := Explore(s, st, goal, depth);
      Extends(st, r.st) && (r.st.known - st.known) !! st.visiting && (r.proved <==> goal in r.st.known)
    decreases |ConclusionSet(s.rules) - st.visiting|, 0, 0, 0
  {
    var ordered := OrderRules(Concluding(s.rules, goal), s.mode);
    var st1 := Log(st.(visiting := st.visiting + {goal}), Considering(goal, |ordered|, s.mode, depth));
    Shrinks(s, st.visiting, goal);
    TryRulesGrows(s, st1, goal, depth, ordered);
    var r := TryRules(s, st1, goal, depth, ordered);
    var st2 := r.st.(visiting := r.st.visiting - {goal});
    assert Explore(s, st, goal, depth) == if r.proved then Attempt(true, st2) else Attempt(false, Log(st2, NotProved(goal, depth)));
  }

  /**
    Trying the candidates of a goal being proven: a success makes the goal
    known, a failure leaves an unknown goal unknown, and no other goal
    being proven becomes known.
   */
  lemma {:induction false} TryRulesGrows(s: Setup, st: BState, goal: string, depth: nat, rules: seq<Rule>)
    requires goal in st.visiting
    ensures var r := TryRules(s, st, goal, depth, rules);
      && Extends(st, r.st) && (r.st.known - st.known) !! (st.visiting - {goal})
      && (r.proved ==> goal in r.st.known)
      && (!r.proved && goal !in st.known ==> goal !in r.st.known)
    decreases |ConclusionSet(s.rules) - st.visiting|, 2, |rules|, 0
  {
    if rules != [] {
      var rule := rules[0];
      var st1 := Log(st, TryRule(rule.id, DefaultText(rule), depth));
      PremisesGrows(s, st1, rule.id, depth, rule.premises);
      var p := ProvePremises(s, st1, rule.id, depth, rule.premises);
      if !p.proved {
        TryRulesGrows(s, p.st, goal, depth, rules[1..]);
      }
    }
  }

  /** Proving a rule's premises: a success leaves every premise known. */
  lemma {:induction false} PremisesGrows(s: Setup, st: BState, ruleId: int, depth: nat, premises: seq<string>)
    ensures var r := ProvePremises(s, st, ruleId, depth, premises);
      && Extends(st, r.st) && (r.st.known - st.known) !! st.visiting
      && (r.proved ==> forall p :: p in premises ==> p in r.st.known)
    decreases |ConclusionSet(s.rules) - st.visiting|, 2, 0, |premises|
  {
    if premises != [] {
      var st1 := Log(st, ProvePremise(premises[0], depth));
      ProveGoalGrows(s, st1, premises[0], depth + 2);
      var q := ProveGoal(s, st1, premises[0], depth + 2);
      if q.proved {
        PremisesGrows(s, q.st, ruleId, depth, premises[1..]);
        assert forall p :: p in premises ==> p == premises[0] || p in premises[1..];
      }
    }
  }

  // ---------------------------------------------------------------------
  // Soundness
  // ---------------------------------------------------------------------

  /**
    The bookkeeping of a search from `init` is a derivation: the used rules
    fire in order, none twice, and the known facts are exactly `init` and
    their conclusions.
   */
  predicate Sound(s: Setup, init: set<string>, st: BState) {
    SoundRecord(IndexById(s.rules), init, st.known, st.used)
  }

  /** `used` is a repeat-free derivation from `init` under `byId`, and `known` is what it reaches. */
  predicate SoundRecord(byId: map<int, Rule>, init: set<string>, known: set<string>, used: seq<int>) {
    IsDerivation(byId, init, used) && known == init + Conclusions(byId, used) && Distinct(used)
  }

  /** Using a rule of the setup whose premises are known and whose conclusion is not keeps the bookkeeping a derivation. */
  lemma UseRuleSound(s: Setup, init: set<string>, st: BState, rule: Rule)
    requires UniqueIds(s.rules) && Sound(s, init, st) && rule in s.rules
    requires PremisesIn(rule, st.known) && rule.conclusion !in st.known
    ensures Sound(s, init, st.(known := st.known + {rule.conclusion}, used := st.used + [rule.id]))
  {
    var byId := IndexById(s.rules);
    var used := st.used + [rule.id];
    assert rule.id in byId && byId[rule.id] == rule by {
      var k :| 0 <= k < |s.rules| && s.rules[k] == rule;
      IndexUnique(s.rules, k);
    }
    DerivationSnoc(byId, init, st.used, rule.id);
    assert IsDerivation(byId, init, used);
    assert st.known + {rule.conclusion} == init + Conclusions(byId, used);
    assert rule.id !in st.used by {
      forall j | 0 <= j < |st.used| ensures st.used[j] != rule.id {
        DerivationAt(byId, init, st.used, j);
      }
    }
    DistinctSnoc(st.used, rule.id);
  }

  /** The ordered candidates for a goal are rules of the setup concluding it. */
  lemma OrderedConclude(s: Setup, goal: string)
    ensures forall x :: x in OrderRules(Concluding(s.rules, goal), s.mode) ==> x in s.rules && x.conclusion == goal
  {
    var ordered := OrderRules(Concluding(s.rules, goal), s.mode);
    forall x | x in ordered ensures x in s.rules && x.conclusion == goal {
      assert x in multiset(ordered);
    }
  }

  /** A `prove` call keeps the bookkeeping a derivation. */
  lemma {:induction false} ProveGoalSound(s: Setup, init: set<string>, st: BState, goal: string, depth: nat)
    requires UniqueIds(s.rules) && Sound(s, init, st)
    ensures Sound(s, init, ProveGoal(s, st, goal, depth).st)
    decreases |ConclusionSet(s.rules) - st.visiting|, 1, 0, 0
  {
    if goal !in st.known && goal !in st.visiting && Concluding(s.rules, goal) != [] {
      ExploreSound(s, init, st, goal, depth);
    }
  }

  /** Exploring an unknown goal keeps the bookkeeping a derivation. */
  lemma {:induction false} ExploreSound(s: Setup, init: set<string>, st: BState, goal: string, depth: nat)
    requires UniqueIds(s.rules) && Sound(s, init, st)
    requires goal !in st.known && goal !in st.visiting && Concluding(s.rules, goal) != []
    ensures Sound(s, init, Explore(s, st, goal, depth).st)
    decreases |ConclusionSet(s.rules) - st.visiting|, 0, 0, 0
  {
    var ordered := OrderRules(Concluding(s.rules, goal), s.mode);
    var st1 := Log(st.(visiting := st.visiting + {goal}), Considering(goal, |ordered|, s.mode, depth));
    Shrinks(s, st.visiting, goal);
    OrderedConclude(s, goal);
    TryRulesSound(s, init, st1, goal, depth, ordered);
    var r := TryRules(s, st1, goal, depth, ordered);
    var st2 := r.st.(visiting := r.st.visiting - {goal});
    assert Explore(s, st, goal, depth) == if r.proved then Attempt(true, st2) else Attempt(false, Log(st2, NotProved(goal, depth)));
  }

  /** Trying rules that conclude an unknown goal being proven keeps the bookkeeping a derivation. */
  lemma {:induction false} TryRulesSound(s: Setup, init: set<string>, st: BState, goal: string, depth: nat, rules: seq<Rule>)
    requires UniqueIds(s.rules) && Sound(s, init, st)
    requires goal in st.visiting && goal !in st.known
    requires forall x :: x in rules ==> x in s.rules && x.conclusion == goal
    ensures Sound(s, init, TryRules(s, st, goal, depth, rules).st)
    decreases |ConclusionSet(s.rules) - st.visiting|, 2, |rules|, 0
  {
    if rules != [] {
      var rule := rules[0];
      var st1 := Log(st, TryRule(rule.id, DefaultText(rule), depth));
      PremisesSound(s, init, st1, rule.id, depth, rule.premises);
      PremisesGrows(s, st1, rule.id, depth, rule.premises);
      var p := ProvePremises(s, st1, rule.id, depth, rule.premises);
      if p.proved {
        UseRuleSound(s, init, p.st, rule);
      } else {
        TryRulesSound(s, init, p.st, goal, depth, rules[1..]);
      }
    }
  }

  /** Proving premises keeps the bookkeeping a derivation. */
  lemma {:induction false} PremisesSound(s: Setup, init: set<string>, st: BState, ruleId: int, depth: nat, premises: seq<string>)
    requires UniqueIds(s.rules) && Sound(s, init, st)
    ensures Sound(s, init, ProvePremises(s, st, ruleId, depth, premises).st)
    decreases |ConclusionSet(s.rules) - st.visiting|, 2, 0, |premises|
  {
    if premises != [] {
      var st1 := Log(st, ProvePremise(premises[0], depth));
      ProveGoalSound(s, init, st1, premises[0], depth + 2);
      var q := ProveGoal(s, st1, premises[0], depth + 2);
      if q.proved {
        PremisesSound(s, init, q.st, ruleId, depth, premises[1..]);
      }
    }
  }

  /** Each rule the search uses concludes the goal it was tried for, from premises known at that point. */
  lemma {:induction false} TryRulesUses(s: Setup, st: BState, goal: string, depth: nat, rules: seq<Rule>)
    ensures var r := TryRules(s, st, goal, depth, rules);
      r.proved ==> |r.st.used| > 0 && exists x :: x in rules && x.id == r.st.used[|r.st.used| - 1] && PremisesIn(x, r.st.known)
    decreases |rules|
  {
    if rules != [] {
      var rule := rules[0];
      var st1 := Log(st, TryRule(rule.id, DefaultText(rule), depth));
      PremisesGrows(s, st1, rule.id, depth, rule.premises);
      var p := ProvePremises(s, st1, rule.id, depth, rule.premises);
      if !p.proved {
        TryRulesUses(s, p.st, goal, depth, rules[1..]);
        var r := TryRules(s, p.st, goal, depth, rules[1..]);
        if r.proved {
          var x :| x in rules[1..] && x.id == r.st.used[|r.st.used| - 1] && PremisesIn(x, r.st.known);
          assert x in rules;
        }
      }
    }
  }

  /** The candidates of a goal, in the order they are tried: ascending ids for `min`, descending for `max`. */
  lemma CandidateOrder(s: Setup, goal: string)
    requires UniqueIds(s.rules)
    ensures var ordered := OrderRules(Concluding(s.rules, goal), s.mode);
      && (forall x :: x in ordered <==> x in s.rules && x.conclusion == goal)
      && (s.mode == Min ==> StrictlyAscending(ordered, RuleId))
      && (s.mode == Max ==> StrictlyDescending(ordered, RuleId))
  {
    var ordered := OrderRules(Concluding(s.rules, goal), s.mode);
    ConcludingUnique(s.rules, goal);
    forall x ensures x in ordered <==> x in Concluding(s.rules, goal) {
      assert x in ordered <==> x in multiset(ordered);
    }
  }

  /**
    The three ways `prove` answers at once: a known goal holds, and a goal
    being proven or concluded by no rule fails; none of them changes the
    known facts or the used rules.
   */
  lemma ProveGoalShortcuts(s: Setup, st: BState, goal: string, depth: nat)
    ensures var r := ProveGoal(s, st, goal, depth);
      && (goal in st.known ==> r.proved && r.st.known == st.known && r.st.used == st.used)
      && (goal !in st.known && goal in st.visiting ==> !r.proved && r.st.known == st.known && r.st.used == st.used)
      && (goal !in st.known && (forall x :: x in s.rules ==> x.conclusion != goal) ==>
            !r.proved && r.st.known == st.known && r.st.used == st.used)
  {
    if goal !in st.known && goal !in st.visiting && forall x :: x in s.rules ==> x.conclusion != goal {
      HeadIn(Concluding(s.rules, goal));
    }
  }

  // ---------------------------------------------------------------------
  // Completeness
  // ---------------------------------------------------------------------

  /** A rule of the index is a rule of the list. */
  lemma {:induction false} IndexMember(rules: seq<Rule>, id: int)
    requires id in IndexById(rules)
    ensures IndexById(rules)[id] in rules
  {
    var prefix := rules[..|rules| - 1];
    var last := rules[|rules| - 1];
    if id != last.id {
      IndexMember(prefix, id);
      assert prefix[FirstIndex(prefix, IndexById(prefix)[id])] in rules;
    }
  }

  /** The conclusions of a prefix of a derivation are among those of a longer prefix. */
  lemma ConclusionsPrefix(byId: map<int, Rule>, d: seq<int>, k: nat, n: nat)
    requires k <= n <= |d|
    ensures Conclusions(byId, d[..k]) <= Conclusions(byId, d[..n])
  {
    forall x | x in Conclusions(byId, d[..k]) ensures x in Conclusions(byId, d[..n]) {
      var j :| 0 <= j < k && d[..k][j] in byId && byId[d[..k][j]].conclusion == x;
      assert d[..n][j] == d[..k][j];
    }
  }

  /** A fact a prefix of `d` concludes has a first step concluding it. */
  lemma {:induction false} FirstConcluding(byId: map<int, Rule>, d: seq<int>, n: nat, g: string)
    requires n <= |d| && g in Conclusions(byId, d[..n])
    ensures exists k :: 0 <= k < n && d[k] in byId && byId[d[k]].conclusion == g && g !in Conclusions(byId, d[..k])
  {
    assert n > 0;
    assert d[..n - 1] + [d[n - 1]] == d[..n];
    DerivationSnoc(byId, {}, d[..n - 1], d[n - 1]);
    if g in Conclusions(byId, d[..n - 1]) {
      FirstConcluding(byId, d, n - 1, g);
    } else {
      assert d[n - 1] in byId && byId[d[n - 1]].conclusion == g;
    }
  }

  /** Every goal being proven that the first `k` steps of `d` conclude is known already. */
  predicate Guarded(byId: map<int, Rule>, d: seq<int>, k: nat, st: BState)
    requires k <= |d|
  {
    forall y :: y in st.visiting && y in Conclusions(byId, d[..k]) ==> y in st.known
  }

  /** Marking a goal the first `k` steps do not conclude keeps the guard. */
  lemma GuardedMark(byId: map<int, Rule>, d: seq<int>, k: nat, st: BState, st1: BState, goal: string)
    requires k <= |d| && Guarded(byId, d, k, st) && goal !in Conclusions(byId, d[..k])
    requires st1.visiting == st.visiting + {goal} && st1.known == st.known
    ensures Guarded(byId, d, k, st1)
  {
  }

  /**
    `prove` finds every fact that a derivation from facts it knows reaches
    within `n` steps, provided none of the goals it is in the middle of
    proving is concluded in those steps without being known: the first
    step concluding the goal is a rule whose premises come earlier, so
    proving them never runs into the goal itself.
   */
  lemma {:induction false} ProveGoalComplete(s: Setup, init: set<string>, d: seq<int>, st: BState, goal: string,
                                             depth: nat, n: nat)
    requires IsDerivation(IndexById(s.rules), init, d) && n <= |d|
    requires init <= st.known && Guarded(IndexById(s.rules), d, n, st)
    requires goal in init + Conclusions(IndexById(s.rules), d[..n])
    ensures ProveGoal(s, st, goal, depth).proved
    decreases n, 0, 0, 0
  {
    var byId := IndexById(s.rules);
    if goal !in st.known {
      FirstConcluding(byId, d, n, goal);
      var k :| 0 <= k < n && d[k] in byId && byId[d[k]].conclusion == goal && goal !in Conclusions(byId, d[..k]);
      ConclusionsPrefix(byId, d, k, n);
      IndexMember(s.rules, d[k]);
      assert byId[d[k]] in Concluding(s.rules, goal);
      ExploreComplete(s, init, d, st, goal, depth, k);
    }
  }

  /** Exploring a goal whose first concluding step in `d` is step `k`. */
  lemma {:induction false} ExploreComplete(s: Setup, init: set<string>, d: seq<int>, st: BState, goal: string,
                                           depth: nat, k: nat)
    requires IsDerivation(IndexById(s.rules), init, d) && k < |d|
    requires goal !in st.known && goal !in st.visiting && Concluding(s.rules, goal) != []
    requires d[k] in IndexById(s.rules) && IndexById(s.rules)[d[k]] in Concluding(s.rules, goal)
    requires goal !in Conclusions(IndexById(s.rules), d[..k])
    requires init <= st.known && Guarded(IndexById(s.rules), d, k, st)
    ensures Explore(s, st, goal, depth).proved
    decreases k, 3, 0, 0
  {
    var byId := IndexById(s.rules);
    var candidates := Concluding(s.rules, goal);
    var ordered := OrderRules(candidates, s.mode);
    assert byId[d[k]] in ordered by {
      assert byId[d[k]] in multiset(candidates);
    }
    var st1 := Log(st.(visiting := st.visiting + {goal}), Considering(goal, |ordered|, s.mode, depth));
    Shrinks(s, st.visiting, goal);
    DerivationAt(byId, init, d, k);
    GuardedMark(byId, d, k, st, st1, goal);
    TryRulesComplete(s, init, d, st1, goal, depth, ordered, k);
    var r := TryRules(s, st1, goal, depth, ordered);
    var st2 := r.st.(visiting := r.st.visiting - {goal});
    assert Explore(s, st, goal, depth) == if r.proved then Attempt(true, st2) else Attempt(false, Log(st2, NotProved(goal, depth)));
  }

  /** Trying a list of candidates that holds the rule of step `k` of `d` succeeds. */
  lemma {:induction false} TryRulesComplete(s: Setup, init: set<string>, d: seq<int>, st: BState, goal: string,
                                            depth: nat, rules: seq<Rule>, k: nat)
    requires IsDerivation(IndexById(s.rules), init, d) && k < |d|
    requires d[k] in IndexById(s.rules) && IndexById(s.rules)[d[k]] in rules
    requires PremisesIn(IndexById(s.rules)[d[k]], init + Conclusions(IndexById(s.rules), d[..k]))
    requires init <= st.known && Guarded(IndexById(s.rules), d, k, st)
    ensures TryRules(s, st, goal, depth, rules).proved
    decreases k, 2, |rules|, 0
  {
    var byId := IndexById(s.rules);
    var rule := rules[0];
    var st1 := Log(st, TryRule(rule.id, DefaultText(rule), depth));
    if rule == byId[d[k]] {
      PremisesComplete(s, init, d, st1, rule.id, depth, rule.premises, k);
    } else {
      PremisesGrows(s, st1, rule.id, depth, rule.premises);
      var p := ProvePremises(s, st1, rule.id, depth, rule.premises);
      if !p.proved {
        TryRulesComplete(s, init, d, p.st, goal, depth, rules[1..], k);
      }
    }
  }

  /** Premises that the first `k` steps of `d` reach are all proven. */
  lemma {:induction false} PremisesComplete(s: Setup, init: set<string>, d: seq<int>, st: BState, ruleId: int,
                                            depth: nat, premises: seq<string>, k: nat)
    requires IsDerivation(IndexById(s.rules), init, d) && k <= |d|
    requires init <= st.known && Guarded(IndexById(s.rules), d, k, st)
    requires forall p :: p in premises ==> p in init + Conclusions(IndexById(s.rules), d[..k])
    ensures ProvePremises(s, st, ruleId, depth, premises).proved
    decreases k, 1, 0, |premises|
  {
    if premises != [] {
      var st1 := Log(st, ProvePremise(premises[0], depth));
      ProveGoalComplete(s, init, d, st1, premises[0], depth + 2, k);
      ProveGoalGrows(s, st1, premises[0], depth + 2);
      var q := ProveGoal(s, st1, premises[0], depth + 2);
      PremisesComplete(s, init, d, q.st, ruleId, depth, premises[1..], k);
    }
  }

  // ---------------------------------------------------------------------
  // The top-level goals
  // ---------------------------------------------------------------------

  /** The goal loop only adds to the state, and it finishes without a failure exactly when every goal is known. */
  lemma {:induction false} ProveGoalsGrows(s: Setup, st: BState, goals: seq<string>)
    ensures var r := ProveGoals(s, st, goals);
      Extends(st, r.st) && (r.proved <==> forall g :: g in goals ==> g in r.st.known)
    decreases |goals|
  {
    if goals != [] {
      var goal := goals[0];
      assert forall g :: g in goals ==> g == goal || g in goals[1..];
      if goal in st.known {
        ProveGoalsGrows(s, Log(st, GoalHeld(goal)), goals[1..]);
      } else {
        var st1 := Log(st, GoalStarted(goal));
        ProveGoalGrows(s, st1, goal, 1);
        var q := ProveGoal(s, st1, goal, 1);
        if q.proved {
          ProveGoalsGrows(s, Log(q.st, GoalDone(goal)), goals[1..]);
        }
      }
    }
  }

  /** The goal loop keeps the bookkeeping a derivation. */
  lemma {:induction false} ProveGoalsSound(s: Setup, init: set<string>, st: BState, goals: seq<string>)
    requires UniqueIds(s.rules) && Sound(s, init, st)
    ensures Sound(s, init, ProveGoals(s, st, goals).st)
    decreases |goals|
  {
    if goals != [] {
      var goal := goals[0];
      if goal in st.known {
        ProveGoalsSound(s, init, Log(st, GoalHeld(goal)), goals[1..]);
      } else {
        var st1 := Log(st, GoalStarted(goal));
        ProveGoalSound(s, init, st1, goal, 1);
        var q := ProveGoal(s, st1, goal, 1);
        if q.proved {
          ProveGoalsSound(s, init, Log(q.st, GoalDone(goal)), goals[1..]);
        }
      }
    }
  }

  /** Between goals nothing is being proven, so every goal a derivation reaches is proven. */
  lemma {:induction false} ProveGoalsComplete(s: Setup, init: set<string>, d: seq<int>, st: BState, goals: seq<string>)
    requires IsDerivation(IndexById(s.rules), init, d) && init <= st.known && st.visiting == {}
    requires forall g :: g in goals ==> g in init + Conclusions(IndexById(s.rules), d)
    ensures ProveGoals(s, st, goals).proved
    decreases |goals|
  {
    if goals != [] {
      var goal := goals[0];
      if goal in st.known {
        ProveGoalsComplete(s, init, d, Log(st, GoalHeld(goal)), goals[1..]);
      } else {
        var st1 := Log(st, GoalStarted(goal));
        assert d[..|d|] == d;
        ProveGoalComplete(s, init, d, st1, goal, 1, |d|);
        ProveGoalGrows(s, st1, goal, 1);
        var q := ProveGoal(s, st1, goal, 1);
        ProveGoalsComplete(s, init, d, Log(q.st, GoalDone(goal)), goals[1..]);
      }
    }
  }

  /** `[normalize_atom(goal) for goal in goals if normalize_atom(goal)]`: the caller's order and repeats are kept. */
  function GoalList(goals: seq<string>): (r: seq<string>)
    ensures |r| <= |goals|
    ensures forall k :: 0 <= k < |r| ==> r[k] != [] && Trimmed(r[k])
  {
    if goals == [] then []
    else
      var a := NormalizeAtom(goals[0]);
      (if a != [] then [a] else []) + GoalList(goals[1..])
  }

  /** The goal list holds exactly the normalised goals, as a set. */
  lemma {:induction false} GoalListFacts(goals: seq<string>)
    ensures forall x :: x in GoalList(goals) <==> x in NormalizedFacts(goals)
  {
    if goals != [] {
      GoalListFacts(goals[1..]);
      forall x ensures x in NormalizedFacts(goals) <==> (x == NormalizeAtom(goals[0]) && x != []) || x in NormalizedFacts(goals[1..]) {
        if x in NormalizedFacts(goals) {
          NormalizedFactsFrom(goals, x);
          var k :| 0 <= k < |goals| && NormalizeAtom(goals[k]) == x;
          if k > 0 {
            assert goals[1..][k - 1] == goals[k];
          }
        }
        if x in NormalizedFacts(goals[1..]) {
          NormalizedFactsFrom(goals[1..], x);
          var k :| 0 <= k < |goals[1..]| && NormalizeAtom(goals[1..][k]) == x;
          assert goals[k + 1] == goals[1..][k];
        }
      }
    }
  }

  /** The set of the goal list is the set of normalised goals, so one is empty exactly when the other is. */
  lemma GoalSet(goals: seq<string>)
    ensures (set g | g in GoalList(goals)) == NormalizedFacts(goals)
    ensures GoalList(goals) == [] <==> NormalizedFacts(goals) == {}
  {
    GoalListFacts(goals);
    if GoalList(goals) != [] {
      assert GoalList(goals)[0] in GoalList(goals);
    }
  }

  /** Goals that are already normalised and non-blank are kept as given, repeats included. */
  lemma {:induction false} GoalListKeeps(goals: seq<string>)
    requires forall k :: 0 <= k < |goals| ==> goals[k] != [] && NormalizeAtom(goals[k]) == goals[k]
    ensures GoalList(goals) == goals
  {
    if goals != [] {
      GoalListKeeps(goals[1..]);
      assert goals == [goals[0]] + goals[1..];
    }
  }

  /**
    The search over the goal list from `init`, with nothing proven or
    being proven yet, and the result it reports: `success` is that no goal
    failed and that every goal is known.
   */
  function BackwardChaining(rules: seq<Rule>, init: set<string>, goals: seq<string>, mode: IndexMode): (r: BackwardResult)
    ensures r.goals == goals
  {
    var a := ProveGoals(Setup(rules, mode), BState(init, {}, [], []), goals);
    BackwardResult(a.proved && (set g | g in goals) <= a.st.known, goals, a.st.known, a.st.used, a.st.steps)
  }

  /**
    The result of a search: the final facts hold the starting ones, and it
    succeeds exactly when every goal is among them, so the subset test
    never overturns the loop's verdict.
   */
  lemma BackwardOutcome(rules: seq<Rule>, init: set<string>, goals: seq<string>, mode: IndexMode)
    ensures var r := BackwardChaining(rules, init, goals, mode);
      && init <= r.finalKnown
      && (r.success <==> forall g :: g in goals ==> g in r.finalKnown)
      && (r.success <==> ProveGoals(Setup(rules, mode), BState(init, {}, [], []), goals).proved)
  {
    ProveGoalsGrows(Setup(rules, mode), BState(init, {}, [], []), goals);
  }

  /**
    What a backward run promises: it succeeds exactly when the goals can
    be derived from the starting facts; the used rules are a derivation,
    without repeats and no more than there are rules, that yields exactly
    the final facts.
   */
  lemma BackwardCorrect(rules: seq<Rule>, init: set<string>, goals: seq<string>, mode: IndexMode)
    requires UniqueIds(rules)
    ensures var r := BackwardChaining(rules, init, goals, mode); var byId := IndexById(rules);
      && (r.success <==> Derivable(byId, init, set g | g in goals))
      && IsDerivation(byId, init, r.usedRules)
      && r.finalKnown == init + Conclusions(byId, r.usedRules)
      && Distinct(r.usedRules) && |r.usedRules| <= |rules|
  {
    var s := Setup(rules, mode);
    var st := BState(init, {}, [], []);
    var byId := IndexById(rules);
    var r := BackwardChaining(rules, init, goals, mode);
    BackwardOutcome(rules, init, goals, mode);
    ProveGoalsSound(s, init, st, goals);
    assert r.success ==> Derivable(byId, init, set g | g in goals) by {
      if r.success {
        assert IsDerivation(byId, init, r.usedRules) && (set g | g in goals) <= init + Conclusions(byId, r.usedRules);
      }
    }
    assert Derivable(byId, init, set g | g in goals) ==> r.success by {
      if Derivable(byId, init, set g | g in goals) {
        var d :| IsDerivation(byId, init, d) && (set g | g in goals) <= init + Conclusions(byId, d);
        ProveGoalsComplete(s, init, d, st, goals);
      }
    }
    assert |r.usedRules| <= |rules| by {
      forall k | 0 <= k < |r.usedRules| ensures r.usedRules[k] in byId.Keys {
        DerivationAt(byId, init, r.usedRules, k);
      }
      DistinctWithin(r.usedRules, byId.Keys);
      KeysCard(rules);
    }
  }

  /**
    Two rules concluding each other from nothing else, `x -> y` and
    `y -> x`, prove neither atom when neither is known: the search
    stops at the cycle, and nothing is added or used.
   */
  lemma CycleFails(i1: int, i2: int, x: string, y: string, init: set<string>, mode: IndexMode)
    requires i1 != i2 && x != y && x !in init && y !in init
    ensures var r := BackwardChaining([Rule(i1, [x], y), Rule(i2, [y], x)], init, [x], mode);
      !r.success && r.finalKnown == init && r.usedRules == []
  {
    var rules := [Rule(i1, [x], y), Rule(i2, [y], x)];
    var byId := IndexById(rules);
    var r := BackwardChaining(rules, init, [x], mode);
    assert UniqueIds(rules);
    BackwardCorrect(rules, init, [x], mode);
    assert Closed(byId, init) by {
      forall id | id in byId ensures !PremisesIn(byId[id], init) {
        IndexMember(rules, id);
      }
    }
    ClosedBounds(byId, init, init, r.usedRules);
  }

  // ---------------------------------------------------------------------
  // The entry point
  // ---------------------------------------------------------------------

  /**
    `run_backward_inference` on the rules of a knowledge base in id order
    and its facts: the index mode, the presence of rules and of a
    non-blank goal are checked in that order, and the first that fails is
    the error; otherwise the result is that of the search from the
    starting facts.
   */
  function BackwardInference(rules: seq<Rule>, kbFacts: set<string>, goals: seq<string>, indexMode: string,
                             initialFacts: Option<seq<string>>): (r: Result<BackwardResult>)
    ensures ParseIndexMode(indexMode).Err? ==> r == Err(InvalidChoice("index_mode", IndexModes))
    ensures ParseIndexMode(indexMode).Ok? && rules == [] ==> r == Err(NoRules)
    ensures ParseIndexMode(indexMode).Ok? && rules != [] && GoalList(goals) == [] ==> r == Err(NoGoals)
    ensures r.Ok? <==> ParseIndexMode(indexMode).Ok? && rules != [] && GoalList(goals) != []
    ensures r.Ok? ==> r.value.goals == GoalList(goals)
  {
    var mode :- ParseIndexMode(indexMode);
    if rules == [] then Err(NoRules)
    else
      var goalList := GoalList(goals);
      if goalList == [] then Err(NoGoals)
      else Ok(BackwardChaining(rules, StartFacts(kbFacts, initialFacts), goalList, mode))
  }

  /**
    The two engines agree: on the same rules, facts and goals, with
    a valid strategy for the forward one, either both report the same
    error or both run, and then one succeeds exactly when the other does.
   */
  lemma EnginesAgree(rules: seq<Rule>, kbFacts: set<string>, goals: seq<string>, strategy: string,
                     indexMode: string, initialFacts: Option<seq<string>>)
    requires UniqueIds(rules) && ParseStructure(strategy).Ok?
    ensures var f := ForwardInference(rules, kbFacts, goals, strategy, indexMode, initialFacts);
      var b := BackwardInference(rules, kbFacts, goals, indexMode, initialFacts);
      && (f.Err? <==> b.Err?)
      && (f.Err? ==> f.error == b.error)
      && (f.Ok? ==> f.value.success == b.value.success)
  {
    GoalSet(goals);
    var f := ForwardInference(rules, kbFacts, goals, strategy, indexMode, initialFacts);
    if f.Ok? {
      var mode := ParseIndexMode(indexMode).value;
      var init := StartFacts(kbFacts, initialFacts);
      assert f.value.success <==> Derivable(IndexById(rules), init, NormalizedFacts(goals)) by {
        ForwardCorrect(rules, kbFacts, goals, strategy, indexMode, initialFacts);
      }
      BackwardCorrect(rules, init, GoalList(goals), mode);
    }
  }


  // ---------------------------------------------------------------------
  // The search as it runs
  // ---------------------------------------------------------------------

  /**
    The variables `prove` shares with `run_backward_inference`: the rules
    filed by conclusion and the index mode stay fixed, while the known
    facts, the goals being proven, the used rules and the steps are
    updated in place.
   */
  class Prover {
    const rules: seq<Rule>
    const lookup: map<string, seq<Rule>>
    const mode: IndexMode
    var known: set<string>
    var visiting: set<string>
    var usedRules: seq<int>
    var steps: seq<Event>

    /** The lookup files every rule under its conclusion. */
    ghost predicate Valid() {
      Files(lookup, rules)
    }

    /** The variables, as the state of the search functions. */
    function State(): BState
      reads this
    {
      BState(known, visiting, usedRules, steps)
    }

    /** The search before any goal: nothing proven, being proven, used or said. */
    constructor(rules: seq<Rule>, lookup: map<string, seq<Rule>>, mode: IndexMode, known: set<string>)
      requires Files(lookup, rules)
      ensures Valid() && this.rules == rules && this.mode == mode
      ensures State() == BState(known, {}, [], [])
    {
      this.rules := rules;
      this.lookup := lookup;
      this.mode := mode;
      this.known := known;
      visiting := {};
      usedRules := [];
      steps := [];
    }

    /** `prove(goal, depth)`: the answers given at once, and otherwise the candidates are pursued. */
    method Prove(goal: string, depth: nat) returns (proved: bool)
      requires Valid()
      modifies this
      ensures Attempt(proved, State()) == ProveGoal(Setup(rules, mode), old(State()), goal, depth)
      decreases |ConclusionSet(rules) - visiting|, 1
    {
      if goal in known {
        steps := steps + [AlreadyKnown(goal, depth)];
        return true;
      }
      if goal in visiting {
        steps := steps + [CycleDetected(goal, depth)];
        return false;
      }
      var candidates := if goal in lookup then lookup[goal] else [];
      if candidates == [] {
        steps := steps + [NoRuleFor(goal, depth)];
        return false;
      }
      proved := Pursue(goal, depth, candidates);
    }

    /**
      The rest of `prove`: the goal is marked as visiting while its ordered
      candidates are tried, and unmarked afterwards.
     */
    method Pursue(goal: string, depth: nat, candidates: seq<Rule>) returns (proved: bool)
      requires Valid() && goal !in visiting && candidates == Concluding(rules, goal) && candidates != []
      modifies this
      ensures Attempt(proved, State()) == Explore(Setup(rules, mode), old(State()), goal, depth)
      decreases |ConclusionSet(rules) - visiting|, 0
    {
      ghost var s := Setup(rules, mode);
      var ordered := OrderRules(candidates, mode);
      visiting := visiting + {goal};
      steps := steps + [Considering(goal, |ordered|, mode, depth)];
      ghost var st1 := State();
      ExploreTries(s, old(State()), goal, depth, ordered, st1);
      Shrinks(s, old(visiting), goal);
      proved := TryCandidates(goal, depth, ordered);
      visiting := visiting - {goal};
      if !proved {
        steps := steps + [NotProved(goal, depth)];
      }
    }

    /** The loop over the ordered candidates: the first whose premises are all proven proves the goal. */
    method TryCandidates(goal: string, depth: nat, ordered: seq<Rule>) returns (proved: bool)
      requires Valid()
      modifies this
      ensures Attempt(proved, State()) == TryRules(Setup(rules, mode), old(State()), goal, depth, ordered)
      decreases |ConclusionSet(rules) - visiting|, 3
    {
      ghost var s := Setup(rules, mode);
      var i := 0;
      while i < |ordered|
        invariant i <= |ordered| && visiting == old(visiting)
        invariant TryRules(s, State(), goal, depth, ordered[i..]) == TryRules(s, old(State()), goal, depth, ordered)
      {
        var rule := ordered[i];
        steps := steps + [TryRule(rule.id, DefaultText(rule), depth)];
        var success := TryPremises(rule, depth);
        if success {
          known := known + {goal};
          usedRules := usedRules + [rule.id];
          steps := steps + [ProvedBy(goal, rule.id, depth)];
          return true;
        }
        assert ordered[i..][1..] == ordered[i + 1..];
        i := i + 1;
      }
      return false;
    }

    /** The loop over a rule's premises, stopping with a note at the first that fails. */
    method TryPremises(rule: Rule, depth: nat) returns (success: bool)
      requires Valid()
      modifies this
      ensures Attempt(success, State()) == ProvePremises(Setup(rules, mode), old(State()), rule.id, depth, rule.premises)
      decreases |ConclusionSet(rules) - visiting|, 2
    {
      ghost var s := Setup(rules, mode);
      success := true;
      var j := 0;
      while j < |rule.premises|
        invariant j <= |rule.premises| && visiting == old(visiting) && success
        invariant ProvePremises(s, State(), rule.id, depth, rule.premises[j..]) ==
          ProvePremises(s, old(State()), rule.id, depth, rule.premises)
      {
        var premise := rule.premises[j];
        steps := steps + [ProvePremise(premise, depth)];
        var ok := Prove(premise, depth + 2);
        if !ok {
          success := false;
          steps := steps + [PremiseFailed(premise, rule.id, depth)];
          break;
        }
        assert rule.premises[j..][1..] == rule.premises[j + 1..];
        j := j + 1;
      }
    }

    /** The loop over the top-level goals: known ones are skipped, and the first that fails ends it. */
    method ProveAll(goals: seq<string>) returns (overall: bool)
      requires Valid() && visiting == {}
      modifies this
      ensures Attempt(overall, State()) == ProveGoals(Setup(rules, mode), old(State()), goals)
    {
      ghost var s := Setup(rules, mode);
      overall := true;
      var i := 0;
      while i < |goals|
        invariant i <= |goals| && overall && visiting == {}
        invariant ProveGoals(s, State(), goals[i..]) == ProveGoals(s, old(State()), goals)
      {
        var goal := goals[i];
        assert goals[i..][1..] == goals[i + 1..];
        if goal in known {
          steps := steps + [GoalHeld(goal)];
          i := i + 1;
          continue;
        }
        steps := steps + [GoalStarted(goal)];
        var ok := Prove(goal, 1);
        if !ok {
          overall := false;
          steps := steps + [GoalFailed(goal)];
          break;
        }
        steps := steps + [GoalDone(goal)];
        i := i + 1;
      }
    }
  }

  /**
    `run_backward_inference` on a knowledge base: the checks, then the
    goals proven one after another until one fails.
   */
  method RunBackwardInference(kb: KnowledgeBase, goals: seq<string>, indexMode: string,
                              initialFacts: Option<seq<string>>) returns (r: Result<BackwardResult>)
    requires kb.Valid()
    ensures r == BackwardInference(kb.IterRules(), kb.facts, goals, indexMode, initialFacts)
  {
    var parsed := ParseIndexMode(indexMode);
    if parsed.Err? {
      return Err(parsed.error);
    }
    var mode := parsed.value;
    var rules := kb.IterRules();
    if rules == [] {
      return Err(NoRules);
    }
    var goalList := GoalList(goals);
    if goalList == [] {
      return Err(NoGoals);
    }
    var known := StartFacts(kb.facts, initialFacts);
    var lookup := BuildLookup(rules);
    var prover := new Prover(rules, lookup, mode, known);
    var overall := prover.ProveAll(goalList);
    r := Ok(BackwardResult(overall && (set g | g in goalList) <= prover.known, goalList, prover.known,
                           prover.usedRules, prover.steps));
  }
}
