/**
  Forward chaining. A run keeps the known facts, the fired rules in firing
  order, the set of rules not fired yet, and a candidate list (`thoa`)
  used as a stack or as a queue. After the facts are seeded and after each
  firing, the rules that have become applicable are found in rule order,
  sorted by id as the structure and the index mode ask, and appended to
  the candidate list; each step takes one candidate and fires it, until
  the goals are known or no candidate is left.
 */
module Forward {
  import opened Strings
  import opened Seqs
  import opened Results
  import opened Models
  import opened Utils
  import opened Knowledge
  import opened Derivations

  /** The discipline of the candidate list. */
  datatype Structure = Stack | Queue

  /** `FORWARD_STRUCTURES`. */
  const Structures: seq<string> := ["stack", "queue"]

  /** `FORWARD_INDEX_MODES`. */
  const IndexModes: seq<string> := ["min", "max"]

  /** The strategy option, checked by `ensure_choice`. */
  function ParseStructure(strategy: string): (r: Result<Structure>)
    ensures r == Ok(Stack) <==> Lower(Strip(strategy)) == "stack"
    ensures r == Ok(Queue) <==> Lower(Strip(strategy)) == "queue"
    ensures r.Err? ==> r.error == InvalidChoice("strategy", Structures)
  {
    LowerWords();
    ChoiceOfTwo(strategy, "stack", "queue", "strategy");
    match EnsureChoice(strategy, Structures, "strategy")
    case Ok(choice) => Ok(if choice == "stack" then Stack else Queue)
    case Err(e) => Err(e)
  }

  /** The index mode option, checked by `ensure_choice`. */
  function ParseIndexMode(indexMode: string): (r: Result<IndexMode>)
    ensures r == Ok(Min) <==> Lower(Strip(indexMode)) == "min"
    ensures r == Ok(Max) <==> Lower(Strip(indexMode)) == "max"
    ensures r.Err? ==> r.error == InvalidChoice("index_mode", IndexModes)
  {
    LowerWords();
    ChoiceOfTwo(indexMode, "min", "max", "index_mode");
    match EnsureChoice(indexMode, IndexModes, "index_mode")
    case Ok(choice) => Ok(if choice == "min" then Min else Max)
    case Err(e) => Err(e)
  }

  /** The option words are their own lower-case forms. */
  lemma LowerWords()
    ensures Lower("stack") == "stack" && Lower("queue") == "queue"
    ensures Lower("min") == "min" && Lower("max") == "max"
  {
    assert Lower("stack") == "stack" by {
      LowerOfLower("stack");
    }
    assert Lower("queue") == "queue" by {
      LowerOfLower("queue");
    }
    assert Lower("min") == "min" by {
      LowerOfLower("min");
    }
    assert Lower("max") == "max" by {
      LowerOfLower("max");
    }
  }

  // ---------------------------------------------------------------------
  // Candidates
  // ---------------------------------------------------------------------

  /**
    The test `_enqueue_candidates` applies to a rule: not fired yet, not
    queued already, every premise known and the conclusion not known.
   */
  predicate Applicable(r: Rule, thoa: seq<int>, remaining: set<int>, known: set<string>) {
    r.id in remaining && r.id !in thoa && PremisesIn(r, known) && r.conclusion !in known
  }

  /** The ids of the applicable rules, in rule order: the batch before sorting. */
  function NewCandidates(rules: seq<Rule>, thoa: seq<int>, remaining: set<int>, known: set<string>): seq<int> {
    if rules == [] then []
    else
      NewCandidates(rules[..|rules| - 1], thoa, remaining, known)
      + (if Applicable(rules[|rules| - 1], thoa, remaining, known) then [rules[|rules| - 1].id] else [])
  }

  /**
    The batch holds the id of every applicable rule and nothing else; with
    unique rule ids, each of them once.
   */
  lemma NewCandidatesSpec(rules: seq<Rule>, thoa: seq<int>, remaining: set<int>, known: set<string>)
    ensures var batch := NewCandidates(rules, thoa, remaining, known);
      && (forall x :: x in batch ==>
           exists k :: 0 <= k < |rules| && rules[k].id == x && Applicable(rules[k], thoa, remaining, known))
      && (forall k :: 0 <= k < |rules| && Applicable(rules[k], thoa, remaining, known) ==> rules[k].id in batch)
      && (UniqueIds(rules) ==> Distinct(batch))
  {
    NewCandidatesOnly(rules, thoa, remaining, known);
    NewCandidatesAll(rules, thoa, remaining, known);
    if UniqueIds(rules) {
      NewCandidatesDistinct(rules, thoa, remaining, known);
    }
  }

  /** Shortening the rules by their last one: the batch loses that rule's id, if any. */
  lemma NewCandidatesLast(rules: seq<Rule>, thoa: seq<int>, remaining: set<int>, known: set<string>)
    requires rules != []
    ensures var prefix := rules[..|rules| - 1]; var last := rules[|rules| - 1];
      && (forall k :: 0 <= k < |prefix| ==> prefix[k] == rules[k])
      && NewCandidates(rules, thoa, remaining, known) ==
         NewCandidates(prefix, thoa, remaining, known) + (if Applicable(last, thoa, remaining, known) then [last.id] else [])
  {
  }

  /** Only applicable rules are in the batch. */
  lemma {:induction false} NewCandidatesOnly(rules: seq<Rule>, thoa: seq<int>, remaining: set<int>, known: set<string>)
    ensures forall x :: x in NewCandidates(rules, thoa, remaining, known) ==>
      exists k :: 0 <= k < |rules| && rules[k].id == x && Applicable(rules[k], thoa, remaining, known)
  {
    if rules != [] {
      var prefix := rules[..|rules| - 1];
      NewCandidatesOnly(prefix, thoa, remaining, known);
      NewCandidatesLast(rules, thoa, remaining, known);
    }
  }

  /** Every applicable rule is in the batch. */
  lemma {:induction false} NewCandidatesAll(rules: seq<Rule>, thoa: seq<int>, remaining: set<int>, known: set<string>)
    ensures forall k :: 0 <= k < |rules| && Applicable(rules[k], thoa, remaining, known) ==>
      rules[k].id in NewCandidates(rules, thoa, remaining, known)
  {
    if rules != [] {
      var prefix := rules[..|rules| - 1];
      NewCandidatesAll(prefix, thoa, remaining, known);
      NewCandidatesLast(rules, thoa, remaining, known);
    }
  }

  /** With unique rule ids, no id is in the batch twice. */
  lemma {:induction false} NewCandidatesDistinct(rules: seq<Rule>, thoa: seq<int>, remaining: set<int>, known: set<string>)
    requires UniqueIds(rules)
    ensures Distinct(NewCandidates(rules, thoa, remaining, known))
  {
    if rules != [] {
      var prefix := rules[..|rules| - 1];
      var last := rules[|rules| - 1];
      NewCandidatesLast(rules, thoa, remaining, known);
      assert UniqueIds(prefix) by {
        forall i, j | 0 <= i < j < |prefix| ensures RuleId(prefix[i]) != RuleId(prefix[j]) {
          assert prefix[i] == rules[i] && prefix[j] == rules[j];
        }
      }
      NewCandidatesDistinct(prefix, thoa, remaining, known);
      NewCandidatesOnly(prefix, thoa, remaining, known);
      var b := NewCandidates(prefix, thoa, remaining, known);
      var tail := if Applicable(last, thoa, remaining, known) then [last.id] else [];
      forall x | x in b ensures x != last.id {
        var k :| 0 <= k < |prefix| && prefix[k].id == x && Applicable(prefix[k], thoa, remaining, known);
        assert RuleId(rules[k]) != RuleId(rules[|rules| - 1]);
      }
      assert Distinct(b + tail) by {
        forall i, j | 0 <= i < j < |b + tail| ensures (b + tail)[i] != (b + tail)[j] {
          if j >= |b| {
            assert (b + tail)[j] == last.id && (b + tail)[i] == b[i] && b[i] in b;
          } else {
            assert (b + tail)[i] == b[i] && (b + tail)[j] == b[j];
          }
        }
      }
    }
  }

  /** Scanning one more rule appends its id when it is applicable. */
  lemma NewCandidatesSnoc(rules: seq<Rule>, i: nat, thoa: seq<int>, remaining: set<int>, known: set<string>)
    requires i < |rules|
    ensures NewCandidates(rules[..i + 1], thoa, remaining, known) ==
      NewCandidates(rules[..i], thoa, remaining, known) + (if Applicable(rules[i], thoa, remaining, known) then [rules[i].id] else [])
  {
    assert rules[..i + 1][..i] == rules[..i];
  }

  /** Whether a batch is sorted descending: stack with `min` and queue with `max`. */
  predicate DescendingBatch(structure: Structure, mode: IndexMode) {
    (structure == Stack && mode == Min) || (structure == Queue && mode == Max)
  }

  /** Ids are sorted by their own value. */
  function IntKey(x: int): int {
    x
  }

  /** `candidates.sort(reverse=...)` */
  function OrderBatch(batch: seq<int>, structure: Structure, mode: IndexMode): (r: seq<int>)
    ensures multiset(r) == multiset(batch)
    ensures Distinct(batch) && DescendingBatch(structure, mode) ==> StrictlyDescending(r, IntKey)
    ensures Distinct(batch) && !DescendingBatch(structure, mode) ==> StrictlyAscending(r, IntKey)
  {
    var up := SortBy(batch, IntKey);
    assert Distinct(batch) ==> StrictlyAscending(up, IntKey) && StrictlyDescending(Reverse(up), IntKey) by {
      if Distinct(batch) {
        SortByStrict(batch, IntKey);
        ReverseDescending(up, IntKey);
      }
    }
    if DescendingBatch(structure, mode) then Reverse(up) else up
  }

  /**
    `_enqueue_candidates`: one pass over the rules collects the applicable
    ones; the batch is sorted and appended, id by id, to the end of the
    candidate list.
   */
  method EnqueueCandidates(thoa: seq<int>, remaining: set<int>, known: set<string>, rules: seq<Rule>,
                           structure: Structure, mode: IndexMode) returns (r: seq<int>)
    ensures r == thoa + OrderBatch(NewCandidates(rules, thoa, remaining, known), structure, mode)
  {
    var candidates: seq<int> := [];
    var existing := set x | x in thoa;
    for i := 0 to |rules|
      invariant candidates == NewCandidates(rules[..i], thoa, remaining, known)
    {
      var rule := rules[i];
      NewCandidatesSnoc(rules, i, thoa, remaining, known);
      if rule.id !in remaining {
        continue;
      }
      if rule.id in existing {
        continue;
      }
      if (forall p :: p in rule.premises ==> p in known) && rule.conclusion !in known {
        candidates := candidates + [rule.id];
      }
    }
    assert rules[..|rules|] == rules;
    if candidates == [] {
      return thoa;
    }
    candidates := OrderBatch(candidates, structure, mode);
    r := thoa + candidates;
  }

  /** The rule taken from the candidate list and what is left of it. */
  datatype Selection = Selection(id: int, rest: seq<int>)

  /** `_select_rule`: the last candidate for a stack, the first for a queue; none is an error. */
  function SelectRule(thoa: seq<int>, structure: Structure): (r: Result<Selection>)
    ensures r.Err? <==> thoa == []
    ensures r.Err? ==> r.error == EmptyCandidates
    ensures r.Ok? && structure == Stack ==> thoa == r.value.rest + [r.value.id]
    ensures r.Ok? && structure == Queue ==> thoa == [r.value.id] + r.value.rest
  {
    if thoa == [] then Err(EmptyCandidates)
    else if structure == Stack then Ok(Selection(thoa[|thoa| - 1], thoa[..|thoa| - 1]))
    else Ok(Selection(thoa[0], thoa[1..]))
  }

  // ---------------------------------------------------------------------
  // The run as a sequence of states
  // ---------------------------------------------------------------------

  /** What a run is given: the rules in id order with their index, the starting facts, the goals and the options. */
  datatype Config = Config(rules: seq<Rule>, byId: map<int, Rule>, init: set<string>, goals: set<string>,
                           structure: Structure, mode: IndexMode)

  /** The index is that of the rules, and rule ids are unique. */
  predicate WellConfigured(c: Config) {
    UniqueIds(c.rules) && c.byId == IndexById(c.rules)
  }

  /** The variables of the loop of `run_forward_inference`. */
  datatype FState = FState(thoa: seq<int>, fired: seq<int>, remaining: set<int>, known: set<string>)

  /** The candidates are distinct unfired rules, and every unfired id is a rule id. */
  predicate Tidy(c: Config, thoa: seq<int>, remaining: set<int>) {
    && Distinct(thoa)
    && (forall i :: 0 <= i < |thoa| ==> thoa[i] in remaining)
    && remaining <= c.byId.Keys
  }

  /** The premises of every candidate are known. */
  predicate Supported(c: Config, thoa: seq<int>, known: set<string>) {
    forall i :: 0 <= i < |thoa| ==> thoa[i] in c.byId && PremisesIn(c.byId[thoa[i]], known)
  }

  /**
    The fired rules are distinct indexed rules, and with the unfired ones
    they make up all rule ids; they form a derivation from the starting
    facts, and the known facts are exactly the starting facts and their
    conclusions.
   */
  predicate FiredOk(c: Config, fired: seq<int>, remaining: set<int>, known: set<string>) {
    && Distinct(fired)
    && (forall i :: 0 <= i < |fired| ==> fired[i] in c.byId && fired[i] !in remaining)
    && (forall id :: id in c.byId ==> id in remaining || id in fired)
    && IsDerivation(c.byId, c.init, fired)
    && known == c.init + Conclusions(c.byId, fired)
  }

  /** What holds of the loop's variables throughout. */
  predicate Inv(c: Config, s: FState) {
    && WellConfigured(c)
    && Tidy(c, s.thoa, s.remaining)
    && Supported(c, s.thoa, s.known)
    && FiredOk(c, s.fired, s.remaining, s.known)
  }

  /** Every unfired rule outside the candidate list whose premises are known has a known conclusion. */
  predicate Saturated(c: Config, s: FState) {
    forall id :: id in c.byId && id in s.remaining && id !in s.thoa && PremisesIn(c.byId[id], s.known) ==>
      c.byId[id].conclusion in s.known
  }

  /** The candidate refresh run after the facts are seeded and after every firing. */
  function Refresh(c: Config, s: FState): FState {
    s.(thoa := s.thoa + OrderBatch(NewCandidates(c.rules, s.thoa, s.remaining, s.known), c.structure, c.mode))
  }

  /** With unique ids, the indexed rule with an id is the rule of the list that has it. */
  lemma IndexedRule(c: Config, k: nat)
    requires WellConfigured(c) && k < |c.rules|
    ensures c.rules[k].id in c.byId && c.byId[c.rules[k].id] == c.rules[k]
  {
    IndexUnique(c.rules, k);
  }

  /** The batch a refresh appends: the ids of exactly the applicable rules, each once. */
  lemma BatchMembers(c: Config, s: FState)
    requires WellConfigured(c)
    ensures var batch := OrderBatch(NewCandidates(c.rules, s.thoa, s.remaining, s.known), c.structure, c.mode);
      && Distinct(batch)
      && forall id :: id in batch <==> id in c.byId && Applicable(c.byId[id], s.thoa, s.remaining, s.known)
  {
    var nc := NewCandidates(c.rules, s.thoa, s.remaining, s.known);
    var batch := OrderBatch(nc, c.structure, c.mode);
    NewCandidatesSpec(c.rules, s.thoa, s.remaining, s.known);
    DistinctPermutation(nc, batch);
    forall id ensures id in batch <==> id in c.byId && Applicable(c.byId[id], s.thoa, s.remaining, s.known) {
      assert id in batch <==> id in multiset(nc);
      if id in nc {
        var k :| 0 <= k < |c.rules| && c.rules[k].id == id && Applicable(c.rules[k], s.thoa, s.remaining, s.known);
        IndexedRule(c, k);
      }
      if id in c.byId {
        var k := FindId(c.rules, id).value;
        IndexedRule(c, k);
      }
    }
  }

  /**
    A refresh appends exactly the applicable rules, each once, ordered by
    id as the options ask, and leaves everything else alone.
   */
  lemma RefreshBatch(c: Config, s: FState)
    requires WellConfigured(c)
    ensures var t := Refresh(c, s); var batch := t.thoa[|s.thoa|..];
      && t.thoa[..|s.thoa|] == s.thoa
      && t.fired == s.fired && t.remaining == s.remaining && t.known == s.known
      && (forall id :: id in batch <==> id in c.byId && Applicable(c.byId[id], s.thoa, s.remaining, s.known))
      && (DescendingBatch(c.structure, c.mode) ==> StrictlyDescending(batch, IntKey))
      && (!DescendingBatch(c.structure, c.mode) ==> StrictlyAscending(batch, IntKey))
  {
    var nc := NewCandidates(c.rules, s.thoa, s.remaining, s.known);
    var batch := OrderBatch(nc, c.structure, c.mode);
    var t := Refresh(c, s);
    assert t.thoa[|s.thoa|..] == batch && t.thoa[..|s.thoa|] == s.thoa;
    NewCandidatesSpec(c.rules, s.thoa, s.remaining, s.known);
    BatchMembers(c, s);
  }

  /** Appending fresh, distinct unfired candidates keeps the candidate list tidy. */
  lemma TidyAppend(c: Config, thoa: seq<int>, batch: seq<int>, remaining: set<int>)
    requires Tidy(c, thoa, remaining) && Distinct(batch)
    requires forall x :: x in batch ==> x in remaining && x !in thoa
    ensures Tidy(c, thoa + batch, remaining)
  {
    var t := thoa + batch;
    forall i, j | 0 <= i < j < |t| ensures t[i] != t[j] {
      if i < |thoa| && j >= |thoa| {
        assert t[j] == batch[j - |thoa|] && t[i] == thoa[i];
      } else if i >= |thoa| {
        assert t[i] == batch[i - |thoa|] && t[j] == batch[j - |thoa|];
      }
    }
    forall i | 0 <= i < |t| ensures t[i] in remaining {
      if i >= |thoa| {
        assert t[i] == batch[i - |thoa|];
      }
    }
  }

  /** Appending candidates whose premises are known keeps every candidate supported. */
  lemma SupportedAppend(c: Config, thoa: seq<int>, batch: seq<int>, known: set<string>)
    requires Supported(c, thoa, known)
    requires forall x :: x in batch ==> x in c.byId && PremisesIn(c.byId[x], known)
    ensures Supported(c, thoa + batch, known)
  {
    var t := thoa + batch;
    forall i | 0 <= i < |t| ensures t[i] in c.byId && PremisesIn(c.byId[t[i]], known) {
      if i >= |thoa| {
        assert t[i] == batch[i - |thoa|];
      }
    }
  }

  /** A refresh keeps the invariant and leaves no applicable rule out of the candidate list. */
  lemma RefreshInv(c: Config, s: FState)
    requires Inv(c, s)
    ensures Inv(c, Refresh(c, s)) && Saturated(c, Refresh(c, s))
  {
    var batch := OrderBatch(NewCandidates(c.rules, s.thoa, s.remaining, s.known), c.structure, c.mode);
    BatchMembers(c, s);
    TidyAppend(c, s.thoa, batch, s.remaining);
    SupportedAppend(c, s.thoa, batch, s.known);
    var t := Refresh(c, s);
    assert t.thoa == s.thoa + batch;
    forall id | id in c.byId && id in t.remaining && id !in t.thoa && PremisesIn(c.byId[id], t.known)
      ensures c.byId[id].conclusion in t.known
    {
      assert id !in batch;
    }
  }

  /** The selected candidate is in the list, and the rest of the list is the other candidates. */
  lemma SelectionParts(thoa: seq<int>, structure: Structure, sel: Selection)
    requires Distinct(thoa) && SelectRule(thoa, structure) == Ok(sel)
    ensures sel.id in thoa && Distinct(sel.rest)
    ensures forall x :: x in sel.rest ==> x in thoa && x != sel.id
  {
    if structure == Stack {
      assert thoa == sel.rest + [sel.id];
      assert thoa[|thoa| - 1] == sel.id;
      assert forall i :: 0 <= i < |sel.rest| ==> sel.rest[i] == thoa[i];
    } else {
      assert thoa == [sel.id] + sel.rest;
      assert thoa[0] == sel.id;
      assert forall i :: 0 <= i < |sel.rest| ==> sel.rest[i] == thoa[i + 1];
    }
  }

  /** Firing a known-applicable unfired rule extends the derivation and the known facts. */
  lemma FireFired(c: Config, fired: seq<int>, remaining: set<int>, known: set<string>, id: int)
    requires FiredOk(c, fired, remaining, known)
    requires id in remaining && id in c.byId && PremisesIn(c.byId[id], known)
    ensures FiredOk(c, fired + [id], remaining - {id}, known + {c.byId[id].conclusion})
  {
    var f := fired + [id];
    var rem := remaining - {id};
    assert Distinct(f) by {
      DistinctSnoc(fired, id);
    }
    assert forall i :: 0 <= i < |f| ==> f[i] in c.byId && f[i] !in rem by {
      assert forall i :: 0 <= i < |fired| ==> f[i] == fired[i];
    }
    assert forall x :: x in c.byId ==> x in rem || x in f by {
      assert forall x :: x in fired ==> x in f;
    }
    assert IsDerivation(c.byId, c.init, f) && known + {c.byId[id].conclusion} == c.init + Conclusions(c.byId, f) by {
      DerivationSnoc(c.byId, c.init, fired, id);
    }
  }

  /** Taking a candidate and firing it, before the refresh, keeps the invariant. */
  lemma FireInv(c: Config, s: FState, sel: Selection)
    requires Inv(c, s) && SelectRule(s.thoa, c.structure) == Ok(sel)
    ensures sel.id in c.byId && sel.id in s.remaining
    ensures Inv(c, FState(sel.rest, s.fired + [sel.id], s.remaining - {sel.id}, s.known + {c.byId[sel.id].conclusion}))
  {
    var id := sel.id;
    SelectionParts(s.thoa, c.structure, sel);
    TakeTidy(c, s, sel);
    var j :| 0 <= j < |s.thoa| && s.thoa[j] == id;
    FireFired(c, s.fired, s.remaining, s.known, id);
    var known' := s.known + {c.byId[id].conclusion};
    forall i | 0 <= i < |sel.rest| ensures sel.rest[i] in c.byId && PremisesIn(c.byId[sel.rest[i]], known') {
      assert sel.rest[i] in sel.rest;
      var j :| 0 <= j < |s.thoa| && s.thoa[j] == sel.rest[i];
    }
  }

  /** Taking a candidate from a tidy list leaves a tidy list of the other candidates. */
  lemma TakeTidy(c: Config, s: FState, sel: Selection)
    requires Tidy(c, s.thoa, s.remaining) && SelectRule(s.thoa, c.structure) == Ok(sel)
    ensures sel.id in s.remaining && sel.id in c.byId
    ensures Tidy(c, sel.rest, s.remaining - {sel.id})
  {
    SelectionParts(s.thoa, c.structure, sel);
    var j :| 0 <= j < |s.thoa| && s.thoa[j] == sel.id;
    forall i | 0 <= i < |sel.rest| ensures sel.rest[i] in s.remaining - {sel.id} {
      assert sel.rest[i] in sel.rest;
      var j :| 0 <= j < |s.thoa| && s.thoa[j] == sel.rest[i];
    }
  }

  /** The remaining rules are exactly the ids not fired yet. */
  lemma InvRemaining(c: Config, s: FState)
    requires Inv(c, s)
    ensures s.remaining == c.byId.Keys - (set x | x in s.fired)
  {
    assert FiredOk(c, s.fired, s.remaining, s.known);
    forall x ensures x in s.remaining <==> x in c.byId && x !in (set y | y in s.fired) {
      if x in s.fired {
        var i :| 0 <= i < |s.fired| && s.fired[i] == x;
      }
    }
  }

  // ---------------------------------------------------------------------
  // One step and the loop
  // ---------------------------------------------------------------------

  /** The id `_select_rule` takes from a non-empty candidate list. */
  function Chosen(c: Config, s: FState): int
    requires s.thoa != []
  {
    SelectRule(s.thoa, c.structure).value.id
  }

  /** The state after the selected rule is fired, before the refresh. */
  function Take(c: Config, s: FState): (u: FState)
    requires Tidy(c, s.thoa, s.remaining) && s.thoa != []
    ensures Tidy(c, u.thoa, u.remaining)
  {
    var sel := SelectRule(s.thoa, c.structure).value;
    TakeTidy(c, s, sel);
    FState(sel.rest, s.fired + [sel.id], s.remaining - {sel.id}, s.known + {c.byId[sel.id].conclusion})
  }

  /**
    One turn of the loop: the selected rule is fired (appended to the fired
    list, dropped from the unfired set, its conclusion added to the known
    facts) and the candidate list is refreshed; one rule fewer is unfired.
   */
  function Fire(c: Config, s: FState): (t: FState)
    requires WellConfigured(c) && Tidy(c, s.thoa, s.remaining) && s.thoa != []
    ensures Tidy(c, t.thoa, t.remaining)
    ensures Chosen(c, s) in s.remaining && Chosen(c, s) in c.byId
    ensures t.fired == s.fired + [Chosen(c, s)]
    ensures t.remaining == s.remaining - {Chosen(c, s)} && |t.remaining| < |s.remaining|
    ensures t.known == s.known + {c.byId[Chosen(c, s)].conclusion}
  {
    var u := Take(c, s);
    BatchMembers(c, u);
    TidyAppend(c, u.thoa, OrderBatch(NewCandidates(c.rules, u.thoa, u.remaining, u.known), c.structure, c.mode), u.remaining);
    Refresh(c, u)
  }

  /** A turn of the loop keeps the invariant and leaves no applicable rule out of the candidate list. */
  lemma FireKeeps(c: Config, s: FState)
    requires Inv(c, s) && Saturated(c, s) && s.thoa != []
    ensures Inv(c, Fire(c, s)) && Saturated(c, Fire(c, s))
  {
    var sel := SelectRule(s.thoa, c.structure).value;
    FireInv(c, s, sel);
    RefreshInv(c, Take(c, s));
  }

  /** The loop stops once no candidate is left or every goal is known. */
  predicate Done(c: Config, s: FState) {
    s.thoa == [] || c.goals <= s.known
  }

  /** A history entry: the step number, the rule fired, and the run's variables after it. */
  function Snapshot(n: nat, ruleId: Option<int>, s: FState, note: Note): StepTrace {
    StepTrace(n, ruleId, s.known, s.thoa, s.remaining, s.fired, note)
  }

  /** The state a loop reaches and the history entries it records on the way. */
  datatype Run = Run(final: FState, entries: seq<StepTrace>)

  /**
    The loop of `run_forward_inference` from a state after `n` steps, with
    an entry per firing. The loop only extends the fired list.
   */
  function Continue(c: Config, s: FState, n: nat): (r: Run)
    requires WellConfigured(c) && Tidy(c, s.thoa, s.remaining)
    ensures Done(c, r.final)
    ensures |r.final.fired| >= |s.fired| && r.final.fired[..|s.fired|] == s.fired
    decreases |s.remaining|
  {
    if Done(c, s) then Run(s, [])
    else
      var id := Chosen(c, s);
      var t := Fire(c, s);
      var rest := Continue(c, t, n + 1);
      assert rest.final.fired[..|s.fired|] == rest.final.fired[..|t.fired|][..|s.fired|];
      Run(rest.final, [Snapshot(n + 1, Some(id), t, Derived(c.byId[id].conclusion))] + rest.entries)
  }

  /** The loop keeps the invariant to the end, where no applicable rule is left out. */
  lemma {:induction false} ContinueInv(c: Config, s: FState, n: nat)
    requires Inv(c, s) && Saturated(c, s)
    ensures Inv(c, Continue(c, s, n).final) && Saturated(c, Continue(c, s, n).final)
    decreases |s.remaining|
  {
    if !Done(c, s) {
      FireKeeps(c, s);
      ContinueInv(c, Fire(c, s), n + 1);
    }
  }

  /** A history entry records a state that keeps the invariant and leaves no applicable rule out. */
  predicate Coherent(c: Config, e: StepTrace) {
    var s := FState(e.thoa, e.firedRules, e.remainingRules, e.knownFacts);
    Inv(c, s) && Saturated(c, s)
  }

  /** A loop run records one entry per firing. */
  lemma {:induction false} ContinueCount(c: Config, s: FState, n: nat)
    requires WellConfigured(c) && Tidy(c, s.thoa, s.remaining)
    ensures var r := Continue(c, s, n); |r.entries| == |r.final.fired| - |s.fired|
    decreases |s.remaining|
  {
    if !Done(c, s) {
      ContinueCount(c, Fire(c, s), n + 1);
    }
  }

  /** A history entry for the rule fired at step `step`, the last of fired list `fired`. */
  predicate FiringEntry(c: Config, e: StepTrace, step: nat, fired: seq<int>) {
    && fired != [] && e.step == step
    && e.ruleId == Some(fired[|fired| - 1])
    && e.firedRules == fired
    && fired[|fired| - 1] in c.byId
    && e.note == Derived(c.byId[fired[|fired| - 1]].conclusion)
  }

  /**
    The entries of steps `n + 1` on, one for each rule of `fired` after
    the first `m`: entry `k` is step `n + k + 1` and records the fired
    list up to its rule.
   */
  predicate Firings(c: Config, es: seq<StepTrace>, n: nat, fired: seq<int>, m: nat) {
    && m <= |fired| && |es| == |fired| - m
    && forall k :: 0 <= k < |es| ==> FiringEntry(c, es[k], n + k + 1, fired[..m + k + 1])
  }

  /** An entry for one more firing in front of the entries of the later ones. */
  lemma FiringsCons(c: Config, e0: StepTrace, es: seq<StepTrace>, n: nat, fired: seq<int>, m: nat)
    requires m < |fired| && FiringEntry(c, e0, n + 1, fired[..m + 1]) && Firings(c, es, n + 1, fired, m + 1)
    ensures Firings(c, [e0] + es, n, fired, m)
  {
    var all := [e0] + es;
    forall k | 1 <= k < |all| ensures FiringEntry(c, all[k], n + k + 1, fired[..m + k + 1]) {
      assert all[k] == es[k - 1];
    }
  }

  /** Every entry snapshots a coherent state. */
  predicate AllCoherent(c: Config, es: seq<StepTrace>) {
    forall e :: e in es ==> Coherent(c, e)
  }

  /** Coherent entries followed by coherent entries. */
  lemma CoherentConcat(c: Config, a: seq<StepTrace>, b: seq<StepTrace>)
    requires AllCoherent(c, a) && AllCoherent(c, b)
    ensures AllCoherent(c, a + b)
  {
    forall e | e in a + b ensures Coherent(c, e) {
      assert e in a || e in b;
    }
  }

  /** A turn of the loop followed by the rest of the loop. */
  lemma ContinueStep(c: Config, s: FState, n: nat)
    requires WellConfigured(c) && Tidy(c, s.thoa, s.remaining) && !Done(c, s)
    ensures Chosen(c, s) in c.byId
    ensures var t := Fire(c, s); var id := Chosen(c, s);
      Continue(c, s, n) ==
        Run(Continue(c, t, n + 1).final,
            [Snapshot(n + 1, Some(id), t, Derived(c.byId[id].conclusion))] + Continue(c, t, n + 1).entries)
  {
  }

  /**
    Entry `k` of a loop run from a state after `n` steps is step
    `n + k + 1`, names the rule fired then, and records the fired list up
    to it and that rule's conclusion.
   */
  lemma {:induction false} ContinueFirings(c: Config, s: FState, n: nat)
    requires WellConfigured(c) && Tidy(c, s.thoa, s.remaining)
    ensures var r := Continue(c, s, n); Firings(c, r.entries, n, r.final.fired, |s.fired|)
    decreases |s.remaining|
  {
    if !Done(c, s) {
      ContinueStep(c, s, n);
      var id := Chosen(c, s);
      var t := Fire(c, s);
      var rest := Continue(c, t, n + 1);
      ContinueFirings(c, t, n + 1);
      var e0 := Snapshot(n + 1, Some(id), t, Derived(c.byId[id].conclusion));
      var f := rest.final.fired;
      assert f[..|s.fired| + 1] == t.fired;
      FiringsCons(c, e0, rest.entries, n, f, |s.fired|);
    }
  }

  /** Every entry of a loop run snapshots a coherent state. */
  lemma {:induction false} ContinueCoherent(c: Config, s: FState, n: nat)
    requires Inv(c, s) && Saturated(c, s)
    ensures AllCoherent(c, Continue(c, s, n).entries)
    decreases |s.remaining|
  {
    if !Done(c, s) {
      ContinueStep(c, s, n);
      var id := Chosen(c, s);
      var t := Fire(c, s);
      FireKeeps(c, s);
      var rest := Continue(c, t, n + 1);
      ContinueCoherent(c, t, n + 1);
      var e0 := Snapshot(n + 1, Some(id), t, Derived(c.byId[id].conclusion));
      assert FState(e0.thoa, e0.firedRules, e0.remainingRules, e0.knownFacts) == t;
      assert AllCoherent(c, [e0]);
      CoherentConcat(c, [e0], rest.entries);
    }
  }

  // ---------------------------------------------------------------------
  // A whole run
  // ---------------------------------------------------------------------

  /** `{rule.id for rule in rules}`: every rule starts unfired. */
  function RuleIds(rules: seq<Rule>): set<int> {
    set r | r in rules :: r.id
  }

  /** The unfired set a run starts with is the set of indexed ids. */
  lemma RuleIdsIndexed(rules: seq<Rule>)
    ensures RuleIds(rules) == IndexById(rules).Keys
  {
    forall id | id in IndexById(rules) ensures id in RuleIds(rules) {
      var k := FindId(rules, id).value;
      assert rules[k] in rules;
    }
    forall id | id in RuleIds(rules) ensures id in IndexById(rules) {
      var r :| r in rules && r.id == id;
      var k :| 0 <= k < |rules| && rules[k] == r;
    }
  }

  /** The state after the facts are seeded: nothing fired, every rule unfired, the first refresh done. */
  function Start(c: Config): (s: FState)
    requires WellConfigured(c)
    ensures Tidy(c, s.thoa, s.remaining) && s.fired == [] && s.known == c.init
  {
    RuleIdsIndexed(c.rules);
    var s := FState([], [], RuleIds(c.rules), c.init);
    BatchMembers(c, s);
    TidyAppend(c, [], OrderBatch(NewCandidates(c.rules, [], s.remaining, s.known), c.structure, c.mode), s.remaining);
    Refresh(c, s)
  }

  /** The seeded state keeps the invariant and leaves no applicable rule out of the candidate list. */
  lemma StartInv(c: Config)
    requires WellConfigured(c)
    ensures Inv(c, Start(c)) && Saturated(c, Start(c))
  {
    RuleIdsIndexed(c.rules);
    var s := FState([], [], RuleIds(c.rules), c.init);
    assert Conclusions(c.byId, []) == {};
    assert Inv(c, s);
    RefreshInv(c, s);
  }

  /**
    `run_forward_inference` once its options are checked: the seeded
    state, the loop, the result and the history, whose last entry says
    that no rule is left when the run stops without its goals.
   */
  function Chaining(c: Config): ForwardResult
    requires WellConfigured(c)
  {
    var s0 := Start(c);
    var run := Continue(c, s0, 0);
    var success := c.goals <= run.final.known;
    var last := if !success && run.final.thoa == [] then [Snapshot(|run.final.fired| + 1, None, run.final, NoRuleLeft)] else [];
    ForwardResult(success, c.goals, run.final.known, run.final.fired,
                  [Snapshot(0, None, s0, Initial)] + run.entries + last)
  }

  /**
    Soundness: the fired rules, in order, are a derivation from the
    starting facts, the final facts are exactly what they derive, and a
    successful run has derived its goals.
   */
  lemma ChainingSound(c: Config)
    requires WellConfigured(c)
    ensures var r := Chaining(c);
      && IsDerivation(c.byId, c.init, r.firedRules)
      && r.finalFacts == c.init + Conclusions(c.byId, r.firedRules)
      && (r.success <==> c.goals <= r.finalFacts)
      && (r.success ==> Derivable(c.byId, c.init, c.goals))
  {
    StartInv(c);
    ContinueInv(c, Start(c), 0);
  }

  /** With no candidate left, every rule whose premises are known has a known conclusion. */
  lemma FinalClosed(c: Config, s: FState)
    requires Inv(c, s) && Saturated(c, s) && s.thoa == []
    ensures Closed(c.byId, s.known)
  {
    forall id | id in c.byId && PremisesIn(c.byId[id], s.known) ensures c.byId[id].conclusion in s.known {
      if id !in s.remaining {
        var k :| 0 <= k < |s.fired| && s.fired[k] == id;
      }
    }
  }

  /**
    Completeness: a run succeeds exactly when its goals can be derived
    from its starting facts; a failed run ends on a set of facts closed
    under the rules.
   */
  lemma ChainingComplete(c: Config)
    requires WellConfigured(c)
    ensures var r := Chaining(c);
      && (r.success <==> Derivable(c.byId, c.init, c.goals))
      && (!r.success ==> Closed(c.byId, r.finalFacts))
  {
    StartInv(c);
    var run := Continue(c, Start(c), 0);
    ContinueInv(c, Start(c), 0);
    ChainingSound(c);
    if !(c.goals <= run.final.known) {
      FinalClosed(c, run.final);
      ClosedNotDerivable(c.byId, c.init, run.final.known, c.goals);
    }
  }

  /** The index has at most one id per rule. */
  lemma {:induction false} KeysCard(rules: seq<Rule>)
    ensures |IndexById(rules).Keys| <= |rules|
  {
    if rules != [] {
      KeysCard(rules[..|rules| - 1]);
    }
  }

  /** A repeat-free list of members of a set is no longer than the set is large. */
  lemma DistinctWithin(f: seq<int>, keys: set<int>)
    requires Distinct(f) && forall i :: 0 <= i < |f| ==> f[i] in keys
    ensures |f| <= |keys|
  {
    DistinctCard(f);
    var elems := set x | x in f;
    assert keys == elems + (keys - elems);
    assert elems * (keys - elems) == {};
  }

  /** No rule fires twice, so a run fires at most as many rules as there are, all of them indexed. */
  lemma ChainingBound(c: Config)
    requires WellConfigured(c)
    ensures var r := Chaining(c);
      && Distinct(r.firedRules) && |r.firedRules| <= |c.rules|
      && forall i :: 0 <= i < |r.firedRules| ==> r.firedRules[i] in c.byId
  {
    StartInv(c);
    var s := Continue(c, Start(c), 0).final;
    ContinueInv(c, Start(c), 0);
    assert FiredOk(c, s.fired, s.remaining, s.known);
    DistinctWithin(s.fired, c.byId.Keys);
    KeysCard(c.rules);
  }

  /**
    The history of a run: the initial entry (step 0, no rule, nothing
    fired, the starting facts), one entry per fired rule in firing order
    (step `k`, the `k`-th rule, the first `k` fired rules, its conclusion),
    and, exactly when the run fails, a last entry (one step later, no
    rule, no candidate, the final facts and fired rules) saying that no
    rule is left.
   */
  lemma ChainingHistory(c: Config)
    requires WellConfigured(c)
    ensures var r := Chaining(c); var f := r.firedRules; var h := r.history;
      && |h| == |f| + 1 + (if r.success then 0 else 1)
      && h[0].step == 0 && h[0].ruleId == None && h[0].note == Initial
      && h[0].firedRules == [] && h[0].knownFacts == c.init
      && Firings(c, h[1..|f| + 1], 0, f, 0)
      && (!r.success ==>
            var e := h[|h| - 1];
            && e.step == |f| + 1 && e.ruleId == None && e.note == NoRuleLeft
            && e.thoa == [] && e.firedRules == f && e.knownFacts == r.finalFacts)
  {
    var s0 := Start(c);
    var run := Continue(c, s0, 0);
    ContinueFirings(c, s0, 0);
    var r := Chaining(c);
    var last := if !r.success && run.final.thoa == [] then [Snapshot(|run.final.fired| + 1, None, run.final, NoRuleLeft)] else [];
    assert r.history == [Snapshot(0, None, s0, Initial)] + run.entries + last;
    assert r.history[1..|r.firedRules| + 1] == run.entries;
  }

  /** Every entry of a run's history snapshots a state that keeps the invariant and leaves no applicable rule out. */
  lemma ChainingCoherent(c: Config)
    requires WellConfigured(c)
    ensures AllCoherent(c, Chaining(c).history)
  {
    var s0 := Start(c);
    StartInv(c);
    var run := Continue(c, s0, 0);
    ContinueCoherent(c, s0, 0);
    ContinueInv(c, s0, 0);
    var success := c.goals <= run.final.known;
    var e0 := Snapshot(0, None, s0, Initial);
    assert FState(e0.thoa, e0.firedRules, e0.remainingRules, e0.knownFacts) == s0;
    assert AllCoherent(c, [e0]);
    CoherentConcat(c, [e0], run.entries);
    var last := if !success && run.final.thoa == [] then [Snapshot(|run.final.fired| + 1, None, run.final, NoRuleLeft)] else [];
    if last != [] {
      var e := last[0];
      assert FState(e.thoa, e.firedRules, e.remainingRules, e.knownFacts) == run.final;
    }
    assert AllCoherent(c, last);
    CoherentConcat(c, [e0] + run.entries, last);
  }

  /** A run whose goals hold from the start fires nothing and records only its initial entry. */
  lemma ChainingGoalsKnown(c: Config)
    requires WellConfigured(c) && c.goals <= c.init
    ensures var r := Chaining(c); r.success && r.firedRules == [] && |r.history| == 1
  {
  }

  /** The end a stack pops and the end a queue pops. */
  function PickEnd(batch: seq<int>, structure: Structure): int
    requires batch != []
  {
    if structure == Stack then batch[|batch| - 1] else batch[0]
  }

  /** From a batch ordered as a refresh orders it, the popped end is the smallest id under `min`, the largest under `max`. */
  lemma PickExtreme(batch: seq<int>, structure: Structure, mode: IndexMode)
    requires batch != []
    requires DescendingBatch(structure, mode) ==> StrictlyDescending(batch, IntKey)
    requires !DescendingBatch(structure, mode) ==> StrictlyAscending(batch, IntKey)
    ensures forall x :: x in batch ==>
      (mode == Min ==> PickEnd(batch, structure) <= x) && (mode == Max ==> x <= PickEnd(batch, structure))
  {
    forall x | x in batch
      ensures (mode == Min ==> PickEnd(batch, structure) <= x) && (mode == Max ==> x <= PickEnd(batch, structure))
    {
      var j :| 0 <= j < |batch| && batch[j] == x;
      if structure == Stack && j < |batch| - 1 {
        assert IntKey(batch[j]) != IntKey(batch[|batch| - 1]);
      } else if structure == Queue && 0 < j {
        assert IntKey(batch[0]) != IntKey(batch[j]);
      }
    }
  }

  /**
    The order the index mode sets: when a refresh adds candidates and the
    next pick comes from them (always for a stack, from an empty list for
    a queue), the rule picked is the applicable one with the smallest id
    under `min` and the largest under `max`.
   */
  lemma RefreshPick(c: Config, s: FState)
    requires WellConfigured(c)
    requires exists id :: id in c.byId && Applicable(c.byId[id], s.thoa, s.remaining, s.known)
    requires c.structure == Stack || s.thoa == []
    ensures var t := Refresh(c, s);
      t.thoa != [] &&
      (var id := SelectRule(t.thoa, c.structure).value.id;
       && id in c.byId && Applicable(c.byId[id], s.thoa, s.remaining, s.known)
       && forall x :: x in c.byId && Applicable(c.byId[x], s.thoa, s.remaining, s.known) ==>
            (c.mode == Min ==> id <= x) && (c.mode == Max ==> x <= id))
  {
    var nc := NewCandidates(c.rules, s.thoa, s.remaining, s.known);
    var batch := OrderBatch(nc, c.structure, c.mode);
    BatchMembers(c, s);
    NewCandidatesSpec(c.rules, s.thoa, s.remaining, s.known);
    var w :| w in c.byId && Applicable(c.byId[w], s.thoa, s.remaining, s.known);
    assert w in batch;
    PickExtreme(batch, c.structure, c.mode);
    SelectAppended(s.thoa, batch, c.structure);
  }

  /** Selecting from a list with a batch appended pops the batch's end (a stack, or a queue that was empty). */
  lemma SelectAppended(thoa: seq<int>, batch: seq<int>, structure: Structure)
    requires batch != [] && (structure == Stack || thoa == [])
    ensures SelectRule(thoa + batch, structure).value.id == PickEnd(batch, structure)
  {
    if structure == Queue {
      assert thoa + batch == batch;
    }
  }

  // ---------------------------------------------------------------------
  // The entry point
  // ---------------------------------------------------------------------

  /** The facts a run starts from: the given ones, normalised, or else the knowledge base's. */
  function StartFacts(kbFacts: set<string>, initialFacts: Option<seq<string>>): set<string> {
    if initialFacts.Some? then NormalizedFacts(initialFacts.value) else kbFacts
  }

  /** The configuration of a run whose options passed the checks. */
  function ConfigFor(rules: seq<Rule>, kbFacts: set<string>, goals: seq<string>, structure: Structure,
                     mode: IndexMode, initialFacts: Option<seq<string>>): Config {
    Config(rules, IndexById(rules), StartFacts(kbFacts, initialFacts), NormalizedFacts(goals), structure, mode)
  }

  /**
    `run_forward_inference` on the rules of a knowledge base in id order
    and its facts: the strategy, the index mode, the presence of rules and
    of a non-blank goal are checked in that order, and the first that
    fails is the error; otherwise the result is that of the run on the
    checked configuration.
   */
  function ForwardInference(rules: seq<Rule>, kbFacts: set<string>, goals: seq<string>, strategy: string,
                            indexMode: string, initialFacts: Option<seq<string>>): (r: Result<ForwardResult>)
    requires UniqueIds(rules)
    ensures ParseStructure(strategy).Err? ==> r == Err(InvalidChoice("strategy", Structures))
    ensures ParseStructure(strategy).Ok? && ParseIndexMode(indexMode).Err? ==> r == Err(InvalidChoice("index_mode", IndexModes))
    ensures ParseStructure(strategy).Ok? && ParseIndexMode(indexMode).Ok? && rules == [] ==> r == Err(NoRules)
    ensures ParseStructure(strategy).Ok? && ParseIndexMode(indexMode).Ok? && rules != [] && NormalizedFacts(goals) == {} ==>
      r == Err(NoGoals)
    ensures r.Ok? <==> ParseStructure(strategy).Ok? && ParseIndexMode(indexMode).Ok? && rules != [] && NormalizedFacts(goals) != {}
    ensures r.Ok? ==> r.value.goals == NormalizedFacts(goals)
  {
    var structure :- ParseStructure(strategy);
    var mode :- ParseIndexMode(indexMode);
    if rules == [] then Err(NoRules)
    else if NormalizedFacts(goals) == {} then Err(NoGoals)
    else Ok(Chaining(ConfigFor(rules, kbFacts, goals, structure, mode, initialFacts)))
  }

  /**
    What a forward run promises, with the starting facts and the index of
    the rules: it succeeds exactly when the goals can be derived; the
    fired rules are a derivation, without repeats and no more than there
    are rules, that yields exactly the final facts.
   */
  lemma ForwardCorrect(rules: seq<Rule>, kbFacts: set<string>, goals: seq<string>, strategy: string,
                       indexMode: string, initialFacts: Option<seq<string>>)
    requires UniqueIds(rules)
    ensures var r := ForwardInference(rules, kbFacts, goals, strategy, indexMode, initialFacts);
      var byId := IndexById(rules); var init := StartFacts(kbFacts, initialFacts);
      r.Ok? ==>
        && r.value.goals == NormalizedFacts(goals)
        && (r.value.success <==> Derivable(byId, init, r.value.goals))
        && IsDerivation(byId, init, r.value.firedRules)
        && r.value.finalFacts == init + Conclusions(byId, r.value.firedRules)
        && Distinct(r.value.firedRules) && |r.value.firedRules| <= |rules|
  {
    var r := ForwardInference(rules, kbFacts, goals, strategy, indexMode, initialFacts);
    if r.Ok? {
      var c := ConfigFor(rules, kbFacts, goals, ParseStructure(strategy).value, ParseIndexMode(indexMode).value, initialFacts);
      ChainingSound(c);
      ChainingComplete(c);
      ChainingBound(c);
    }
  }

  /** The rules of a valid knowledge base, in id order, have unique ids. */
  lemma IterRulesUnique(kb: KnowledgeBase)
    requires kb.Valid()
    ensures UniqueIds(kb.IterRules())
  {
  }

  /** A run that passes its checks is the run of its checked configuration. */
  lemma ForwardIsChaining(rules: seq<Rule>, kbFacts: set<string>, goals: seq<string>, strategy: string,
                          indexMode: string, initialFacts: Option<seq<string>>)
    requires UniqueIds(rules)
    ensures var r := ForwardInference(rules, kbFacts, goals, strategy, indexMode, initialFacts);
      r.Ok? ==>
        r.value == Chaining(ConfigFor(rules, kbFacts, goals, ParseStructure(strategy).value,
                                      ParseIndexMode(indexMode).value, initialFacts))
  {
  }

  /**
    The loop so far agrees with the run from the seeded state `s0`: the
    entries recorded, followed by those the rest of the loop records, are
    the run's, and the rest of the loop ends where the run ends.
   */
  predicate Tracks(c: Config, s: FState, n: nat, history: seq<StepTrace>, s0: FState)
    requires WellConfigured(c) && Tidy(c, s.thoa, s.remaining) && Tidy(c, s0.thoa, s0.remaining)
  {
    && Continue(c, s, n).final == Continue(c, s0, 0).final
    && history + Continue(c, s, n).entries == [Snapshot(0, None, s0, Initial)] + Continue(c, s0, 0).entries
  }

  /** One turn of the loop, recorded, keeps the agreement. */
  lemma TracksStep(c: Config, s: FState, n: nat, history: seq<StepTrace>, s0: FState)
    requires WellConfigured(c) && Tidy(c, s.thoa, s.remaining) && Tidy(c, s0.thoa, s0.remaining) && !Done(c, s)
    requires Tracks(c, s, n, history, s0)
    ensures Chosen(c, s) in c.byId
    ensures Tracks(c, Fire(c, s), n + 1,
                   history + [Snapshot(n + 1, Some(Chosen(c, s)), Fire(c, s), Derived(c.byId[Chosen(c, s)].conclusion))], s0)
  {
    ContinueStep(c, s, n);
    var t := Fire(c, s);
    var e := Snapshot(n + 1, Some(Chosen(c, s)), t, Derived(c.byId[Chosen(c, s)].conclusion));
    var rest := Continue(c, t, n + 1);
    var whole := Continue(c, s, n);
    assert whole.final == rest.final && whole.entries == [e] + rest.entries;
    ConcatAssoc(history, [e], rest.entries);
  }

  /** When the loop stops, the recorded entries and state are those of the run, and the closing entry completes its history. */
  lemma TracksEnd(c: Config, s: FState, n: nat, history: seq<StepTrace>)
    requires WellConfigured(c) && Tidy(c, s.thoa, s.remaining) && Done(c, s) && n == |s.fired|
    requires Tracks(c, s, n, history, Start(c))
    ensures Chaining(c) ==
      ForwardResult(c.goals <= s.known, c.goals, s.known, s.fired,
                    history + (if !(c.goals <= s.known) && s.thoa == [] then [Snapshot(n + 1, None, s, NoRuleLeft)] else []))
  {
    var s0 := Start(c);
    var run := Continue(c, s0, 0);
    assert run.final == s && [Snapshot(0, None, s0, Initial)] + run.entries == history by {
      ContinueDone(c, s, n);
      assert history + [] == history;
    }
  }

  /** A loop that has stopped records nothing more. */
  lemma ContinueDone(c: Config, s: FState, n: nat)
    requires WellConfigured(c) && Tidy(c, s.thoa, s.remaining) && Done(c, s)
    ensures Continue(c, s, n) == Run(s, [])
  {
  }

  /**
    One turn of the loop of `run_forward_inference`: pop a candidate, fire
    it, refresh the candidate list.
   */
  method FireOne(ghost c: Config, thoa: seq<int>, fired: seq<int>, remaining: set<int>, known: set<string>,
                 rules: seq<Rule>, ruleIndex: map<int, Rule>, structure: Structure, mode: IndexMode)
    returns (thoa': seq<int>, fired': seq<int>, remaining': set<int>, known': set<string>, ruleId: int, conclusion: string)
    requires WellConfigured(c) && c.rules == rules && c.byId == ruleIndex && c.structure == structure && c.mode == mode
    requires Tidy(c, thoa, remaining) && thoa != []
    ensures ruleId == Chosen(c, FState(thoa, fired, remaining, known)) && ruleId in c.byId
    ensures conclusion == c.byId[ruleId].conclusion
    ensures FState(thoa', fired', remaining', known') == Fire(c, FState(thoa, fired, remaining, known))
  {
    ghost var cur := FState(thoa, fired, remaining, known);
    TakeTidy(c, cur, SelectRule(thoa, structure).value);
    var sel := SelectRule(thoa, structure).value;
    ruleId := sel.id;
    var rule := ruleIndex[ruleId];
    conclusion := rule.conclusion;
    fired' := fired + [ruleId];
    remaining' := remaining - {ruleId};
    known' := known + {conclusion};
    thoa' := EnqueueCandidates(sel.rest, remaining', known', rules, structure, mode);
  }

  /**
    The body of `run_forward_inference` after its checks: the seeding
    refresh, then the loop that pops a candidate, fires it, refreshes the
    candidate list and records a history entry, and the closing entry of
    a failed run.
   */
  method RunChaining(ghost c: Config, rules: seq<Rule>, init: set<string>, goalSet: set<string>,
                     structure: Structure, mode: IndexMode) returns (result: ForwardResult)
    requires WellConfigured(c) && c == Config(rules, IndexById(rules), init, goalSet, structure, mode)
    ensures result == Chaining(c)
  {
    var known := init;
    var thoa: seq<int> := [];
    var fired: seq<int> := [];
    var remaining := RuleIds(rules);
    var ruleIndex := IndexById(rules);
    thoa := EnqueueCandidates(thoa, remaining, known, rules, structure, mode);
    ghost var s0 := Start(c);
    assert FState(thoa, fired, remaining, known) == s0;
    var history := [StepTrace(0, None, known, thoa, remaining, fired, Initial)];
    var step := 0;
    while thoa != [] && !(goalSet <= known)
      invariant Tidy(c, thoa, remaining) && step == |fired|
      invariant Tracks(c, FState(thoa, fired, remaining, known), step, history, s0)
      decreases |remaining|
    {
      ghost var cur := FState(thoa, fired, remaining, known);
      TracksStep(c, cur, step, history, s0);
      var ruleId, conclusion;
      thoa, fired, remaining, known, ruleId, conclusion := FireOne(c, thoa, fired, remaining, known, rules, ruleIndex, structure, mode);
      step := step + 1;
      history := history + [StepTrace(step, Some(ruleId), known, thoa, remaining, fired, Derived(conclusion))];
    }
    TracksEnd(c, FState(thoa, fired, remaining, known), step, history);
    var success := goalSet <= known;
    if !success && thoa == [] {
      history := history + [StepTrace(step + 1, None, known, thoa, remaining, fired, NoRuleLeft)];
    }
    result := ForwardResult(success, goalSet, known, fired, history);
  }

  /** `run_forward_inference`: the checks, then the run on the rules and facts of the knowledge base. */
  method RunForwardInference(kb: KnowledgeBase, goals: seq<string>, strategy: string, indexMode: string,
                             initialFacts: Option<seq<string>>) returns (r: Result<ForwardResult>)
    requires kb.Valid()
    ensures UniqueIds(kb.IterRules())
    ensures r == ForwardInference(kb.IterRules(), kb.facts, goals, strategy, indexMode, initialFacts)
  {
    IterRulesUnique(kb);
    var structure :- ParseStructure(strategy);
    var mode :- ParseIndexMode(indexMode);
    var rules := kb.IterRules();
    if rules == [] {
      return Err(NoRules);
    }
    var goalSet := NormalizedFacts(goals);
    if goalSet == {} {
      return Err(NoGoals);
    }
    ForwardIsChaining(rules, kb.facts, goals, strategy, indexMode, initialFacts);
    var known := if initialFacts.Some? then NormalizedFacts(initialFacts.value) else kb.facts;
    ghost var c := ConfigFor(rules, kb.facts, goals, structure, mode, initialFacts);
    var result := RunChaining(c, rules, known, goalSet, structure, mode);
    r := Ok(result);
  }

  // ---------------------------------------------------------------------
  // Examples
  // ---------------------------------------------------------------------

  /** A derivation of `goal` over a one-rule index, with distinct ids, is that rule fired once. */
  lemma OnlyFiring(byId: map<int, Rule>, init: set<string>, f: seq<int>, id: int, goal: string)
    requires byId.Keys == {id} && Distinct(f) && goal !in init
    requires forall k :: 0 <= k < |f| ==> f[k] in byId
    requires goal in init + Conclusions(byId, f)
    ensures f == [id]
  {
    assert goal in Conclusions(byId, f);
    var k :| 0 <= k < |f| && f[k] in byId && byId[f[k]].conclusion == goal;
    DistinctWithin(f, byId.Keys);
    assert f == [f[0]];
  }

  /** The configuration of one rule, with its index. */
  lemma SingleConfig(r1: Rule, init: set<string>, goals: set<string>, structure: Structure, mode: IndexMode)
    ensures var c := Config([r1], IndexById([r1]), init, goals, structure, mode);
      WellConfigured(c) && c.byId == map[r1.id := r1] && c.byId.Keys == {r1.id}
  {
    assert [r1][..0] == [];
  }

  /** A single firing concludes what its rule concludes. */
  lemma ConclusionsOne(byId: map<int, Rule>, id: int)
    requires id in byId
    ensures Conclusions(byId, [id]) == {byId[id].conclusion}
  {
    var ids: seq<int> := [];
    DerivationSnoc(byId, {}, ids, id);
    assert ids + [id] == [id];
  }

  /** Firing a rule whose premises are known derives its conclusion. */
  lemma FiringOne(byId: map<int, Rule>, init: set<string>, id: int)
    requires id in byId && PremisesIn(byId[id], init)
    ensures Derivable(byId, init, {byId[id].conclusion})
  {
    var ids: seq<int> := [];
    DerivationSnoc(byId, init, ids, id);
    var one := ids + [id];
    assert IsDerivation(byId, init, one) && byId[id].conclusion in Conclusions(byId, one);
  }

  /** A single rule whose premises are known and whose conclusion is the goal fires, alone. */
  lemma SingleRuleFires(r1: Rule, init: set<string>, structure: Structure, mode: IndexMode)
    requires PremisesIn(r1, init) && r1.conclusion !in init
    ensures var c := Config([r1], IndexById([r1]), init, {r1.conclusion}, structure, mode);
      var r := Chaining(c);
      r.success && r.firedRules == [r1.id]
  {
    var c := Config([r1], IndexById([r1]), init, {r1.conclusion}, structure, mode);
    SingleConfig(r1, init, c.goals, structure, mode);
    var r := Chaining(c);
    assert r.success by {
      SingleRuleSucceeds(r1, c);
    }
    var f := r.firedRules;
    assert r1.conclusion in init + Conclusions(c.byId, f) by {
      ChainingSound(c);
    }
    assert Distinct(f) && forall k :: 0 <= k < |f| ==> f[k] in c.byId by {
      ChainingBound(c);
    }
    OnlyFiring(c.byId, init, f, r1.id, r1.conclusion);
  }

  /** The run over a single rule whose premises are known reaches its conclusion. */
  lemma SingleRuleSucceeds(r1: Rule, c: Config)
    requires WellConfigured(c) && c.byId == map[r1.id := r1] && PremisesIn(r1, c.init)
    requires c.goals == {r1.conclusion}
    ensures Chaining(c).success
  {
    FiringOne(c.byId, c.init, r1.id);
    ChainingComplete(c);
  }

  /**
    A single rule whose premises are known and whose conclusion is the
    goal (as `R1: a ^ b -> c` with facts `a`, `b` and goal `c`): the run
    fires it once and succeeds, with the initial entry and one more.
   */
  lemma SingleRuleRun(r1: Rule, init: set<string>, structure: Structure, mode: IndexMode)
    requires PremisesIn(r1, init) && r1.conclusion !in init
    ensures var c := Config([r1], IndexById([r1]), init, {r1.conclusion}, structure, mode);
      var r := Chaining(c);
      r.success && r.firedRules == [r1.id] && r.finalFacts == init + {r1.conclusion} && |r.history| == 2
  {
    var c := Config([r1], IndexById([r1]), init, {r1.conclusion}, structure, mode);
    SingleConfig(r1, init, c.goals, structure, mode);
    SingleRuleFires(r1, init, structure, mode);
    ChainingSound(c);
    ConclusionsOne(c.byId, r1.id);
    ChainingHistory(c);
  }

  /** The first rule of a derivation fires on the starting facts alone. */
  lemma FirstFiring(byId: map<int, Rule>, init: set<string>, f: seq<int>)
    requires IsDerivation(byId, init, f) && f != []
    ensures f[0] in byId && PremisesIn(byId[f[0]], init)
  {
    DerivationAt(byId, init, f, 0);
    assert f[..0] == [];
  }

  /** A single rule whose premises are not all known fires nothing, and the history ends saying that no rule is left. */
  lemma SingleRuleStuck(r1: Rule, init: set<string>, structure: Structure, mode: IndexMode)
    requires !PremisesIn(r1, init) && r1.conclusion !in init
    ensures var c := Config([r1], IndexById([r1]), init, {r1.conclusion}, structure, mode);
      var r := Chaining(c);
      !r.success && r.firedRules == [] && r.finalFacts == init && |r.history| == 2
      && r.history[1].note == NoRuleLeft
  {
    var rules := [r1];
    var byId := IndexById(rules);
    assert byId == map[r1.id := r1] by {
      assert rules[..0] == [];
    }
    var c := Config(rules, byId, init, {r1.conclusion}, structure, mode);
    assert WellConfigured(c);
    assert Closed(byId, init);
    ClosedNotDerivable(byId, init, init, c.goals);
    ChainingComplete(c);
    ChainingSound(c);
    ChainingHistory(c);
    ChainingBound(c);
    var f := Chaining(c).firedRules;
    if f != [] {
      FirstFiring(byId, init, f);
      assert false;
    }
  }
}
