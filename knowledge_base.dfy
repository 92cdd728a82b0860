/**
  The knowledge base: a rule list with an id index and an id counter, and
  a set of known facts. The rule list, the index, the counter and the fact
  set are fields that the operations update in place.
 */
module Knowledge {
  import opened Strings
  import opened Seqs
  import opened Results
  import opened Models
  import opened Utils

  // ---------------------------------------------------------------------
  // The index and the counter as functions of the rule list
  // ---------------------------------------------------------------------

  /** No two rules share an id. */
  predicate UniqueIds(rules: seq<Rule>) {
    DistinctKeys(rules, RuleId)
  }

  /** `{rule.id: rule for rule in rules}`: a later rule with the same id overwrites an earlier one. */
  function IndexById(rules: seq<Rule>): (m: map<int, Rule>)
    ensures forall k :: 0 <= k < |rules| ==> rules[k].id in m
    ensures forall id :: id in m ==> FindId(rules, id).Some? && m[id].id == id
  {
    if rules == [] then map[]
    else
      var prefix := rules[..|rules| - 1];
      var last := rules[|rules| - 1];
      assert rules == prefix + [last];
      IndexById(prefix)[last.id := last]
  }

  /** `max(ids, default=0)`. */
  function MaxId(rules: seq<Rule>): (r: int)
    ensures rules == [] ==> r == 0
    ensures forall k :: 0 <= k < |rules| ==> rules[k].id <= r
    ensures rules != [] ==> exists k :: 0 <= k < |rules| && rules[k].id == r
  {
    if rules == [] then 0
    else if |rules| == 1 then rules[0].id
    else
      var m := MaxId(rules[1..]);
      if rules[0].id >= m then rules[0].id else m
  }

  /** The counter `_rebuild_index` sets: one more than the largest id, or 1 without rules. */
  function NextIdFor(rules: seq<Rule>): (n: int)
    ensures forall k :: 0 <= k < |rules| ==> rules[k].id < n
    ensures rules == [] ==> n == 1
  {
    MaxId(rules) + 1
  }

  /** The position of the first rule with the given id, if any. */
  function FindId(rules: seq<Rule>, id: int): (r: Option<nat>)
    ensures r.Some? ==> (r.value < |rules| && rules[r.value].id == id
      && forall k :: 0 <= k < r.value ==> rules[k].id != id)
    ensures r.None? ==> forall k :: 0 <= k < |rules| ==> rules[k].id != id
  {
    if rules == [] then None
    else if rules[0].id == id then Some(0)
    else match FindId(rules[1..], id)
      case None => None
      case Some(k) => Some(k + 1)
  }

  /** Appending a rule adds (or overwrites) its own entry of the index. */
  lemma IndexAppend(rules: seq<Rule>, x: Rule)
    ensures IndexById(rules + [x]) == IndexById(rules)[x.id := x]
  {
    assert (rules + [x])[..|rules|] == rules;
  }

  /** With unique ids, the index maps each rule's id to that rule. */
  lemma {:induction false} IndexUnique(rules: seq<Rule>, k: nat)
    requires UniqueIds(rules) && k < |rules|
    ensures IndexById(rules)[rules[k].id] == rules[k]
  {
    var prefix := rules[..|rules| - 1];
    if k < |rules| - 1 {
      IndexUnique(prefix, k);
      assert rules[|rules| - 1].id != rules[k].id;
    }
  }

  /** With unique ids, a map holding exactly each rule under its id is the index. */
  lemma IndexEq(rules: seq<Rule>, m: map<int, Rule>)
    requires UniqueIds(rules)
    requires forall k :: 0 <= k < |rules| ==> rules[k].id in m && m[rules[k].id] == rules[k]
    requires forall id :: id in m ==> FindId(rules, id).Some?
    ensures m == IndexById(rules)
  {
    var idx := IndexById(rules);
    forall id | id in m ensures id in idx && idx[id] == m[id] {
      var k := FindId(rules, id).value;
      IndexUnique(rules, k);
    }
    forall id | id in idx ensures id in m {
      assert rules[FindId(rules, id).value].id == id;
    }
    assert m.Keys == idx.Keys;
  }

  /** With unique ids, an id is in the index exactly when some rule has it, and maps to that rule. */
  lemma IndexFind(rules: seq<Rule>, id: int)
    requires UniqueIds(rules)
    ensures id in IndexById(rules) <==> FindId(rules, id).Some?
    ensures id in IndexById(rules) ==> IndexById(rules)[id] == rules[FindId(rules, id).value]
  {
    var idx := IndexById(rules);
    if FindId(rules, id).Some? {
      IndexUnique(rules, FindId(rules, id).value);
    }
  }

  /** Replacing a rule by one with the same id keeps ids unique and replaces its index entry. */
  lemma IndexReplace(rules: seq<Rule>, i: nat, u: Rule)
    requires UniqueIds(rules) && i < |rules| && u.id == rules[i].id
    ensures UniqueIds(rules[i := u])
    ensures IndexById(rules[i := u]) == IndexById(rules)[u.id := u]
  {
    var after := rules[i := u];
    var m := IndexById(rules)[u.id := u];
    forall k | 0 <= k < |after| ensures after[k].id in m && m[after[k].id] == after[k] {
      if k != i {
        IndexUnique(rules, k);
      }
    }
    forall id | id in m ensures FindId(after, id).Some? {
      if id != u.id {
        var k := FindId(rules, id).value;
        assert after[k].id == id;
      } else {
        assert after[i].id == id;
      }
    }
    IndexEq(after, m);
  }

  /** Removing a rule keeps ids unique. */
  lemma RemoveUnique(rules: seq<Rule>, i: nat)
    requires UniqueIds(rules) && i < |rules|
    ensures UniqueIds(rules[..i] + rules[i + 1..])
  {
    var after := rules[..i] + rules[i + 1..];
    RemoveAt(rules, i, after);
    forall a, b | 0 <= a < b < |after| ensures after[a].id != after[b].id {
      assert after[a] == rules[if a < i then a else a + 1];
      assert after[b] == rules[if b < i then b else b + 1];
    }
  }

  /** Removing a rule drops exactly its index entry. */
  lemma IndexRemove(rules: seq<Rule>, i: nat)
    requires UniqueIds(rules) && i < |rules|
    ensures UniqueIds(rules[..i] + rules[i + 1..])
    ensures IndexById(rules[..i] + rules[i + 1..]) == IndexById(rules) - {rules[i].id}
  {
    var after := rules[..i] + rules[i + 1..];
    var m := IndexById(rules) - {rules[i].id};
    RemoveUnique(rules, i);
    RemoveKeepsEntries(rules, i);
    RemoveKeepsIds(rules, i);
    IndexEq(after, m);
  }

  /** After a removal, every remaining rule still has its entry in the index minus the removed id. */
  lemma RemoveKeepsEntries(rules: seq<Rule>, i: nat)
    requires UniqueIds(rules) && i < |rules|
    ensures var after := rules[..i] + rules[i + 1..]; var m := IndexById(rules) - {rules[i].id};
      forall k :: 0 <= k < |after| ==> after[k].id in m && m[after[k].id] == after[k]
  {
    var after := rules[..i] + rules[i + 1..];
    var m := IndexById(rules) - {rules[i].id};
    RemoveAt(rules, i, after);
    forall k | 0 <= k < |after| ensures after[k].id in m && m[after[k].id] == after[k] {
      var j := if k < i then k else k + 1;
      assert after[k] == rules[j];
      IndexUnique(rules, j);
    }
  }

  /** After a removal, every id left in the index belongs to a remaining rule. */
  lemma RemoveKeepsIds(rules: seq<Rule>, i: nat)
    requires UniqueIds(rules) && i < |rules|
    ensures var after := rules[..i] + rules[i + 1..]; var m := IndexById(rules) - {rules[i].id};
      forall id :: id in m ==> FindId(after, id).Some?
  {
    var after := rules[..i] + rules[i + 1..];
    var m := IndexById(rules) - {rules[i].id};
    RemoveAt(rules, i, after);
    forall id | id in m ensures FindId(after, id).Some? {
      var k := FindId(rules, id).value;
      assert k != i;
      assert after[if k < i then k else k - 1] == rules[k];
    }
  }

  /**
    The invariant of a knowledge base, on its parts: the index is that of
    the rule list, no two rules share an id, and every id is below the
    counter.
   */
  predicate Consistent(rules: seq<Rule>, byId: map<int, Rule>, next: int) {
    byId == IndexById(rules) && UniqueIds(rules) && forall id :: id in byId ==> id < next
  }

  /** Appending a rule with a fresh id, below the new counter, keeps the invariant. */
  lemma AppendConsistent(rules: seq<Rule>, byId: map<int, Rule>, next: int, rule: Rule, next': int)
    requires Consistent(rules, byId, next)
    requires rule.id !in byId && rule.id < next' && next <= next'
    ensures Consistent(rules + [rule], byId[rule.id := rule], next')
  {
    IndexAppend(rules, rule);
    var after := rules + [rule];
    assert forall k :: 0 <= k < |rules| ==> after[k] == rules[k] && rules[k].id in byId;
  }

  /** Replacing a rule by one with the same id keeps the invariant. */
  lemma ReplaceConsistent(rules: seq<Rule>, byId: map<int, Rule>, next: int, i: nat, u: Rule)
    requires Consistent(rules, byId, next) && i < |rules| && u.id == rules[i].id
    ensures Consistent(rules[i := u], byId[u.id := u], next)
  {
    IndexReplace(rules, i, u);
  }

  /** Removing a rule keeps the invariant, with the counter unchanged. */
  lemma RemoveConsistent(rules: seq<Rule>, byId: map<int, Rule>, next: int, i: nat)
    requires Consistent(rules, byId, next) && i < |rules|
    ensures Consistent(rules[..i] + rules[i + 1..], byId - {rules[i].id}, next)
  {
    IndexRemove(rules, i);
  }

  /** With unique ids, `list.index` of the rule with an id is the position `FindId` gives. */
  lemma IndexOfId(rules: seq<Rule>, id: int)
    requires UniqueIds(rules) && FindId(rules, id).Some?
    ensures rules[FindId(rules, id).value] in rules
    ensures FirstIndex(rules, rules[FindId(rules, id).value]) == FindId(rules, id).value
  {
    UniqueDistinct(rules);
    FirstIndexDistinct(rules, FindId(rules, id).value);
  }

  /** Rules with unique ids do not repeat. */
  lemma UniqueDistinct(rules: seq<Rule>)
    requires UniqueIds(rules)
    ensures Distinct(rules)
  {
  }

  // ---------------------------------------------------------------------
  // Id allocation
  // ---------------------------------------------------------------------

  /** An allocated id and the counter after the allocation. */
  datatype Allocation = Allocation(id: int, next: int)

  /**
    `_allocate_rule_id`: without a preferred id the counter's value, which
    then advances by one; a preferred id already in use is refused; a free
    one is taken and lifts the counter past it.
   */
  function AllocateId(byId: map<int, Rule>, next: int, preferred: Option<int>): (r: Result<Allocation>)
    ensures preferred.None? ==> r == Ok(Allocation(next, next + 1))
    ensures preferred.Some? ==> (r.Err? <==> preferred.value in byId)
    ensures r.Err? ==> preferred.Some? && r.error == DuplicateRuleId(preferred.value)
    ensures r.Ok? && preferred.Some? ==> r.value.id == preferred.value
    ensures r.Ok? ==> r.value.next == if r.value.id >= next then r.value.id + 1 else next
    ensures r.Ok? && (forall id :: id in byId ==> id < next) ==>
      r.value.id !in byId && r.value.id < r.value.next && next <= r.value.next
  {
    match preferred
    case None => Ok(Allocation(next, next + 1))
    case Some(id) =>
      if id in byId then Err(DuplicateRuleId(id))
      else Ok(Allocation(id, if id >= next then id + 1 else next))
  }

  // ---------------------------------------------------------------------
  // Loading rules from text
  // ---------------------------------------------------------------------

  /** What one line of a rules text amounts to. */
  datatype LineOutcome = Blank | Parses(parsed: Parsed) | Fails(error: Error)

  /** A line is stripped; a blank one is skipped, any other is parsed. */
  function Outcome(line: string): (o: LineOutcome)
    ensures o.Parses? ==> o.parsed.premises != [] && o.parsed.conclusion != []
    ensures o.Fails? ==> o.error != EmptyRuleText
  {
    var stripped := Strip(line);
    if stripped == [] then Blank
    else match ParseRuleText(stripped)
      case Err(e) =>
        assert e != EmptyRuleText by {
          StripEmpty(stripped);
          StripIdempotent(line);
        }
        Fails(e)
      case Ok(parsed) => Parses(parsed)
  }

  /** The outcome of every line. */
  function Outcomes(lines: seq<string>): (r: seq<LineOutcome>)
    ensures |r| == |lines|
  {
    if lines == [] then [] else [Outcome(lines[0])] + Outcomes(lines[1..])
  }

  /** The `k`-th outcome is that of the `k`-th line. */
  lemma {:induction false} OutcomesAt(lines: seq<string>, k: nat)
    requires k < |lines|
    ensures Outcomes(lines)[k] == Outcome(lines[k])
  {
    if k > 0 {
      OutcomesAt(lines[1..], k - 1);
    }
  }

  /** What loading does: the parses of the non-blank lines, up to the first failure. */
  datatype Plan = Plan(parsed: seq<Parsed>, failure: Option<Error>)

  /** The lines' parses in order; the first line that does not parse stops the load with its error. */
  function LoadPlan(outcomes: seq<LineOutcome>): (p: Plan)
    ensures |p.parsed| <= |outcomes|
    ensures forall k :: 0 <= k < |p.parsed| ==> Parses(p.parsed[k]) in outcomes
    ensures p.failure.Some? ==> Fails(p.failure.value) in outcomes
  {
    if outcomes == [] then Plan([], None)
    else
      var rest := LoadPlan(outcomes[1..]);
      match outcomes[0]
      case Blank => rest
      case Fails(e) => Plan([], Some(e))
      case Parses(parsed) => Plan([parsed] + rest.parsed, rest.failure)
  }

  /** Loading a text adds only well-formed parses and never fails for a blank line. */
  lemma LoadPlanWellFormed(lines: seq<string>)
    ensures var p := LoadPlan(Outcomes(lines));
      (forall k :: 0 <= k < |p.parsed| ==> p.parsed[k].premises != [] && p.parsed[k].conclusion != [])
      && p.failure != Some(EmptyRuleText)
  {
    var outs := Outcomes(lines);
    var p := LoadPlan(outs);
    forall k | 0 <= k < |p.parsed| ensures p.parsed[k].premises != [] && p.parsed[k].conclusion != [] {
      var j :| 0 <= j < |outs| && outs[j] == Parses(p.parsed[k]);
      OutcomesAt(lines, j);
    }
    if p.failure.Some? {
      var j :| 0 <= j < |outs| && outs[j] == Fails(p.failure.value);
      OutcomesAt(lines, j);
    }
  }

  /** The rules loading adds: the parses, numbered by the counter from `start`, built by `from_parts`. */
  function Numbered(parsed: seq<Parsed>, start: int): (rules: seq<Rule>)
    ensures |rules| == |parsed|
  {
    if parsed == [] then []
    else [FromParts(start, parsed[0].premises, parsed[0].conclusion)] + Numbered(parsed[1..], start + 1)
  }

  /** The `k`-th rule loaded is built from the `k`-th parse with the `k`-th id from `start`. */
  lemma {:induction false} NumberedAt(parsed: seq<Parsed>, start: int, k: nat)
    requires k < |parsed|
    ensures Numbered(parsed, start)[k] == FromParts(start + k, parsed[k].premises, parsed[k].conclusion)
  {
    if k > 0 {
      NumberedAt(parsed[1..], start + 1, k - 1);
    }
  }

  /** Numbering one more parse appends one more rule. */
  lemma NumberedSnoc(parsed: seq<Parsed>, p: Parsed, start: int)
    ensures Numbered(parsed + [p], start) == Numbered(parsed, start) + [FromParts(start + |parsed|, p.premises, p.conclusion)]
  {
    var l := Numbered(parsed + [p], start);
    var r := Numbered(parsed, start) + [FromParts(start + |parsed|, p.premises, p.conclusion)];
    forall k | 0 <= k < |l| ensures l[k] == r[k] {
      NumberedAt(parsed + [p], start, k);
      if k < |parsed| {
        NumberedAt(parsed, start, k);
      }
    }
  }

  /** A list holding the rules loaded from `done`, plus the rule built from `p`, holds those loaded from `done + [p]`. */
  lemma LoadedOneMore(base: seq<Rule>, done: seq<Parsed>, start: int, n: int, p: Parsed, before: seq<Rule>, after: seq<Rule>)
    requires before == base + Numbered(done, start) && n == start + |done|
    requires after == before + [FromParts(n, p.premises, p.conclusion)]
    ensures after == base + Numbered(done + [p], start)
  {
    NumberedSnoc(done, p, start);
  }

  /** After the outcomes before `i`, the load has parsed `done`, and the rest of the plan is that of `outs[i..]`. */
  predicate PlanFrom(outs: seq<LineOutcome>, i: nat, done: seq<Parsed>) {
    i <= |outs| && LoadPlan(outs) == Plan(done + LoadPlan(outs[i..]).parsed, LoadPlan(outs[i..]).failure)
  }

  /** One more outcome: a blank is skipped, a parse is added, a failure ends the load. */
  lemma PlanStep(outs: seq<LineOutcome>, i: nat, done: seq<Parsed>)
    requires i < |outs| && PlanFrom(outs, i, done)
    ensures outs[i].Blank? ==> PlanFrom(outs, i + 1, done)
    ensures outs[i].Parses? ==> PlanFrom(outs, i + 1, done + [outs[i].parsed])
    ensures outs[i].Fails? ==> LoadPlan(outs) == Plan(done, Some(outs[i].error))
  {
    assert outs[i..][0] == outs[i] && outs[i..][1..] == outs[i + 1..];
    var rest := LoadPlan(outs[i + 1..]);
    if outs[i].Parses? {
      assert done + ([outs[i].parsed] + rest.parsed) == done + [outs[i].parsed] + rest.parsed;
    }
    assert done + [] == done;
  }

  /** Past the last outcome the load is complete. */
  lemma PlanEnd(outs: seq<LineOutcome>, done: seq<Parsed>)
    requires PlanFrom(outs, |outs|, done)
    ensures LoadPlan(outs) == Plan(done, None)
  {
    assert outs[|outs|..] == [];
    assert done + [] == done;
  }

  // ---------------------------------------------------------------------
  // Facts
  // ---------------------------------------------------------------------

  /** `{normalize_atom(f) for f in facts if normalize_atom(f)}`. */
  function NormalizedFacts(facts: seq<string>): (r: set<string>)
    ensures forall a :: a in r ==> a != [] && Trimmed(a)
    ensures forall k :: 0 <= k < |facts| && NormalizeAtom(facts[k]) != [] ==> NormalizeAtom(facts[k]) in r
  {
    set f | f in facts && NormalizeAtom(f) != [] :: NormalizeAtom(f)
  }

  /** Every normalised fact comes from one of the given facts. */
  lemma NormalizedFactsFrom(facts: seq<string>, a: string)
    requires a in NormalizedFacts(facts)
    ensures exists k :: 0 <= k < |facts| && NormalizeAtom(facts[k]) == a
  {
    var f :| f in facts && NormalizeAtom(f) != [] && NormalizeAtom(f) == a;
    var k :| 0 <= k < |facts| && facts[k] == f;
  }

  // ---------------------------------------------------------------------
  // The knowledge base
  // ---------------------------------------------------------------------

  class KnowledgeBase {
    var rules: seq<Rule>
    var facts: set<string>
    var name: string
    var rulesById: map<int, Rule>
    var nextId: int

    /** The index and the counter agree with the rule list. */
    ghost predicate Indexed()
      reads this
    {
      rulesById == IndexById(rules) && forall id :: id in rulesById ==> id < nextId
    }

    /** The invariant every operation keeps: indexed, and no two rules share an id. */
    ghost predicate Valid()
      reads this
    {
      Consistent(rules, rulesById, nextId)
    }

    /** The dataclass constructor followed by `__post_init__`. */
    constructor(rules: seq<Rule>, facts: set<string>, name: string)
      ensures this.rules == rules && this.facts == facts && this.name == name
      ensures rulesById == IndexById(rules) && nextId == NextIdFor(rules)
      ensures Indexed()
      ensures UniqueIds(rules) ==> Valid()
    {
      this.rules := rules;
      this.facts := facts;
      this.name := name;
      new;
      RebuildIndex();
    }

    /** `_rebuild_index`: the index and the counter recomputed from the rule list. */
    method RebuildIndex()
      modifies this
      ensures rules == old(rules) && facts == old(facts) && name == old(name)
      ensures rulesById == IndexById(rules) && nextId == NextIdFor(rules)
      ensures Indexed()
    {
      rulesById := IndexById(rules);
      nextId := NextIdFor(rules);
    }

    /** `iter_rules`: the rules sorted by id; with unique ids, strictly ascending. */
    function IterRules(): (r: seq<Rule>)
      reads this
      ensures multiset(r) == multiset(rules)
      ensures Ascending(r, RuleId)
      ensures UniqueIds(rules) ==> StrictlyAscending(r, RuleId)
    {
      assert UniqueIds(rules) ==> StrictlyAscending(SortBy(rules, RuleId), RuleId) by {
        if UniqueIds(rules) {
          SortByStrict(rules, RuleId);
        }
      }
      SortBy(rules, RuleId)
    }

    /** `get_rule`: the indexed rule, or an error for an unknown id. */
    function GetRule(id: int): (r: Result<Rule>)
      reads this
      ensures r.Err? ==> r == Err(UnknownRuleId(id))
      ensures Valid() ==> (r.Ok? <==> FindId(rules, id).Some?)
      ensures Valid() && r.Ok? ==> r.value == rules[FindId(rules, id).value]
    {
      assert Valid() ==> ((id in rulesById <==> FindId(rules, id).Some?)
        && (id in rulesById ==> rulesById[id] == rules[FindId(rules, id).value])) by {
        if Valid() {
          IndexFind(rules, id);
        }
      }
      if id in rulesById then Ok(rulesById[id]) else Err(UnknownRuleId(id))
    }

    /** `_allocate_rule_id`, carried out on the counter. */
    method AllocateRuleId(preferred: Option<int>) returns (r: Result<int>)
      modifies this
      ensures var a := AllocateId(old(rulesById), old(nextId), preferred);
        (a.Err? ==> r == Err(a.error) && nextId == old(nextId))
        && (a.Ok? ==> r == Ok(a.value.id) && nextId == a.value.next)
      ensures rules == old(rules) && facts == old(facts) && name == old(name) && rulesById == old(rulesById)
    {
      match preferred {
        case None =>
          var rid := nextId;
          nextId := nextId + 1;
          return Ok(rid);
        case Some(id) =>
          if id in rulesById {
            return Err(DuplicateRuleId(id));
          }
          if id >= nextId {
            nextId := id + 1;
          }
          return Ok(id);
      }
    }

    /**
      `add_rule`: allocates the id, builds the rule with `from_parts`,
      appends it and indexes it. A refused id leaves everything as it was.
     */
    method AddRule(premises: seq<string>, conclusion: string, ruleId: Option<int>) returns (r: Result<Rule>)
      requires Valid()
      modifies this
      ensures Valid()
      ensures var a := AllocateId(old(rulesById), old(nextId), ruleId);
        (a.Err? ==> r == Err(a.error) && rules == old(rules) && rulesById == old(rulesById) && nextId == old(nextId))
        && (a.Ok? ==> (r == Ok(FromParts(a.value.id, premises, conclusion))
          && rules == old(rules) + [r.value]
          && rulesById == old(rulesById)[a.value.id := r.value]
          && nextId == a.value.next))
      ensures facts == old(facts) && name == old(name)
    {
      ghost var next := nextId;
      var rid := AllocateRuleId(ruleId);
      if rid.Err? {
        return Err(rid.error);
      }
      var rule := FromParts(rid.value, premises, conclusion);
      AppendConsistent(rules, rulesById, next, rule, nextId);
      rules := rules + [rule];
      RegisterRule(rule);
      return Ok(rule);
    }

    /** `_register_rule`: indexes a rule under its id. */
    method RegisterRule(rule: Rule)
      modifies this
      ensures rulesById == old(rulesById)[rule.id := rule]
      ensures rules == old(rules) && facts == old(facts) && name == old(name) && nextId == old(nextId)
    {
      rulesById := rulesById[rule.id := rule];
    }

    /** `add_rule_from_text`: parses the text, then adds the rule; a parse error adds nothing. */
    method AddRuleFromText(text: string, ruleId: Option<int>) returns (r: Result<Rule>)
      requires Valid()
      modifies this
      ensures Valid()
      ensures ParseRuleText(text).Err? ==> (r == Err(ParseRuleText(text).error)
        && rules == old(rules) && rulesById == old(rulesById) && nextId == old(nextId))
      ensures ParseRuleText(text).Ok? ==>
        var p := ParseRuleText(text).value;
        var a := AllocateId(old(rulesById), old(nextId), ruleId);
        (a.Err? ==> r == Err(a.error) && rules == old(rules) && rulesById == old(rulesById) && nextId == old(nextId))
        && (a.Ok? ==> (r == Ok(FromParts(a.value.id, p.premises, p.conclusion))
          && rules == old(rules) + [r.value]
          && rulesById == old(rulesById)[a.value.id := r.value]
          && nextId == a.value.next))
      ensures facts == old(facts) && name == old(name)
    {
      var parsed := ParseRuleText(text);
      if parsed.Err? {
        return Err(parsed.error);
      }
      r := AddRule(parsed.value.premises, parsed.value.conclusion, ruleId);
    }

    /**
      `update_rule`: the rule with the id is replaced, at its position, by
      its `with_updates` copy; the id, the other rules and the counter are
      untouched. An unknown id is an error and changes nothing.
     */
    method UpdateRule(id: int, premises: Option<seq<string>>, conclusion: Option<string>) returns (r: Result<Rule>)
      requires Valid()
      modifies this
      ensures Valid()
      ensures var i := FindId(old(rules), id);
        (i.None? ==> r == Err(UnknownRuleId(id)) && rules == old(rules) && rulesById == old(rulesById))
        && (i.Some? ==> (r == Ok(WithUpdates(old(rules)[i.value], premises, conclusion))
          && rules == old(rules)[i.value := r.value]
          && rulesById == old(rulesById)[id := r.value]))
      ensures nextId == old(nextId) && facts == old(facts) && name == old(name)
    {
      var existing := GetRule(id);
      if existing.Err? {
        return Err(existing.error);
      }
      var updated := WithUpdates(existing.value, premises, conclusion);
      IndexOfId(rules, id);
      var index := FirstIndex(rules, existing.value);
      ReplaceConsistent(rules, rulesById, nextId, index, updated);
      rules := rules[index := updated];
      rulesById := rulesById[id := updated];
      return Ok(updated);
    }

    /**
      `remove_rule`: the rule with the id leaves the list and the index;
      the counter stays, so the id is not handed out again by allocation.
     */
    method RemoveRule(id: int) returns (r: Result<Rule>)
      requires Valid()
      modifies this
      ensures Valid()
      ensures var i := FindId(old(rules), id);
        (i.None? ==> r == Err(UnknownRuleId(id)) && rules == old(rules) && rulesById == old(rulesById))
        && (i.Some? ==> (r == Ok(old(rules)[i.value])
          && rules == old(rules)[..i.value] + old(rules)[i.value + 1..]
          && rulesById == old(rulesById) - {id}))
      ensures nextId == old(nextId) && facts == old(facts) && name == old(name)
    {
      var rule := GetRule(id);
      if rule.Err? {
        return Err(rule.error);
      }
      IndexOfId(rules, id);
      var index := FirstIndex(rules, rule.value);
      assert index == FindId(rules, id).value && rules[index].id == id;
      var after := rules[..index] + rules[index + 1..];
      var byId := rulesById - {id};
      assert Consistent(after, byId, nextId) by {
        RemoveConsistent(rules, rulesById, nextId, index);
      }
      rules := after;
      rulesById := byId;
      return Ok(rule.value);
    }

    /**
      `load_rules_from_text`: every non-blank line, stripped, is added as a
      rule with an allocated id. The first line that does not parse stops
      the load; the rules added before it stay.
     */
    method LoadRulesFromText(text: string) returns (failure: Option<Error>)
      requires Valid()
      modifies this
      ensures Valid()
      ensures var plan := LoadPlan(Outcomes(SplitLines(text)));
        failure == plan.failure
        && rules == old(rules) + Numbered(plan.parsed, old(nextId))
        && nextId == old(nextId) + |plan.parsed|
      ensures facts == old(facts) && name == old(name)
    {
      var lines := SplitLines(text);
      ghost var outs := Outcomes(lines);
      ghost var done: seq<Parsed> := [];
      ghost var base, start, facts0, name0 := rules, nextId, facts, name;
      assert rules == base + Numbered(done, start);
      for i := 0 to |lines|
        invariant Valid()
        invariant rules == base + Numbered(done, start)
        invariant nextId == start + |done|
        invariant PlanFrom(outs, i, done)
        invariant facts == facts0 && name == name0
      {
        PlanStep(outs, i, done);
        OutcomesAt(lines, i);
        ghost var before := rules;
        ghost var n := nextId;
        var lineFailure := LoadLine(lines[i], outs[i]);
        if lineFailure.Some? {
          assert LoadPlan(outs) == Plan(done, lineFailure);
          return lineFailure;
        }
        if outs[i].Parses? {
          ghost var p := outs[i].parsed;
          LoadedOneMore(base, done, start, n, p, before, rules);
          done := done + [p];
        } else {
          assert rules == before;
        }
      }
      PlanEnd(outs, done);
      return None;
    }

    /**
      One pass of the loop of `load_rules_from_text`: a blank line is
      skipped; any other is stripped and added with an allocated id.
     */
    method LoadLine(line: string, ghost outcome: LineOutcome) returns (failure: Option<Error>)
      requires Valid() && outcome == Outcome(line)
      modifies this
      ensures Valid()
      ensures outcome.Blank? ==> failure.None? && rules == old(rules) && nextId == old(nextId)
      ensures outcome.Fails? ==> failure == Some(outcome.error) && rules == old(rules) && nextId == old(nextId)
      ensures outcome.Parses? ==> (failure.None?
        && rules == old(rules) + [FromParts(old(nextId), outcome.parsed.premises, outcome.parsed.conclusion)]
        && nextId == old(nextId) + 1)
      ensures facts == old(facts) && name == old(name)
    {
      var stripped := Strip(line);
      if stripped == [] {
        return None;
      }
      var added := AddRuleFromText(stripped, None);
      if added.Err? {
        return Some(added.error);
      }
      return None;
    }

    /** `clear_rules`: no rules, an empty index, and the counter back at 1. */
    method ClearRules()
      modifies this
      ensures Valid()
      ensures rules == [] && rulesById == map[] && nextId == 1
      ensures facts == old(facts) && name == old(name)
    {
      rules := [];
      RebuildIndex();
    }

    /** `load_facts_from_text`: every atom of the text becomes a fact. */
    method LoadFactsFromText(text: string)
      modifies this
      ensures facts == old(facts) + set a | a in SplitAtoms(text)
      ensures rules == old(rules) && rulesById == old(rulesById) && nextId == old(nextId) && name == old(name)
    {
      var atoms := SplitAtoms(text);
      for i := 0 to |atoms|
        invariant facts == old(facts) + set a | a in atoms[..i]
        invariant rules == old(rules) && rulesById == old(rulesById) && nextId == old(nextId) && name == old(name)
      {
        assert atoms[..i + 1] == atoms[..i] + [atoms[i]];
        facts := facts + {atoms[i]};
      }
      assert atoms[..|atoms|] == atoms;
    }

    /** `set_facts`: the facts become the trimmed, non-blank given atoms. */
    method SetFacts(given: seq<string>)
      modifies this
      ensures facts == NormalizedFacts(given)
      ensures rules == old(rules) && rulesById == old(rulesById) && nextId == old(nextId) && name == old(name)
    {
      facts := NormalizedFacts(given);
    }

    /** `add_fact`: inserts the trimmed atom and returns it; a blank atom is an error and inserts nothing. */
    method AddFact(fact: string) returns (r: Result<string>)
      modifies this
      ensures NormalizeAtom(fact) == [] ==> r == Err(EmptyFact) && facts == old(facts)
      ensures NormalizeAtom(fact) != [] ==> r == Ok(NormalizeAtom(fact)) && facts == old(facts) + {r.value}
      ensures rules == old(rules) && rulesById == old(rulesById) && nextId == old(nextId) && name == old(name)
    {
      var atom := NormalizeAtom(fact);
      if atom == [] {
        return Err(EmptyFact);
      }
      facts := facts + {atom};
      return Ok(atom);
    }

    /** `remove_fact`: discards the trimmed atom; an absent one is no error. */
    method RemoveFact(fact: string)
      modifies this
      ensures facts == old(facts) - {NormalizeAtom(fact)}
      ensures rules == old(rules) && rulesById == old(rulesById) && nextId == old(nextId) && name == old(name)
    {
      facts := facts - {NormalizeAtom(fact)};
    }

    /** `clear_facts`. */
    method ClearFacts()
      modifies this
      ensures facts == {}
      ensures rules == old(rules) && rulesById == old(rulesById) && nextId == old(nextId) && name == old(name)
    {
      facts := {};
    }

    /**
      `clone`: a new knowledge base over the rules in id order and a copy
      of the facts. Its counter is recomputed from the ids, so it can be
      lower than this one's after removals.
     */
    method Clone() returns (kb: KnowledgeBase)
      requires Valid()
      ensures fresh(kb)
      ensures kb.Valid()
      ensures kb.rules == IterRules() && kb.facts == facts && kb.name == name
      ensures kb.nextId == NextIdFor(rules) && (rules != [] ==> kb.nextId <= nextId)
    {
      var sorted := IterRules();
      MaxIdSameElements(sorted, rules);
      kb := new KnowledgeBase(sorted, facts, name);
    }
  }

  /** Two lists holding the same rules have the same largest id. */
  lemma MaxIdSameElements(a: seq<Rule>, b: seq<Rule>)
    requires multiset(a) == multiset(b)
    ensures MaxId(a) == MaxId(b)
  {
    if a != [] {
      var i :| 0 <= i < |a| && a[i].id == MaxId(a);
      assert a[i] in multiset(b);
      var j :| 0 <= j < |b| && b[j].id == MaxId(b);
      assert b[j] in multiset(a);
    } else {
      assert |b| == |multiset(b)| == 0;
    }
  }
}
