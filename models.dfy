/**
  The rule value of the engine (a frozen record of id, premises and
  conclusion) and the order-preserving de-duplication of premises.
 */
module Models {
  import opened Strings
  import opened Seqs

  /** An inference rule: if every premise is known, the conclusion is. */
  datatype Rule = Rule(id: int, premises: seq<string>, conclusion: string)

  /** The key rules are ordered by. */
  function RuleId(r: Rule): int {
    r.id
  }

  /**
    `_dedupe_preserve_order` as a value: every element once, where it
    first occurs. Defined on the prefix so that the loop below walks it.
   */
  function Dedupe(items: seq<string>): (r: seq<string>)
    ensures Distinct(r)
    ensures forall x :: x in r <==> x in items
    ensures |r| <= |items|
  {
    if items == [] then []
    else
      var prefix := items[..|items| - 1];
      var last := items[|items| - 1];
      assert items == prefix + [last];
      var p := Dedupe(prefix);
      if last in p then p else p + [last]
  }

  /**
    The survivors appear in the order of their first occurrence in the
    input; since `items[FirstIndex(items, x)] == x`, the strictly
    increasing first indexes also embed the output in the input as a
    subsequence.
   */
  lemma {:induction false} DedupeOrder(items: seq<string>)
    ensures forall i, j :: 0 <= i < j < |Dedupe(items)| ==>
      FirstIndex(items, Dedupe(items)[i]) < FirstIndex(items, Dedupe(items)[j])
  {
    if items != [] {
      var prefix := items[..|items| - 1];
      var last := items[|items| - 1];
      var p := Dedupe(prefix);
      DedupeOrder(prefix);
      forall x | x in prefix ensures FirstIndex(items, x) == FirstIndex(prefix, x) {
        FirstIndexPrefix(items, x);
      }
      if last !in p {
        assert last !in prefix;
        assert FirstIndex(items, last) == |items| - 1;
      }
    }
  }

  /** On an input with no repeats de-duplication changes nothing. */
  lemma {:induction false} DedupeIdentity(items: seq<string>)
    requires Distinct(items)
    ensures Dedupe(items) == items
  {
    if items != [] {
      var prefix := items[..|items| - 1];
      DedupeIdentity(prefix);
      assert items[|items| - 1] !in prefix;
      assert items == prefix + [items[|items| - 1]];
    }
  }

  /** De-duplication is idempotent. */
  lemma DedupeIdempotent(items: seq<string>)
    ensures Dedupe(Dedupe(items)) == Dedupe(items)
  {
    DedupeIdentity(Dedupe(items));
  }

  /**
    `_dedupe_preserve_order` as the source runs it: one pass that keeps a
    `seen` set and appends each element not seen before.
   */
  method DedupePreserveOrder(items: seq<string>) returns (ordered: seq<string>)
    ensures ordered == Dedupe(items)
  {
    var seen: set<string> := {};
    ordered := [];
    for i := 0 to |items|
      invariant ordered == Dedupe(items[..i])
      invariant seen == set x | x in items[..i]
    {
      assert items[..i + 1][..i] == items[..i];
      var item := items[i];
      if item !in seen {
        seen := seen + {item};
        ordered := ordered + [item];
      } else {
        seen := seen + {item};
      }
    }
    assert items[..|items|] == items;
  }

  /** `Rule.from_parts`: premises de-duplicated, conclusion stripped, id kept. */
  function FromParts(ruleId: int, premises: seq<string>, conclusion: string): (r: Rule)
    ensures r.id == ruleId
    ensures Distinct(r.premises) && forall x :: x in r.premises <==> x in premises
    ensures Trimmed(r.conclusion)
  {
    Rule(ruleId, Dedupe(premises), Strip(conclusion))
  }

  /** Parts that are already de-duplicated and stripped are taken as they are. */
  lemma FromPartsExact(ruleId: int, premises: seq<string>, conclusion: string)
    requires Distinct(premises) && Trimmed(conclusion)
    ensures FromParts(ruleId, premises, conclusion) == Rule(ruleId, premises, conclusion)
  {
    DedupeIdentity(premises);
    StripTrimmed(conclusion);
  }

  /**
    `Rule.with_updates`: a field given as `None` keeps its value, a given
    one is normalised as in `from_parts`; the id never changes.
   */
  function WithUpdates(r: Rule, premises: Option<seq<string>>, conclusion: Option<string>): (u: Rule)
    ensures u.id == r.id
    ensures premises.None? ==> u.premises == r.premises
    ensures premises.Some? ==> Distinct(u.premises) && forall x :: x in u.premises <==> x in premises.value
    ensures conclusion.None? ==> u.conclusion == r.conclusion
    ensures conclusion.Some? ==> Trimmed(u.conclusion)
    ensures premises.None? && conclusion.None? ==> u == r
  {
    Rule(r.id,
      if premises.Some? then Dedupe(premises.value) else r.premises,
      if conclusion.Some? then Strip(conclusion.value) else r.conclusion)
  }

  /** Updating with a rule's own (normalised) fields gives the rule back. */
  lemma WithUpdatesOwnFields(r: Rule)
    requires Distinct(r.premises) && Trimmed(r.conclusion)
    ensures WithUpdates(r, Some(r.premises), Some(r.conclusion)) == r
  {
    DedupeIdentity(r.premises);
    StripTrimmed(r.conclusion);
  }

  /** `Rule.to_text`: the premises joined by `joiner`, then ` -> `, then the conclusion. */
  function ToText(r: Rule, joiner: string): string {
    Join(joiner, r.premises) + " -> " + r.conclusion
  }

  /** The default rendering, with `joiner = " ^ "`. */
  function DefaultText(r: Rule): string {
    ToText(r, " ^ ")
  }
}
