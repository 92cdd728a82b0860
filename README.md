# inference_lab: propositional rule inference, modelled in Dafny

inference_lab is a small expert-system engine. A rule `a ^ b -> c` says
that the atom `c` holds once `a` and `b` do. The engine has five parts,
and the model follows them module by module:

- **Models** (`models.dfy`): the `Rule` record (id, de-duplicated
  premises, trimmed conclusion), order-preserving de-duplication,
  `from_parts`, `with_updates` and `to_text`.
- **Utils** (`utils.dfy`, over `strings.dfy`): the rule-text grammar.
  - Atoms are trimmed.
  - Premises split on `,` `&` `?` `^` or `and`, written out as a scan.
  - Control characters are removed and arrow variants become `->` before the first arrow splits the rule.
  - `ensure_choice` matches an option without regard to case.
- **Knowledge** (`knowledge_base.dfy`): the mutable `KnowledgeBase`
  class. It holds the rule list, the id index, the next-id counter and
  the fact set, and each of its methods changes exactly the fields its
  Python original changes.
- **Forward** (`forward.dfy`): data-driven chaining over an agenda
  (`thoa`) that is used as a stack or a queue, with a tie-break on the
  rule id (`min`/`max`) and a step-by-step history.
- **Backward** (`backward.dfy`): goal-driven chaining. The recursive
  `prove` walks the candidate rules in id order, detects cycles through
  the set of goals being proven, and logs each step as an event.

Both engines are specified by pure functions and run by imperative
methods proved equal to them. Both are measured against one notion of
derivation, defined in `derivations.dfy`: a sequence of rule ids in which
each rule's premises are among the starting facts and the conclusions of
the rules before it. Under unique rule ids (an invariant of the
knowledge base), the model proves two things:

- Each engine is sound and complete: a run succeeds exactly when the
  goals are derivable, and the rules it fired or used form a derivation.
- The two engines fail with the same error or agree on success.

`results.dfy` holds the records the engines hand back. `seqs.dfy` holds
generic sequence facts, including the stable insertion sort used for
`sorted`.

The `utils.py` code differs from how the legacy branch at
`utils.py:32-34` appears in print. The separator there is the character
U+001A, not an empty string. The model follows the code: when the
cleaned text has no arrow, the stripped (not cleaned) text is split at its
first U+001A.

## Model

| member | source | states |
|---|---|---|
| Models.Dedupe | models.py:9-16 | the result has no repeated element, holds exactly the input's elements, and is no longer than the input |
| Models.DedupeOrder | models.py:12-15 | elements appear in the order of their first occurrence in the input |
| Models.DedupeIdentity | models.py:9-16 | on an input without repeats de-duplication returns the input |
| Models.DedupeIdempotent | models.py:9-16 | de-duplicating twice is de-duplicating once |
| Models.DedupePreserveOrder | models.py:9-16 | the loop over a `seen` set builds exactly the de-duplicated sequence |
| Models.FromParts | models.py:27-29 | keeps the id, de-duplicates the premises (same elements, no repeats), trims the conclusion |
| Models.FromPartsExact | models.py:27-29 | on repeat-free premises and a trimmed conclusion the rule is built unchanged |
| Models.WithUpdates | models.py:31-45 | the id never changes; a field given as None is kept; a given premise list is de-duplicated and a given conclusion trimmed; with neither given the rule is unchanged |
| Models.WithUpdatesOwnFields | models.py:31-45 | updating a normalised rule with its own fields gives it back |
| Strings.Strip | utils.py:12-13 | `str.strip()`: the result has no whitespace at either end |
| Strings.StripSpec | utils.py:12-13 | the strip is a slice of the input and everything cut away on either side is whitespace |
| Strings.StripIdempotent | utils.py:12-13 | stripping twice is stripping once |
| Strings.StripEmpty | utils.py:24-26 | the strip is empty exactly when the text is all whitespace |
| Strings.SplitLines | knowledge_base.py:78 | `str.splitlines()`: no line holds a line-break character and every character comes from the text |
| Strings.SplitLinesSingle | knowledge_base.py:78 | a non-empty text without a line break is one line |
| Strings.SplitLinesCons | knowledge_base.py:78 | a line ended by "\r\n" or by one line-break character comes first, and the lines of the rest follow, so `"a\r\nb"` gives `a` then `b` |
| Strings.SplitLinesCrLf | knowledge_base.py:78 | "\r\n" is a single line break: `"a\r\nb"` gives the lines `a` and `b` |
| Strings.JoinSplitLines | knowledge_base.py:78 | for text whose only line breaks are "\n" and that does not end in one, joining the lines with "\n" gives the text back |
| Utils.NormalizeAtom | utils.py:12-13 | the normalised atom is trimmed |
| Utils.NormalizeAtomBlank | utils.py:12-13 | an atom normalises to the empty string exactly when it is all whitespace |
| Utils.NormalizeAtomIdempotent | utils.py:12-13 | normalising is idempotent |
| Utils.SplitFromClean | utils.py:9 | after the scan of the separator pattern no piece holds a separator (`,` `&` `?` `^` or `and` in any case) |
| Utils.SplitAtoms | utils.py:16-20 | the empty text gives no atoms; every atom is non-empty, trimmed and free of separators |
| Utils.SplitAtomsKeeps | utils.py:16-20 | every character of every atom comes from the input, so a character property of the input holds of the atoms |
| Utils.RemoveControl | utils.py:28 | the result has no character in U+0000-U+001F or U+007F, and text without one is unchanged |
| Utils.RemoveControlConcat | utils.py:28 | cleaning distributes over concatenation, so with RemoveControlChar it keeps every other character in order |
| Utils.RemoveControlChar | utils.py:28 | one character is dropped exactly when it is a control character |
| Utils.NormalizeArrowsClean | utils.py:29 | rewriting `=>`, `→` and `:>` to `->` adds no control character |
| Utils.Cut | utils.py:29-36 | there is no split exactly when the cleaned text has no `->` and the text has no U+001A |
| Utils.ParseRuleText | utils.py:23-43 | EmptyRuleText exactly on all-whitespace text; on success the premises are non-empty well-formed atoms and the conclusion is non-empty and trimmed |
| Utils.ParseMissingArrow | utils.py:35-36 | MissingArrow exactly when the stripped text is non-blank, has no arrow after cleaning and no U+001A |
| Utils.ParseFirstArrow | utils.py:29-38 | only the first `->` splits: for clean text, the premises are the atoms left of it and the conclusion is the whole trimmed right side, later `->` included; an empty side gives MissingPremises or MissingConclusion |
| Utils.ParseAroundArrow | utils.py:28-38 | between parts free of `>` and `→`, the arrow or variant splits the text into the atoms of the cleaned left part and the cleaned, trimmed right part |
| Utils.ParseArrowVariant | utils.py:29 | `=>`, `→` and `:>` parse exactly like `->` |
| Utils.ParseRemovesControl | utils.py:28-38 | without the legacy separator, no parsed premise or conclusion holds a control character |
| Utils.JoinSplit | utils.py:9 | splitting atoms joined by `" ^ "` gives back the atoms |
| Utils.PrintedPremises | utils.py:16-20 | `split_atoms` of premises joined by `" ^ "` (with the space before the arrow) returns them |
| Utils.ParseToText | utils.py:23-43 | round trip: parsing `to_text` of a rule with plain atoms gives back its premises and conclusion, and `from_parts` rebuilds the rule |
| Utils.FindChoice | utils.py:52-57 | the index found is the first whose lower-case form equals the key; none is found only when no option matches |
| Utils.EnsureChoice | utils.py:51-57 | succeeds exactly when some option matches the stripped, lower-cased value, returning the first such option as written; otherwise InvalidChoice |
| Utils.ChoiceOfTwo | utils.py:51-57 | with two lower-case options, the answer is each option exactly when the key is that option, and an error otherwise |
| Knowledge.IndexById | knowledge_base.py:24-25 | the index has every rule's id and only ids of rules, each mapped to a rule with that id |
| Knowledge.MaxId | knowledge_base.py:26 | `max(..., default=0)`: 0 on no rules, otherwise the largest id and attained |
| Knowledge.NextIdFor | knowledge_base.py:26 | the counter exceeds every id, and is 1 on no rules |
| Knowledge.FindId | knowledge_base.py:66 | the position found is the first rule with that id; none is found only when no rule has it |
| Knowledge.IndexUnique | knowledge_base.py:24-25 | with unique ids each rule is its own id's entry |
| Knowledge.IndexFind | knowledge_base.py:34-38 | with unique ids an id is indexed exactly when some rule has it, and maps to that rule |
| Knowledge.IndexReplace | knowledge_base.py:66-68 | replacing a rule with one of the same id keeps ids unique and updates that one index entry |
| Knowledge.IndexRemove | knowledge_base.py:72-74 | removing a rule keeps ids unique and drops exactly its id from the index |
| Knowledge.AppendConsistent | knowledge_base.py:47-51 | appending a rule with a fresh id below the new counter keeps the invariant (index matches list, ids unique and below the counter) |
| Knowledge.ReplaceConsistent | knowledge_base.py:64-68 | an in-place replacement of the same id keeps the invariant |
| Knowledge.RemoveConsistent | knowledge_base.py:71-75 | removing a rule keeps the invariant with the counter unchanged |
| Knowledge.IndexOfId | knowledge_base.py:66 | `rules.index(existing)` finds the same position as the id search |
| Knowledge.AllocateId | knowledge_base.py:96-105 | automatic allocation returns the counter and adds one; a used explicit id fails with DuplicateRuleId; an explicit id at or above the counter raises it to id+1 and a smaller one leaves it; a successful id is fresh and below the new counter |
| Knowledge.Outcome | knowledge_base.py:79-82 | a parsed line has premises and a conclusion; a failing line never fails for empty text (blank lines are skipped) |
| Knowledge.LoadPlanWellFormed | knowledge_base.py:77-82 | the lines loaded before the first failure all parse to rules with premises and a conclusion |
| Knowledge.Numbered | knowledge_base.py:77-82 | one rule per parsed line |
| Knowledge.NumberedAt | knowledge_base.py:77-82 | the k-th loaded rule gets id start+k |
| Knowledge.NormalizedFacts | knowledge_base.py:117-118 | every fact is non-empty and trimmed, and every non-blank given fact is in, normalised |
| Knowledge.NormalizedFactsFrom | knowledge_base.py:117-118 | every fact comes from some given fact |
| Knowledge.KnowledgeBase.constructor | knowledge_base.py:13-26 | the fields are as given, the index and counter are rebuilt, and the invariant holds when the ids are unique |
| Knowledge.KnowledgeBase.RebuildIndex | knowledge_base.py:24-26 | index and counter are recomputed from the rules; nothing else changes |
| Knowledge.KnowledgeBase.IterRules | knowledge_base.py:31-32 | a permutation of the rules in ascending id order, strictly ascending when ids are unique |
| Knowledge.KnowledgeBase.GetRule | knowledge_base.py:34-38 | under the invariant, succeeds exactly on a known id with the rule of that id; otherwise UnknownRuleId |
| Knowledge.KnowledgeBase.AllocateRuleId | knowledge_base.py:96-105 | the result and the new counter are those of the allocation; only the counter changes |
| Knowledge.KnowledgeBase.AddRule | knowledge_base.py:40-51 | on an allocation error nothing changes; otherwise the built rule is appended and indexed and the counter advanced; the invariant is kept |
| Knowledge.KnowledgeBase.RegisterRule | knowledge_base.py:107-108 | only the index entry of the rule's id changes |
| Knowledge.KnowledgeBase.AddRuleFromText | knowledge_base.py:53-55 | a parse error changes nothing; otherwise as `add_rule` on the parsed parts |
| Knowledge.KnowledgeBase.UpdateRule | knowledge_base.py:57-69 | an unknown id fails and changes nothing; otherwise the rule is updated at its own position, the index entry replaced, the counter kept, the invariant kept |
| Knowledge.KnowledgeBase.RemoveRule | knowledge_base.py:71-75 | an unknown id fails and changes nothing; otherwise exactly that rule leaves the list and the index and the counter is not lowered |
| Knowledge.KnowledgeBase.LoadRulesFromText | knowledge_base.py:77-82 | the non-blank lines up to the first failing one are appended in order with consecutive ids, and that failure is reported |
| Knowledge.KnowledgeBase.LoadLine | knowledge_base.py:78-82 | one line: blank is skipped, a failure changes nothing, otherwise one rule with the next id is appended |
| Knowledge.KnowledgeBase.ClearRules | knowledge_base.py:92-94 | no rules, an empty index, the counter back to 1; facts kept |
| Knowledge.KnowledgeBase.LoadFactsFromText | knowledge_base.py:113-115 | the atoms split from the text are added to the facts |
| Knowledge.KnowledgeBase.SetFacts | knowledge_base.py:117-118 | the facts become the normalised non-blank given atoms |
| Knowledge.KnowledgeBase.AddFact | knowledge_base.py:120-125 | a blank atom fails with EmptyFact and changes nothing; otherwise the trimmed atom is added and returned |
| Knowledge.KnowledgeBase.RemoveFact | knowledge_base.py:127-129 | the trimmed atom is discarded, absent or not |
| Knowledge.KnowledgeBase.ClearFacts | knowledge_base.py:131-132 | the facts become empty; the rules are untouched |
| Knowledge.KnowledgeBase.Clone | knowledge_base.py:137-142 | a fresh valid base with the rules in id order, the same facts and name, and a counter recomputed from the rules |
| Knowledge.MaxIdSameElements | knowledge_base.py:26 | the largest id depends only on which rules there are, not their order |
| Forward.ParseStructure | forward.py:72 | `stack` or `queue` in any case and padding, and InvalidChoice otherwise |
| Forward.ParseIndexMode | forward.py:73 | `min` or `max` in any case and padding, and InvalidChoice otherwise |
| Forward.NewCandidatesSpec | forward.py:32-40 | the batch holds exactly the rules still remaining, not on the agenda, whose premises are known and whose conclusion is not; with unique ids it has no repeats |
| Forward.OrderBatch | forward.py:45-48 | a permutation of the batch, strictly descending for stack+min and queue+max and strictly ascending otherwise |
| Forward.EnqueueCandidates | forward.py:23-51 | the agenda afterwards is the old agenda followed by the ordered batch |
| Forward.SelectRule | forward.py:54-59 | an empty agenda fails with EmptyCandidates; a stack pops the last id and a queue the first, leaving the rest |
| Forward.Fire | forward.py:111-121 | one loop turn: the chosen id was remaining and is appended to `fired`, leaves `remaining`, and its conclusion is added to the known facts |
| Forward.FireKeeps | forward.py:111-121 | a loop turn keeps the loop invariant: the agenda is repeat-free, inside `remaining` and made of rules with known premises; fired ids are distinct, partition the ids with `remaining`, form a derivation, and with the start make up the known facts; every unfired rule off the agenda with known premises has a known conclusion |
| Forward.RefreshPick | forward.py:45-59 | when the next pick comes from a fresh batch, it is the applicable rule with the smallest id under `min` and the largest under `max` |
| Forward.ChainingSound | forward.py:110-135 | the fired ids form a derivation, the final facts are the starting facts plus their conclusions, and success means the goals are known and derivable |
| Forward.ChainingComplete | forward.py:110-135 | success exactly when the goals are derivable; on failure the final facts are closed under the rules |
| Forward.ChainingBound | forward.py:89-116 | fired ids are distinct rule ids, at most one per rule |
| Forward.ChainingHistory | forward.py:98-147 | the history is a step-0 entry, one entry per firing, and a final NoRuleLeft entry exactly when the run fails |
| Forward.ChainingCoherent | forward.py:98-147 | every history entry records a state that keeps the loop invariant and leaves no applicable rule off the agenda |
| Forward.ChainingGoalsKnown | forward.py:110-135 | goals known from the start: success with nothing fired and a one-entry history |
| Forward.ForwardInference | forward.py:62-176 | the strategy, index mode, rules and non-blank goals are checked in that order, each failing with its own error; a run's goals are the normalised goals |
| Forward.ForwardCorrect | forward.py:62-176 | a run succeeds exactly when its goals are derivable from its starting facts, and its fired ids are a repeat-free derivation no longer than the rule list |
| Forward.FireOne | forward.py:111-121 | the loop body computes one turn as `Fire` does |
| Forward.RunChaining | forward.py:89-176 | the loop computes exactly the specified run |
| Forward.RunForwardInference | forward.py:62-176 | on a valid base, the method's result is the specified one on the rules in id order |
| Forward.SingleRuleRun | forward.py:110-135 | one applicable rule for the goal: it fires alone, the goal is reached, and the history has two entries |
| Forward.SingleRuleStuck | forward.py:110-147 | one rule whose premises are missing: nothing fires, the run fails, and the second entry is NoRuleLeft |
| Backward.Concluding | backward.py:17-21 | the rules filed under a conclusion are exactly the rules concluding it |
| Backward.BuildLookup | backward.py:17-21 | the lookup files every rule under its conclusion, in rule order |
| Backward.OrderRules | backward.py:68-72 | a permutation of the candidates, strictly ascending by id for `min` and descending for `max` |
| Backward.ConcludingUnique | backward.py:68-72 | with unique rule ids the candidates for one goal have distinct ids |
| Backward.ProveGoal | backward.py:54-101 | every call leaves `visiting` as it found it |
| Backward.ProveGoals | backward.py:103-113 | the top-level loop leaves `visiting` as it found it |
| Backward.ProveGoalShortcuts | backward.py:56-66 | a known goal is proved at once, a goal being proven or with no concluding rule fails, and none of the three changes known facts or used rules |
| Backward.CandidateOrder | backward.py:68-72 | the candidates tried are exactly the rules concluding the goal, ascending by id for `min` and descending for `max` |
| Backward.ProveGoalGrows | backward.py:54-101 | known facts, used rules and events only grow; nothing in `visiting` is learned; the answer is whether the goal ends up known |
| Backward.TryRulesGrows | backward.py:79-97 | trying candidates only grows the state; a success makes the goal known and a failure leaves an unknown goal unknown |
| Backward.PremisesGrows | backward.py:82-89 | the premise loop only grows the state, keeps facts learned before a failure, and on success all premises are known |
| Backward.TryRulesUses | backward.py:90-97 | a success appends the id of a tried candidate whose premises are all known |
| Backward.UseRuleSound | backward.py:90-97 | recording a rule whose premises are known extends the derivation by it, adds its conclusion, and keeps used ids distinct |
| Backward.ProveGoalSound | backward.py:54-101 | `prove` keeps the record sound: used ids form a repeat-free derivation whose conclusions plus the facts are the known facts |
| Backward.ProveGoalComplete | backward.py:54-101 | a goal reachable by a derivation is proved, unless a goal it needs is already being proven |
| Backward.ProveGoalsGrows | backward.py:103-113 | the top loop only grows the state and succeeds exactly when every goal is known |
| Backward.ProveGoalsSound | backward.py:103-113 | the top loop keeps the record sound |
| Backward.ProveGoalsComplete | backward.py:103-113 | from an empty `visiting`, goals that are all derivable are all proved |
| Backward.GoalList | backward.py:39-41 | the goal list is no longer than the input and its goals are non-empty and trimmed |
| Backward.GoalListFacts | backward.py:39-41 | its goals are exactly the normalised non-blank inputs |
| Backward.GoalSet | backward.py:39-41 | the goal list is empty exactly when the forward engine's goal set is |
| Backward.GoalListKeeps | backward.py:39-41 | normalised goals are kept in the caller's order with their duplicates |
| Backward.BackwardChaining | backward.py:103-137 | the result keeps the goal list as given |
| Backward.BackwardOutcome | backward.py:103-131 | the starting facts are kept; success exactly when every goal is known at the end, which is when the top loop reports no failure |
| Backward.BackwardCorrect | backward.py:24-137 | with unique ids, success exactly when the goals are derivable; used ids are a repeat-free derivation whose conclusions plus the facts are the final facts, at most one per rule |
| Backward.CycleFails | backward.py:54-101 | `x -> y` and `y -> x` with neither known: goal `x` fails, nothing is learned and no rule is used |
| Backward.BackwardInference | backward.py:24-41 | the index mode, the rules and a non-blank goal are checked in that order; a run's goals are the normalised goal list |
| Backward.EnginesAgree | backward.py:24-137 | with unique ids and a valid strategy, forward and backward chaining fail with the same error or agree on success |
| Backward.Prover.constructor | backward.py:43-52 | known facts as given, and empty `visiting`, used rules and steps |
| Backward.Prover.Prove | backward.py:54-101 | the recursive `prove` leaves the state and answer specified for it |
| Backward.Prover.Pursue | backward.py:68-101 | the candidate part of `prove` (order, mark, try, unmark) matches its specification |
| Backward.Prover.TryCandidates | backward.py:79-97 | the loop over candidate rules matches its specification |
| Backward.Prover.TryPremises | backward.py:82-89 | the loop over one rule's premises matches its specification |
| Backward.Prover.ProveAll | backward.py:103-113 | the loop over the top-level goals with `break` matches its specification |
| Backward.RunBackwardInference | backward.py:24-137 | on a valid base, the method's result is the specified one on the rules in id order |
| Derivations.Conclusions | forward.py:117 | the conclusions of a list of fired ids: every indexed id contributes its rule's conclusion and nothing else is in |
| Derivations.DerivationSnoc | forward.py:111-117 | firing one more rule extends a derivation exactly when its premises were available, and adds its conclusion |
| Derivations.ClosedNotDerivable | forward.py:135-136 | goals outside a set of facts closed under the rules and holding the start are not derivable |

## Left out

- Graph rendering (`graphs.py`, forward.py:149-167, backward.py:115-128) writes image files through external libraries. It is not modelled, and neither are the output directory and graph paths of the results.
- The web application, the command-line loop and the sample data are outside the engine.
- `load_rules_from_file` (knowledge_base.py:84-86) only reads a file and calls `load_rules_from_text`, which is modelled.
- `export_rules_text` (knowledge_base.py:88-90) and `format_atoms` (utils.py:46-48) only join strings for display. `to_text` is modelled as `Models.DefaultText`, and its round trip is `Utils.ParseToText`.
- `summary` (knowledge_base.py:144-147) is display formatting only.
- Narrative message text is left out. Each message is an `Event` or `Note` constructor that carries the values in it, and `depth` is the indentation level.
- Exceptions are modelled as `Err` values of `Results.Error`, one constructor per message. A method that raises partway leaves exactly the state the Python code leaves.
- Facts, `remaining` and the final known set are Dafny sets. The sorted lists that `sorted(...)` puts in the traces are left out.
- `Backward.Prover.Pursue`, `TryCandidates`, `TryPremises` and `ProveAll` split the `prove` closure and the top-level loop into one method per loop. The shared state of the Python closure becomes the fields of `Prover`.
- `Forward.EnqueueCandidates` and `Forward.SelectRule` return the new agenda instead of changing the caller's list in place.
- The `max` order sorts by the negated id. For distinct ids this is Python's `sort(reverse=True)`; candidates with equal ids are left out, because the knowledge-base invariant rules them out.
- Unique rule ids are assumed by the operations themselves, not only by the lemmas. `Forward.ForwardInference` requires `UniqueIds`. Every `KnowledgeBase` rule method, `Forward.RunForwardInference` and `Backward.RunBackwardInference` require `Valid()`, which includes unique ids. A knowledge base built directly from a list with repeated ids is outside the model. No caller in the program builds one: each base starts empty (cli.py:41, cli.py:288, web/routes.py:129) or is a clone of a valid base (knowledge_base.py:138).
- Utils.ParseToText: the round trip is proved only for atoms without a `>` (`ArrowFree`). An atom such as `x>y` also prints and parses back, but it is outside the lemma.
- Python's recursion limit is absent from the model, so very deep backward searches that Python would abort are modelled as completing.
- `Strings.Lower` maps ASCII letters and U+212A only. Other Unicode case mappings of `str.lower()` are left out.
