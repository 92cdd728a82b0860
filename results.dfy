/**
  The records the rule engine hands back: the failures it reports (each
  Python `ValueError` or `KeyError` becomes one constructor; its message
  text is not modelled), the tie-break option both engines take, and the
  results and traces of forward and backward chaining, with each line of
  narrative text recorded as an event.
 */
module Results {
  import opened Strings

  datatype Error =
    | EmptyRuleText                             // "Rule text is empty."
    | MissingArrow                              // the rule has no `->` (nor a variant)
    | MissingPremises                           // the left-hand side holds no atom
    | MissingConclusion                         // the right-hand side is blank
    | InvalidChoice(what: string, choices: seq<string>)
    | UnknownRuleId(id: int)                    // `get_rule` on an id not in the index
    | DuplicateRuleId(id: int)                  // an explicit id that is already in use
    | EmptyFact                                 // `add_fact` of a blank atom
    | NoRules                                   // an engine run on a knowledge base without rules
    | NoGoals                                   // an engine run whose goals are all blank
    | EmptyCandidates                           // `_select_rule` on an empty candidate list

  datatype Result<+T> = Ok(value: T) | Err(error: Error) {
    predicate IsFailure() { Err? }
    function PropagateFailure<U>(): Result<U>
      requires Err?
    {
      Err(error)
    }
    function Extract(): T
      requires Ok?
    {
      value
    }
  }

  /** Which of several rule ids is considered first: the smallest or the largest. */
  datatype IndexMode = Min | Max

  /** Why a forward trace entry was recorded. */
  datatype Note =
    | Initial                                   // the state before any rule fired
    | Derived(fact: string)                     // the rule of this step added `fact`
    | NoRuleLeft                                // the run stopped without its goals

  /** `StepTrace`: a snapshot of a forward run after one step. */
  datatype StepTrace = StepTrace(
    step: nat,
    ruleId: Option<int>,                        // the rule fired at this step, if any
    knownFacts: set<string>,
    thoa: seq<int>,                             // the candidate list
    remainingRules: set<int>,
    firedRules: seq<int>,
    note: Note)

  /** `ForwardResult`, without the graph files. */
  datatype ForwardResult = ForwardResult(
    success: bool,
    goals: set<string>,
    finalFacts: set<string>,
    firedRules: seq<int>,
    history: seq<StepTrace>)

  /** One narrative line of a backward run; `depth` is its indentation level. */
  datatype Event =
    | AlreadyKnown(goal: string, depth: nat)            // the goal is a known fact
    | CycleDetected(goal: string, depth: nat)           // the goal is already being proven
    | NoRuleFor(goal: string, depth: nat)               // no rule concludes the goal
    | Considering(goal: string, count: nat, mode: IndexMode, depth: nat)
    | TryRule(ruleId: int, text: string, depth: nat)    // a candidate rule is tried; `text` is its `to_text()`
    | ProvePremise(premise: string, depth: nat)
    | PremiseFailed(premise: string, ruleId: int, depth: nat)
    | ProvedBy(goal: string, ruleId: int, depth: nat)
    | NotProved(goal: string, depth: nat)
    | GoalHeld(goal: string)                            // a top-level goal was known from the start
    | GoalStarted(goal: string)
    | GoalFailed(goal: string)
    | GoalDone(goal: string)

  /** `BackwardResult`, without the graph files. */
  datatype BackwardResult = BackwardResult(
    success: bool,
    goals: seq<string>,
    finalKnown: set<string>,
    usedRules: seq<int>,
    steps: seq<Event>)
}
