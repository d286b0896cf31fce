# Verified model of the GLASS Ionomer decision kernels

GLASS Ionomer assigns evidence statuses to claims and decides what may be released. This project models its
deterministic kernels in Dafny and proves what the repository promises about them.

| modules | what they model |
|---|---|
| `DependencyGraph`, `CycleSearch`, `CycleWitness`, `TopologicalOrder`, `KahnQueue`, `ClosureSpec`, `GraphComposition`, `GraphTheorems`, `OutcomeFields`, `StagedComposition` | `compose_graph`: three-colour search with an explicit stack, propagation to a fixpoint, Kahn's queue, composition in order, downgrades |
| `Status`, `Decision`, `EvidenceTheorems` | the status ladder, expiry, `compose`, `decide_status` |
| `Formulas`, `Evaluation`, `ShapeCheck`, `ModelSearch`, `LogicLane`, `LogicTheorems`, `LogicSyntax`, `LogicExamples` | the propositional lane over raw, untyped tuples |
| `FiscalCalendar`, `FiledPeriods`, `ComparativePeriods`, `FinancialLane`, `FinancialTheorems`, `FinancialGates`, `FallbackTheorems` | binding of filed rows to a claimed fiscal period, the comparative fallback, the verdict |
| `JsonText`, `JsonReader`, `CanonicalValues`, `CanonicalReader`, `CanonicalWalk` | the canonical serialiser: its text, its normal form, its guarded walk over shared and cyclic objects, and a reader that undoes it |
| `Enforcer`, `Receipts`, `GraphAnchor`, `Synthesizer`, `ReleaseTheorems`, `RecordedValues` | release decisions, their receipts, the graph hash, synthesis of conclusions and their verification |
| `ExactArithmetic`, `ArithmeticLaws` | bounded exact evaluation of arithmetic relations |
| `Wrappers`, `Numbers`, `Sequences`, `Sorting`, `Lexicographic` | stock datatypes, arithmetic and stable sorting; the order of strings |

Each loop of the source is a method proved against a specification that mentions no worklist, stack or table; the
theorems are lemmas about those specifications. The specifications are `Outcome` (composition, as a meet over the
dependency closure), `Answer` (logic, by satisfiability over all valuations), `StatusFor` (filings, as a property of
the set of rows), `Unfolds` with `Norm` (serialisation, as the tree an object graph denotes), `IsRelease`
(enforcement, as a maximum of floors) and `Meaning` (arithmetic, over the rationals).

What these specifications share with the programs (expiry, downgrades, independence keys, gates, tables of decisions,
texts, operators) is tied down a second time, in terms of the fields that go in and come out: `OutcomeFields`,
`EvidenceTheorems`, `FinancialGates`, `ReleaseTheorems`, `RecordedValues`, `LogicSyntax`, `LogicExamples`,
`ArithmeticLaws`, and the readers `JsonReader` and `CanonicalReader`.

Where the code falls short of a natural reading, or of its own documents, the exact condition is proved:

- **Cycles.** The search marks only nodes on cycles and some node of every cycle, and it does miss nodes: on a triangle
  with a chord it marks two of three (`MarksMissANode`). That is enough: after propagation the unresolved set is
  exactly the nodes that lead to a missing premise or into a cycle (`PropagationIsExact`).
- **The ladder.** EXPIRED and UNVERIFIED share a rung, yet composition is the minimum on a strict chain of seven.
- **The weakest link.** glass_ionomer/verify/identity.py lines 8-11 promise that a weak leaf drags down every ancestor.
  A resolved ancestor never ranks above anything it rests on. An unresolved one is capped at UNVERIFIED only: it ends
  above a leaf exactly where some input bearing on the leaf is refuted and the ancestor was not given as refuted, or
  some such input has lapsed and the ancestor was given as neither refuted nor expired (`UnresolvedLink`,
  `DraggedDownExactly`). A conclusion over a refuted premise and one nobody assessed is an example
  (`RefutedLeafUnderGap`).
- **Staged composition.** Composing a result again at the same time changes nothing. At a later time it never ranks
  below composing the original decisions then, and ranks above exactly when a lapse in between is masked everywhere by
  something contested or unverified and nothing was refuted or expired before (`StagedAgainstAnew`,
  `StagingOverstates`).
- **Lapsed premises.** docs/STATUS_POLICY.md lines 139-140 make a conclusion EXPIRED over an expired premise with none
  refuted; in the code it stays REFUTED where it is refuted itself, and only there (`LapsedPremiseExpires`, `RefutedOutlastsLapse`).
- **Corroboration.** docs/STATUS_POLICY.md lines 59-73 count independent lineages; the code
  (glass_ionomer/verify/status.py lines 290-294 and 355) counts only those whose provenance is verified. The model
  follows the code. The two differ exactly on claims that ran, with no bound definitive pass or fail, no credible
  contradiction, a class other than interpretive, and enough lineages but too few with verified provenance
  (`DocumentedExactly`, `UntrustedLineagesSupport`). CORROBORATED also arises with no lineage at all, from a definitive
  pass capped at an empirical claim's ceiling (`PassCorroborates`). Both sides count evidence with a bound quote only,
  which the document does not mention.
- **No wildcard.** The row behind a verified financial claim carries a year and period, or is bound by inference, exactly
  where the claim names both; a year or period that is present but blank is matched by unlabelled rows, against the promise in
  glass_ionomer/lanes/financial/verify.py line 15 (`PlacedExactly`, `BlankMatchesUnlabelled`).
- **The fallback.** A claim bound by its own label cannot survive a fresh filing with another value. A claim bound
  through comparative rows can: the first row that carries the label takes over alone, so VERIFIED may turn into
  REFUTED with no CONTESTED in between (`FallbackCanFlip`). `FirstLabelledRowTakesOver` says exactly when it is
  contested. Further filings without the label never flip a verdict (`UnlabelledFilingsNeverFlip`).
- **One end, two years.** glass_ionomer/lanes/financial/verify.py lines 201-203 promise that a period on which two
  filings disagree stays unbound. The fallback heeds other comparative rows only, not the label of the filing whose own
  period it is: it agrees with such filings exactly where the labels lie as many years apart as the period ends
  (`CrossPathExactly`), and a record with two filings of one label binds one end to two years (`OneEndTwoYears`).
- **The graph hash.** Premises are sorted by claim id and record hash only, so the hash ignores their order exactly
  when no two premises share both and still differ, or there are too many to hash (`OrderFreeExactly`,
  `ClashingPremisesHashApart`).
- **Bare fields.** Verifying a conclusion pins its claim, its premises and its receipt; the status, decision and tier
  handed back beside them may read anything (`BareFieldsAreNotPinned`), and are to be read from the receipt.
- **Exactness.** `//` turns fractions into Python ints, after which `/` or a negative power can yield a float.
  Evaluation is exact exactly on expressions whose parts all stay within their caps and in which no part divides an
  int by an int or raises an int to a negative int (`ExactExactly`, `FloorDivisionsDivided`); without `//` there is
  none (`NoFloorDivNoInt`).

## Model

| member | source | states |
|---|---|---|
| GraphComposition.ComposeGraph | glass_ionomer/verify/identity.py:98-226 | the five phases together return, entry by entry, the declarative outcome: for a resolved claim the chain minimum, the joined flags and the earliest deadline over its dependency closure; for an unresolved one its downgrade; for one without premise node, or shadowed by a later entry with its id, the entry untouched; order, length and texts kept |
| CycleSearch.Visit | glass_ionomer/verify/identity.py:128-152 | the visit of a white node terminates in the state that the search's steps lead to, keeps the grey nodes equal to the current path, marks only nodes on cycles, and finishes every unmarked node after all its dependencies |
| CycleSearch.Scan | glass_ionomer/verify/identity.py:135-147 | one pass over the top iterator keeps the search invariant and either stacks a white node or exhausts the iterator with nothing recoloured |
| CycleSearch.FindCycles | glass_ionomer/verify/identity.py:123-156 | every marked node lies on a cycle, off the marked nodes finishing times fall along every dependency, and the marks are those that visiting the white keys in order leaves |
| CycleSearch.EveryCycleHasAMark | glass_ionomer/verify/identity.py:136-141 | every dependency cycle has at least one marked node |
| CycleWitness.MarksMissANode | glass_ionomer/verify/identity.py:128-156 | on a three-node graph in which every node is on a cycle, the loop over all nodes ends with exactly two of them marked |
| CycleSearch.BackEdgeClosesCycle | glass_ionomer/verify/identity.py:136-141 | a back edge from the end of the path puts every node from its target onward on a cycle, so marking that stretch is justified |
| DependencyGraph.RankedIsAcyclic | glass_ionomer/verify/identity.py:158-173 | a set with a rank that falls along dependencies, and that dependencies inside the graph do not leave, meets no cycle |
| TopologicalOrder.Propagate | glass_ionomer/verify/identity.py:117-172 | the fixpoint loop ends with a set that contains the seeds, holds only nodes leading to a missing id or a cycle, and is closed under dependants |
| TopologicalOrder.PropagationIsExact | glass_ionomer/verify/identity.py:103-172 | the unresolved set is exactly the nodes from which a missing dependency or a cycle is reachable, although not every node on a cycle need be marked |
| KahnQueue.CountIndegrees | glass_ionomer/verify/identity.py:174-180 | counts equal the pending dependencies with repetitions, and the children lists are the reversed edges with the same multiplicities |
| KahnQueue.Release | glass_ionomer/verify/identity.py:184-189 | releasing a dequeued node's children keeps order and queue together equal to the nodes with count zero, each exactly once, even with repeated edges |
| KahnQueue.Kahn | glass_ionomer/verify/identity.py:173-189 | every resolvable node is ordered exactly once and after all its dependencies |
| KahnQueue.SomethingIsReady | glass_ionomer/verify/identity.py:181-183 | while a resolvable node is left, some node has nothing pending, so the queue cannot run dry early |
| GraphComposition.ComposeInOrder | glass_ionomer/verify/identity.py:191-207 | composing in topological order leaves exactly the ordered claims composed over their closures and touches nothing else |
| GraphComposition.DowngradeUnresolved | glass_ionomer/verify/identity.py:209-224 | downgrading in any order gives every claim its outcome |
| ClosureSpec.ComposeStep | glass_ionomer/verify/identity.py:202-207 | from premises that summarise their closures, one composition yields the summary of the conclusion's closure |
| ClosureSpec.ClosureUnfolds | glass_ionomer/verify/identity.py:103-104 | the closure of a claim is the claim and the union of its dependencies' closures |
| GraphTheorems.OutcomeIsUnique | glass_ionomer/verify/identity.py:98-101 | the declarative outcome fixes every field of a decision, for any two graphs with the same edges |
| GraphTheorems.ResultIsUnique | glass_ionomer/verify/identity.py:98-104 | order and repetition of declared dependencies do not affect the result |
| GraphTheorems.NodeOrderIsIrrelevant | glass_ionomer/verify/identity.py:113-115 | with distinct node ids, permuting the premise graph does not affect the result |
| GraphTheorems.ResultGivesOutcomes | glass_ionomer/verify/identity.py:98-101 | the entry that speaks for a claim carries that claim's outcome, so the facts below hold of any returned list |
| GraphTheorems.OutcomeNeverRaises | glass_ionomer/verify/identity.py:86-90 | no claim comes back higher on the chain than it went in |
| GraphTheorems.WeakestLink | glass_ionomer/verify/identity.py:103-104 | a resolved conclusion never ranks above the output of anything in its closure |
| GraphTheorems.LowOutputExactly | glass_ionomer/verify/identity.py:86-104 | an output is REFUTED exactly where some input bearing on it is, and EXPIRED exactly where some such input has lapsed and none is refuted |
| GraphTheorems.UnresolvedLink | glass_ionomer/verify/identity.py:8-11 | an unresolved ancestor ends above a leaf exactly under a condition on the inputs: a refutation bears on the leaf and the ancestor was not given as refuted, or a lapse does and it was given as neither refuted nor expired |
| GraphTheorems.DraggedDownExactly | glass_ionomer/verify/identity.py:8-11 | for every ancestor, resolved or not, the exact condition on the inputs under which it ranks no higher than the leaf |
| GraphTheorems.RefutedLeafUnderGap | glass_ionomer/verify/identity.py:8-11 | a verified conclusion over a refuted premise and an unassessed one ends UNVERIFIED over REFUTED |
| GraphTheorems.OutcomeIsNotStale | glass_ionomer/verify/identity.py:194-201 | a claim with a premise node comes back positive only if every deadline in its closure lies in the future |
| GraphTheorems.UnresolvedCarriesNoAssurance | glass_ionomer/verify/identity.py:86-95 | an unresolved claim ends UNVERIFIED, EXPIRED or REFUTED, at the lower of UNVERIFIED and what it was |
| GraphTheorems.CompositionIsIdempotent | glass_ionomer/verify/identity.py:98-101 | composing the result again changes no field of any entry |
| OutcomeFields.StatusOverInputs | glass_ionomer/verify/identity.py:191-207 | the status of a resolved claim is the least, over its closure, of the statuses that went in, where a positive one at or past its deadline counts as EXPIRED |
| OutcomeFields.DirectionOverInputs | glass_ionomer/verify/status.py:431-517 | a refutation below turns a resolved claim, a lapse below or its own makes it neutral, and otherwise it points as it did; identity, class, execution state, counts and provenance are kept, and the time of decision moves only over dependencies |
| OutcomeFields.FlagsOverInputs | glass_ionomer/verify/status.py:463-474 | flags and deadline of a resolved claim are the disjunctions and the earliest deadline over its closure |
| OutcomeFields.ExpiredIsNeutral | glass_ionomer/verify/status.py:434-440 | an expired outcome is neutral, unless an expired decision came in pointing somewhere |
| OutcomeFields.ExpiredLeaf | glass_ionomer/verify/identity.py:194-201 | a verified leaf past its deadline comes back EXPIRED and neutral |
| OutcomeFields.UnresolvedFields | glass_ionomer/verify/identity.py:86-95 | an unresolved claim that was positive or contested comes back UNVERIFIED and neutral, any other keeps status and direction, and all other fields but the time stay |
| OutcomeFields.LastNodeSpeaks | glass_ionomer/verify/identity.py:113-115 | of several premise nodes with one id the last one's dependencies count |
| StagedComposition.StagedAgainstAnew | glass_ionomer/verify/status.py:447-461 | recomposing an earlier result at a later time never ranks below composing the original decisions then, and ranks above exactly for resolved claims over whose closure a lapse is lost |
| StagedComposition.StagingOverstates | glass_ionomer/verify/status.py:454-461 | a verified conclusion over a contested premise whose lapse shows when composed late, and not when composed early and again late |
| StagedComposition.OutputsAreSummed | glass_ionomer/verify/identity.py:191-207 | every output in a resolved closure, composed or untouched, summarises its own closure |
| Status.ComposeIsChainMinimum | glass_ionomer/verify/status.py:447-517 | the composed status is the exact minimum on REFUTED < EXPIRED < UNVERIFIED < CONTESTED < SUPPORTED < CORROBORATED < VERIFIED of the refreshed inputs |
| Status.LadderTies | glass_ionomer/verify/status.py:128-138 | the ladder is the strict chain with EXPIRED and UNVERIFIED on one rung |
| Status.ComposeInheritsEarliestDeadline | glass_ionomer/verify/status.py:463-467 | the composed deadline is the earliest among conclusion and premises, and there is none only where none of them has one |
| Status.ComposeJoinsFlags | glass_ionomer/verify/status.py:470-474 | both warning flags are inherited from the conclusion or any premise and from nowhere else |
| Status.ComposeDirection | glass_ionomer/verify/status.py:476-511 | a refuted premise makes the direction REFUTES, a lapsed one NEUTRAL unless the conclusion is refuted itself, and otherwise the refreshed conclusion's direction stays |
| Status.LapsedPremiseExpires | glass_ionomer/verify/status.py:484-499 | over a lapsed premise, with none refuted, the conclusion is EXPIRED exactly when it is not refuted itself |
| Status.RefutedOutlastsLapse | glass_ionomer/verify/status.py:484-494 | a refuted conclusion over one expired premise stays REFUTED |
| Decision.StatusIsEarned | glass_ionomer/verify/status.py:252-395 | each status is reached exactly under its own condition: VERIFIED takes a completed execution, a mechanical claim, a bound definitive pass, no bound definitive fail and no credible contradiction; EXPIRED is never assigned |
| Decision.DirectionFollowsStatus | glass_ionomer/verify/status.py:330-386 | a decision points in support exactly when it is positive, and against its claim where it is refuted |
| Decision.ContestedFlagExactly | glass_ionomer/verify/status.py:328-348 | the contested flag means CONTESTED unless the claim is refuted |
| Decision.DeadlineExactly | glass_ionomer/verify/status.py:398-428 | there is a deadline exactly with a positive status and a lifetime, and a fresh decision with a positive lifetime is not expired |
| Decision.SupportIsOnRecord | glass_ionomer/verify/status.py:289-297 | corroboration without a definitive pass rests on verified provenance, and model-only support implies a lineage |
| EvidenceTheorems.LineagesExactly | glass_ionomer/verify/status.py:285-289 | the lineages counted are the size of a largest set of supports that are pairwise of different origin: another non-empty independence key, or without keys another lineage |
| EvidenceTheorems.StatusOverFields | glass_ionomer/verify/status.py:264-386 | each status is reached exactly where the fields of verifiers and evidence earn it, corroboration by enough proven supports of different origin |
| EvidenceTheorems.DirectionOverFields | glass_ionomer/verify/status.py:330-378 | contested claims are neutral, and an unverified one points against its claim exactly where a credible contradiction or an unbound definitive failure is at hand |
| EvidenceTheorems.RecordOverFields | glass_ionomer/verify/status.py:270-282 | claim, class, time and execution state of a decision, its definitive pass, and its deadline |
| EvidenceTheorems.FlagsOverFields | glass_ionomer/verify/status.py:290-297 | the provenance and model-only flags are exactly what the supports' fields say |
| EvidenceTheorems.WeightlessEvidence | glass_ionomer/verify/status.py:264-288 | evidence that is out of scope, unverified, stale, silent or without a bound quote never moves status, direction or count |
| EvidenceTheorems.WeightlessVerifier | glass_ionomer/verify/status.py:300-320 | a verifier that is a model or out of scope never moves status, direction or pass |
| EvidenceTheorems.OneLineageMayCorroborate | glass_ionomer/verify/status.py:355-358 | a policy may demand one lineage only, and then a single provenance-verified support corroborates |
| EvidenceTheorems.OneOriginCountsOnce | glass_ionomer/verify/status.py:289-294 | evidence of one origin counts at most one lineage, and corroborates only with a definitive pass |
| EvidenceTheorems.DefaultThresholds | glass_ionomer/verify/status.py:199-204 | the default policy asks for strengths of 0.3 and 0.5, two origins and an authoritative source |
| Decision.DocumentedExactly | docs/STATUS_POLICY.md:59-76 | the code's status differs from the documented table's exactly where provenance alone stands between a claim and corroboration |
| Decision.UntrustedLineagesSupport | docs/STATUS_POLICY.md:72-73 | two independent lineages of unverified provenance: CORROBORATED by the table, SUPPORTED by the code |
| Decision.PassCorroborates | glass_ionomer/verify/status.py:389-395 | an empirical claim with a bound definitive pass and no evidence is CORROBORATED with zero lineages |
| Decision.DecisionIgnoresModelsAndInadmissible | glass_ionomer/verify/status.py:264-326 | adding, dropping or reordering LLM results and inadmissible evidence changes nothing but, possibly, whether there was anything at all to look at |
| Decision.SupportNeverLowers | glass_ionomer/verify/status.py:285-386 | one more admissible support never lowers the status on the chain |
| Decision.ContradictionNeverRaises | glass_ionomer/verify/status.py:287-386 | one more credible contradiction never raises it |
| Evaluation.EvalIsSound | glass_ionomer/lanes/logic/verify.py:54-77 | a value the short-circuit evaluator returns under a partial environment is the truth under every completion |
| Evaluation.EvalIsTotal | glass_ionomer/lanes/logic/verify.py:54-77 | a well-formed formula with all its variables bound never makes the evaluator raise |
| Evaluation.TruthDependsOnVars | glass_ionomer/lanes/logic/verify.py:80-97 | valuations that agree on the collected variables give a formula the same truth |
| Evaluation.VisitsAtMostSize | glass_ionomer/lanes/logic/verify.py:216-221 | an evaluation makes at most as many evaluator calls as the formula has expressions, which is what the work estimate charges |
| ShapeCheck.CheckShape | glass_ionomer/lanes/logic/verify.py:105-144 | the explicit-stack check accepts exactly the recursively well-formed formulas within the depth and joint size limits, and returns their total size |
| ShapeCheck.JobUnfolds | glass_ionomer/lanes/logic/verify.py:116-143 | an expression at some depth is acceptable exactly when it is locally well shaped, not too deep, and all its operands one level down are acceptable |
| ModelSearch.AssignmentsCover | glass_ionomer/lanes/logic/verify.py:100-102 | every valuation coincides, on the names, with some enumerated assignment |
| ModelSearch.CollectVars | glass_ionomer/lanes/logic/verify.py:80-90 | collecting adds exactly the formula's variables to the accumulator |
| ModelSearch.FindModel | glass_ionomer/lanes/logic/verify.py:240-244 | a witness is found exactly when some valuation satisfies the constraints, every completion of it does, and it is the first in enumeration order; the evaluator calls made are counted exactly and stay within the estimate |
| ModelSearch.FindCounterexample | glass_ionomer/lanes/logic/verify.py:222-230 | a counterexample is found exactly when some model of the premises falsifies the target, every completion of it does, and it is the first; otherwise the vacuity flag says whether the premises have a model; the evaluator calls made are counted exactly and stay within the estimate |
| ModelSearch.CounterexampleVisitsBounded | glass_ionomer/lanes/logic/verify.py:216-227 | the exact count of evaluator calls over any assignments is at most their number times the node count |
| ModelSearch.Listed | glass_ionomer/lanes/logic/verify.py:93-97 | lists the variables in increasing order, each once |
| LogicLane.Decide | glass_ionomer/lanes/logic/verify.py:199-252 | the verdict is the semantic answer for the mode; a failure other than in satisfiable mode carries a payload that really refutes, a satisfiable pass a real model; payload and evaluator calls are those of the search over the sorted variables, none before abstaining, and at most 1,000,000 outside model_check |
| LogicLane.VerifyLogicClaim | glass_ionomer/lanes/logic/verify.py:255-327 | VERIFIED and REFUTED exactly for trusted bindings whose semantic answer is pass or fail, UNVERIFIED otherwise, malformed input included; a reported counterexample is genuine |
| LogicLane.KernelMaps | glass_ionomer/lanes/logic/verify.py:284-294 | the status kernel maps the lane's single result to VERIFIED, REFUTED or UNVERIFIED and nothing else |
| LogicTheorems.EntailmentIsSound | glass_ionomer/lanes/logic/verify.py:212-230 | a passing entailment has satisfiable premises, and its target holds under every valuation that satisfies them |
| LogicTheorems.ModelCheckIsSound | glass_ionomer/lanes/logic/verify.py:201-210 | with a partial model, a pass holds in all completions and a failure points at a constraint false in all of them |
| LogicTheorems.CounterexampleIsGenuine | glass_ionomer/lanes/logic/verify.py:201-250 | a reported counterexample falsifies a constraint, or satisfies the premises and falsifies the target, or satisfies the constraints, in every completion |
| LogicTheorems.ExplorationIsDetermined | glass_ionomer/lanes/logic/verify.py:199-252 | what a decision finds and how many evaluator calls it makes is determined by the claim |
| LogicTheorems.SatisfiabilityIsDual | glass_ionomer/lanes/logic/verify.py:232-250 | satisfiable and unsatisfiable answer oppositely or both abstain |
| LogicTheorems.EntailmentByRefutation | glass_ionomer/lanes/logic/verify.py:212-250 | within budget, premises with the negated target are unsatisfiable exactly when the entailment passes or is vacuous |
| Evaluation.Evaluate | glass_ionomer/lanes/logic/verify.py:54-77 | the evaluator as it runs gives the specified result and makes exactly the specified number of calls |
| Evaluation.FalsyExactly | glass_ionomer/lanes/logic/verify.py:58-63 | what Python counts as false |
| LogicSyntax.AcceptedExactly | glass_ionomer/lanes/logic/verify.py:116-143 | the raw tuples accepted are exactly the spellings of formulas with non-blank names and at least two operands for and and or |
| LogicSyntax.SpellingMeans | glass_ionomer/lanes/logic/verify.py:54-77 | the spelling of a formula is true where the formula holds |
| LogicExamples.EntailmentAbstainsExactly | glass_ionomer/lanes/logic/verify.py:212-230 | an entailment is left open exactly where it is malformed, lacks a part, has more than 18 variables or costs more than 1,000,000 steps, or has contradictory premises |
| LogicExamples.SatisfiabilityAbstainsExactly | glass_ionomer/lanes/logic/verify.py:232-250 | satisfiability is left open exactly where the constraints are malformed, lack one or cost too much |
| LogicExamples.ModelCheckAbstainsExactly | glass_ionomer/lanes/logic/verify.py:201-210 | a model check is left open exactly where it is malformed, lacks a part, or an evaluation raises first |
| LogicExamples.AcceptableExactly | glass_ionomer/lanes/logic/verify.py:46-48 | the limits are 512 levels and 10000 nodes |
| LogicExamples.Detaching | glass_ionomer/lanes/logic/verify.py:54-77 | from "p" and a joint of "p" and "q", "q" passes for and, imp and iff, and fails for or and xor |
| LogicExamples.Abducing | glass_ionomer/lanes/logic/verify.py:54-77 | from "q" and the joint, "p" passes for and and iff, and fails for imp, or and xor |
| FiscalCalendar.AlignedIsNearSomeYears | glass_ionomer/lanes/financial/verify.py:225-228 | a gap is accepted exactly when it is within 40 days of k years of 365.25 days for some k of at least 1; k is unique and is the one computed |
| FiscalCalendar.RoundsToNearest | glass_ionomer/lanes/financial/verify.py:226 | the number of years computed is the nearest, and there are no ties |
| FiscalCalendar.RunIsAligned | glass_ionomer/lanes/financial/verify.py:168-172 | a run of 52- and 53-week years is recognised with its true length exactly when its long years keep pace with the solar year, and always up to six years |
| FiledPeriods.PeriodFacts | glass_ionomer/lanes/financial/verify.py:109-164 | selects exactly the filings' own-period rows and the under-labelled rows that may restate them, as a property of the set of rows |
| ComparativePeriods.ComparativePeriodFacts | glass_ionomer/lanes/financial/verify.py:175-238 | returns exactly the rows of the one end that the claimed year binds to, and nothing where year and end are not matched one to one |
| ComparativePeriods.RowYear | glass_ionomer/lanes/financial/verify.py:214-230 | computes the fiscal year inferred for a row exactly when the row is a usable comparative |
| ComparativePeriods.FallbackIsInjective | glass_ionomer/lanes/financial/verify.py:231-238 | over one record, rows bound for two years share an end exactly when the years are equal |
| ComparativePeriods.ComparativeRowIsGenuine | glass_ionomer/lanes/financial/verify.py:204-230 | a bound row is a full year, is not its filing's own period, ends before it by a whole number of years, and that number separates the claimed year from the filing's only label |
| FinancialLane.VerifyFinancialClaim | glass_ionomer/lanes/financial/verify.py:302-390 | the gates in order amount to a status that is a property of the set of rows; the filing cited, present exactly when rows bind and no amount is too large, is the latest among the citable ones |
| FinancialLane.LabelledSelects | glass_ionomer/lanes/financial/verify.py:337-341 | a single row under the claimed label gives an own-period row, so the fallback is not consulted |
| FinancialLane.DistinctValues | glass_ionomer/lanes/financial/verify.py:251-258 | lists each filed value once, with exact comparison |
| FinancialLane.LatestFiling | glass_ionomer/lanes/financial/verify.py:352-362 | picks a row whose accession no other row's exceeds |
| FinancialTheorems.VerifiedExactly | glass_ionomer/lanes/financial/verify.py:311-385 | VERIFIED exactly for an admitted claim with trusted record and binding and a row of the period, by label or inference, that reports the amount, all bound rows agreeing |
| FinancialGates.EntityGates | glass_ionomer/lanes/financial/verify.py:318-331 | a claim about another entity than the record's, about none by number, or with a ticker alone stays UNVERIFIED |
| FinancialGates.FieldGates | glass_ionomer/lanes/financial/verify.py:311-317 | so does one without a finite amount below 2 to the power of 53, a year or a period |
| FinancialGates.UnverifiedExactly | glass_ionomer/lanes/financial/verify.py:311-385 | a claim stays UNVERIFIED exactly at a gate, without bound rows, over an inexact row, or untrusted where the rows agree |
| FinancialGates.DecidedByAmount | glass_ionomer/lanes/financial/verify.py:357-385 | with gates and trust passed and one exact amount filed, the claim is VERIFIED or REFUTED by whether the amounts match |
| FinancialGates.AmountsMatchExactly | glass_ionomer/lanes/financial/verify.py:99-106 | whole amounts match when equal, others within a millionth unless their signs are opposite, symmetrically |
| FinancialGates.WholeExactly | glass_ionomer/lanes/financial/verify.py:102-103 | an amount is whole exactly when it is some integer |
| FinancialGates.AmendmentsExactly | glass_ionomer/lanes/financial/verify.py:156-161 | a form is an amendment exactly when it is some form followed by "/A" |
| FinancialGates.UnplacedRowExactly | glass_ionomer/lanes/financial/verify.py:151-163 | an unlabelled row without an end bears on a labelled claim exactly where its form is an amendment |
| FinancialGates.InfersExactly | glass_ionomer/lanes/financial/verify.py:214-229 | a row is inferred to be of a year exactly where it lasts 350 to 380 days and ends before its filing's own period by the years between that year and the filing's only label |
| FinancialGates.AnotherCompanysRecord | glass_ionomer/lanes/financial/verify.py:330-331 | a concrete claim whose amount is filed, by another company, is not verified |
| FinancialTheorems.PlacedExactly | glass_ionomer/lanes/financial/verify.py:15 | the row behind a verified claim carries a year and period, or is bound by inference, exactly when the claim names both, and then they are those it names; a blank one is matched by rows without the label |
| FinancialTheorems.BlankMatchesUnlabelled | glass_ionomer/lanes/financial/verify.py:315-317 | a concrete claim with a year and a blank period that a row without a period verifies |
| FinancialTheorems.RowOrderIsIrrelevant | glass_ionomer/lanes/financial/verify.py:109-120 | order and repetition of filed rows do not affect the status |
| FinancialTheorems.CitationIsDetermined | glass_ionomer/lanes/financial/verify.py:352-362 | nor the accession cited |
| FinancialTheorems.FreshRowEnlarges | glass_ionomer/lanes/financial/verify.py:117-120 | a labelled row from a fresh filing joins the selection and displaces no row |
| FinancialTheorems.RestatementContests | glass_ionomer/lanes/financial/verify.py:346-355 | a label-bound claim meets CONTESTED, or UNVERIFIED where an amount is too large, once a fresh filing reports another value |
| FinancialTheorems.FirstLabelledRowTakesOver | glass_ionomer/lanes/financial/verify.py:337-355 | a fallback-bound claim becomes CONTESTED on its first labelled row exactly when that row and the rows that may restate it disagree among themselves |
| FinancialTheorems.FallbackCanFlip | glass_ionomer/lanes/financial/verify.py:338-345 | a concrete record on which a VERIFIED fallback claim is REFUTED, not CONTESTED, by the first labelled row |
| FallbackTheorems.UnlabelledFilingsNeverFlip | glass_ionomer/lanes/financial/verify.py:337-385 | any number of further filings, none under the claimed label, leaves a decided or contested fallback claim as it is, or makes it CONTESTED or UNVERIFIED |
| FallbackTheorems.CrossPathExactly | glass_ionomer/lanes/financial/verify.py:201-203 | the year bound to an end is the one every filing with that own period gives it exactly where the labels are in step with the period ends |
| FallbackTheorems.OneEndTwoYears | glass_ionomer/lanes/financial/verify.py:201-203 | a concrete record on which one end is a filing's own 2023 and verifies a claim for 2022 |
| JsonText.RenderIsPrefixFree | glass_ionomer/_canonical.py:89 | a rendered value can be read off the front of any text |
| JsonText.RenderIsInjective | glass_ionomer/_canonical.py:89 | different values have different compact JSON texts |
| JsonReader.RenderReadsBack | glass_ionomer/_canonical.py:89 | a reader of JSON text after RFC 8259 gets back exactly the value rendered, and leaves what follows it |
| JsonReader.EscapedExactly | glass_ionomer/_canonical.py:89 | a character is escaped exactly where it is a quote, a backslash or a control character, the short way where there is one |
| JsonReader.HexIsLowerCase | glass_ionomer/_canonical.py:89 | hexadecimal digits are written in lower case |
| CanonicalValues.DecimalIsInjective | glass_ionomer/_canonical.py:38-39 | different integers have different decimal texts |
| CanonicalValues.NormIsInjective | glass_ionomer/_canonical.py:34-68 | the normal form keeps bool and int, list and tuple, str and int apart and loses no content |
| CanonicalValues.CanonicalTextIsInjective | glass_ionomer/_canonical.py:76-89 | values of different type or content never share a canonical text |
| CanonicalReader.CanonicalTextReadsBack | glass_ionomer/_canonical.py:34-89 | a reader of tags, decimal digits and entries gets back exactly the value a canonical text was written for |
| CanonicalReader.DigitsDenote | glass_ionomer/_canonical.py:38-39 | the digits of an integer denote it by position, without leading zeros |
| CanonicalReader.PrintableExactly | glass_ionomer/_canonical.py:38-39 | an integer has a text exactly below the power of ten that Python's limit on digits names |
| CanonicalWalk.Walk.Normalize | glass_ionomer/_canonical.py:20-73 | `seen` is exactly the chain of containers that leads to the value, before and after; a container on that chain is refused at once; otherwise exactly the objects that denote a tree within the node, depth and digit limits are accepted, whatever they share, with the tree's normal form and its nodes counted |
| CanonicalWalk.Walk.NormalizeContainer | glass_ionomer/_canonical.py:47-70 | marks a container that is not being visited, walks its contents and unmarks it on every exit |
| CanonicalWalk.Walk.NormalizeContents | glass_ionomer/_canonical.py:51-68 | runs only with the container marked, as the end of the chain that `seen` holds, and leaves `seen` as it was |
| CanonicalWalk.RevisitHasNoUnfolding | glass_ionomer/_canonical.py:48-50 | a container met again on the chain to itself denotes no tree |
| CanonicalWalk.Walk.NormalizeDict | glass_ionomer/_canonical.py:61-68 | refuses a dictionary with a key that is not a string, and otherwise walks the items in key order |
| CanonicalWalk.CanonicalDumps | glass_ionomer/_canonical.py:76-89 | yields a text that reads back as the denoted tree, or refuses exactly where the limit is invalid, there is no such tree, it exceeds a limit, or an integer in it has more digits than Python turns into text |
| CanonicalWalk.SharedIsCopied | glass_ionomer/_canonical.py:46-70 | a list that holds one list twice denotes two copies of it, so sharing alone is not refused |
| CanonicalWalk.SelfHeldIsRefused | glass_ionomer/_canonical.py:48-50 | a list that holds itself is a legal input and denotes no tree |
| CanonicalWalk.CycleHasNoUnfolding | glass_ionomer/_canonical.py:48-50 | a container that leads back to itself denotes no tree, so the refusal is right |
| CanonicalWalk.InsertionOrderIsIrrelevant | glass_ionomer/_canonical.py:63-68 | two dictionaries with the same items denote the same tree, whatever their insertion order |
| CanonicalWalk.DictionaryIsIncreasing | glass_ionomer/_canonical.py:63-68 | the tree of a dictionary has all its items, by strictly increasing key |
| Lexicographic.LessExactly | glass_ionomer/_canonical.py:67 | keys are ordered by the first code point in which they differ, a proper prefix first |
| Enforcer.Enforce | glass_ionomer/engine/enforcer.py:118-156 | decision and tier are, each on its own ladder, the maximum over the floors set by status, model-only support and advisories |
| Enforcer.ReleaseIsUnique | glass_ionomer/engine/enforcer.py:145-153 | order and repetition of advisories do not affect the release |
| Enforcer.AdvisoriesNeverRelax | glass_ionomer/engine/enforcer.py:63-65 | more advisories never lower decision or tier |
| Enforcer.AllowedExactly | glass_ionomer/engine/enforcer.py:127-153 | ALLOW exactly for a VERIFIED, definitively backed, not model-only certification with nothing worse than INFO |
| ReleaseTheorems.DecisionExactly | glass_ionomer/engine/enforcer.py:41-153 | each of the five decisions in terms of status, definitive verifier, model-only support and advisories |
| ReleaseTheorems.TierExactly | glass_ionomer/engine/enforcer.py:41-153 | the risk tier in the same terms |
| ReleaseTheorems.RefutedIsRefused | glass_ionomer/engine/enforcer.py:50 | a refuted claim is refused at tier 5, whatever else is said |
| Synthesizer.Synthesize | glass_ionomer/engine/synthesizer.py:166-244 | raises exactly on an empty key or more premises or advisories than the serialiser takes; the status is the weakest of ceiling and premises, ALLOW is given exactly when everything is settled, the support nodes copy the premises, the receipt records status, decision and tier, and the result passes `verify_conclusion` with the key and without |
| Synthesizer.SynthesisIsWeakest | glass_ionomer/engine/synthesizer.py:187-200 | the composed status is the minimum of the conclusion's ceiling and all premises' statuses; model-only support is inherited from any premise |
| Synthesizer.SynthesizedContests | glass_ionomer/engine/synthesizer.py:93-112 | a composed conclusion is contested exactly over a contested premise |
| Synthesizer.SynthesizedPoints | glass_ionomer/engine/synthesizer.py:93-112 | it points against its claim over a refuted premise, nowhere over an expired one, and for it otherwise |
| Synthesizer.SynthesizedRecord | glass_ionomer/engine/synthesizer.py:187-200 | the rest of its record is the conclusion's own, decided now and without a deadline |
| Synthesizer.PremisePoints | glass_ionomer/engine/synthesizer.py:93-112 | a premise is composed with the direction of its status and its own record |
| Synthesizer.ReleasedExactly | glass_ionomer/engine/synthesizer.py:187-234 | ALLOW exactly when there are premises, all VERIFIED, definitive and not model-derived, the conclusion is mechanical, the derivation trusted and its advisories INFO |
| ReleaseTheorems.CertifiedExactly | glass_ionomer/engine/synthesizer.py:177-232 | status, model-derived flag and definitive flag of a conclusion over its premises, with and without any |
| ReleaseTheorems.NothingToSynthesize | glass_ionomer/engine/synthesizer.py:177-191 | with no premise the conclusion is refused on a blocking advisory and sent back for clarification otherwise |
| ReleaseTheorems.RefusedExactly | glass_ionomer/engine/synthesizer.py:187-234 | a conclusion is refused exactly over a refuted premise or by a blocking advisory |
| ReleaseTheorems.EscalatedExactly | glass_ionomer/engine/synthesizer.py:187-234 | otherwise it is escalated exactly where a contested premise is the weakest, or all is verified but the derivation untrusted or a premise without definitive verifier |
| ReleaseTheorems.PresentKeepsOrder | glass_ionomer/engine/synthesizer.py:177 | absent premises are passed over, the others keep order and number |
| Synthesizer.CautionIsNamed | glass_ionomer/engine/synthesizer.py:215-222 | the caution of an untrusted derivation says which way it failed |
| Synthesizer.AdvisoriesRecorded | glass_ionomer/engine/synthesizer.py:214-223 | the receipt lists the conclusion's advisories, and a caution after them for an untrusted derivation |
| Synthesizer.ContentRecords | glass_ionomer/engine/enforcer.py:75-91 | what the receipt of a synthesis records, field by field |
| Synthesizer.ConclusionPassesExactly | glass_ionomer/engine/synthesizer.py:247-257 | a conclusion passes exactly where its anchor is the hash of its premises and a passing receipt carries claim and anchor |
| Synthesizer.PremiseOrderIsIrrelevant | glass_ionomer/engine/synthesizer.py:187-234 | order and repetition of premises do not affect the certification put to the enforcer |
| Synthesizer.SameAnchorSameSupport | glass_ionomer/engine/synthesizer.py:247-257 | two conclusions that pass verification with one graph hash have one claim id and the same multiset of support nodes |
| Synthesizer.SameReceiptSameSupport | glass_ionomer/engine/synthesizer.py:247-257 | two that pass with one current receipt hash also have the same recorded status, decision and every other receipt field |
| Synthesizer.BareFieldsAreNotPinned | glass_ionomer/engine/synthesizer.py:247-257 | verification does not depend on the status, decision and tier handed back beside the receipt |
| Receipts.ContentValueIsInjective | glass_ionomer/engine/enforcer.py:75-91 | the hashed content loses no field of a receipt |
| Receipts.ContentHashedExactly | glass_ionomer/engine/enforcer.py:94-96 | a current content is hashed exactly when its advisories fit the serialiser's node limit |
| Receipts.IssuedPassesExactly | glass_ionomer/engine/enforcer.py:159-196 | an issued receipt passes exactly without a key where no signature is demanded, or under a key that signs like the issuer's |
| Receipts.KeyedPassesExactly | glass_ionomer/engine/enforcer.py:185-193 | under a key a receipt passes exactly where it is signed with it over the hash of its own content |
| Receipts.UnkeyedPassesExactly | glass_ionomer/engine/enforcer.py:185-196 | without one it passes exactly where its hash is right and no signature is demanded |
| Receipts.LegacyExactly | glass_ionomer/engine/enforcer.py:185 | version 1 receipts and no others are checked against the hash of their time |
| RecordedValues.ContentFields | glass_ionomer/engine/enforcer.py:75-91 | the twelve hashed fields, each under its name |
| RecordedValues.ContentKeysIncrease | glass_ionomer/engine/enforcer.py:75-91 | in the order in which a dictionary is written |
| RecordedValues.StatusReadsBack | glass_ionomer/verify/status.py:51-58 | each status is recorded under its own text |
| RecordedValues.DecisionReadsBack | glass_ionomer/engine/contracts.py:108-114 | so is each decision |
| RecordedValues.SeverityReadsBack | glass_ionomer/engine/contracts.py:56-60 | so is each severity |
| Receipts.HashPinsContent | glass_ionomer/engine/enforcer.py:159-196 | for an injective digest, two current receipts that pass have one hash exactly when all their fields agree |
| GraphAnchor.SortIsStable | glass_ionomer/engine/synthesizer.py:84-89 | sorting the nodes leaves those of one key in their order |
| RecordedValues.GraphFields | glass_ionomer/engine/synthesizer.py:80-90 | the anchor hashes the conclusion's id and the list of its premises, each once |
| RecordedValues.NodeFields | glass_ionomer/engine/synthesizer.py:84-89 | each premise with its four fields under their names |
| RecordedValues.NodeKeysIncrease | glass_ionomer/engine/synthesizer.py:84-89 | in the order in which a dictionary is written |
| RecordedValues.GraphKeysIncrease | glass_ionomer/engine/synthesizer.py:82-90 | likewise for the graph |
| RecordedValues.NodesAreOrdered | glass_ionomer/engine/synthesizer.py:89 | premises are listed by claim id, and by record hash within a claim |
| GraphAnchor.HashableExactly | glass_ionomer/engine/synthesizer.py:80-90 | the anchor is computed exactly for up to 19999 premises |
| GraphAnchor.HashPinsGraph | glass_ionomer/engine/synthesizer.py:80-90 | for an injective digest, two graph hashes agree exactly when the conclusion and the sorted nodes, every authority field included, agree |
| GraphAnchor.OrderFreeExactly | glass_ionomer/engine/synthesizer.py:84-89 | every reordering of the premises gives the same hash exactly when no two share claim id and record hash and still differ, or there is no hash |
| GraphAnchor.ClashingPremisesHashApart | glass_ionomer/engine/synthesizer.py:84-89 | two concrete premises whose two orders hash apart |
| ExactArithmetic.Walk | glass_ionomer/verify/safe_arith.py:69-83 | the counting walk raises exactly when node count or depth exceeds its limit and otherwise adds the size of the subtree |
| ExactArithmetic.CheckBounds | glass_ionomer/verify/safe_arith.py:69-83 | a comparison is admitted exactly when its whole tree is within both limits |
| ExactArithmetic.NumericIsExact | glass_ionomer/verify/safe_arith.py:103-152 | an exact evaluation yields the rational meaning with every part within its cap, and an expression with all parts within their caps is never refused |
| ExactArithmetic.ExactExactly | glass_ionomer/verify/safe_arith.py:123-150 | evaluation is exact exactly on expressions whose parts stay within their caps and none of whose parts divides ints or raises an int to a negative int; a float arises only off the latter |
| ExactArithmetic.KindIsHeld | glass_ionomer/verify/safe_arith.py:44-52 | whether an exact value is a Python int or a Fraction can be read off the expression |
| ExactArithmetic.NoFloorDivNoInt | glass_ionomer/verify/safe_arith.py:44-52 | without `//` every value is a Fraction and no float can arise |
| ExactArithmetic.FloorDivisionsDivided | glass_ionomer/verify/safe_arith.py:44-52 | a concrete quotient that leaves the exact domain, and a power of the same operands that does not |
| ArithmeticLaws.DivisionLaw | glass_ionomer/verify/safe_arith.py:44-52 | floor division gives a whole quotient, and the remainder is below the divisor and has its sign |
| ArithmeticLaws.FieldLaws | glass_ionomer/verify/safe_arith.py:44-52 | sums and products, differences and quotients that undo them, and no division by zero |
| ArithmeticLaws.PowerLaws | glass_ionomer/verify/safe_arith.py:139-150 | whole powers count factors from one |
| ArithmeticLaws.InversePower | glass_ionomer/verify/safe_arith.py:139-150 | negative powers invert, except of zero |
| ArithmeticLaws.FractionalPowerFails | glass_ionomer/verify/safe_arith.py:143-148 | a fractional exponent has no exact power |
| ArithmeticLaws.SignLaws | glass_ionomer/verify/safe_arith.py:63-66 | signs keep or negate, and other unary operators have no meaning |
| ArithmeticLaws.OrderLaws | glass_ionomer/verify/safe_arith.py:155-175 | the six comparisons in terms of equality and of positive difference |
| ArithmeticLaws.ChainsCompareNeighbours | glass_ionomer/verify/safe_arith.py:186-192 | a chained relation compares each operand with its neighbour |
| ArithmeticLaws.CapExactly | glass_ionomer/verify/safe_arith.py:86-93 | the cap on magnitudes is 10 to the power of 15, inclusive |
| ArithmeticLaws.ExponentsExactly | glass_ionomer/verify/safe_arith.py:139-142 | exponents run from -64 to 64 |
| ArithmeticLaws.SmallExactly | glass_ionomer/verify/safe_arith.py:69-83 | the limits are 200 nodes and 25 levels |
| ArithmeticLaws.WorkedRelations | glass_ionomer/verify/safe_arith.py:117-123 | concrete relations: decimal identities hold exactly and negative operands floor |
| ExactArithmetic.EvaluateRelation | glass_ionomer/verify/safe_arith.py:178-192 | a relation is decided exactly when it is small, all operands are bounded and stay exact, and no unsupported comparison is reached; the ruling is then the conjunction of its adjacent comparisons over the rational meanings |

## Left out

- Reason strings, wording templates and manifests. Digest and keyed digest are function parameters, assumed injective, or to give non-empty signatures, only where a lemma says so; version 1 receipts are hashed by a further parameter.
- Network, HTML and LLM code, `extract_facts`, `normalize_premises` and `canonicalize`: the model starts from what they deliver.
- Binding, derivation and provenance proofs: one boolean each, as is the trust in a filed record.
- Clocks and time zones: times are integers. Strengths and filed or claimed amounts are reals, not floats; NaN amounts do not occur, and a claimed value that is not finite is `None`.
- Normalisation of raw fiscal labels, forms and CIKs: fields arrive normalised, with "absent" and "present but blank" kept apart where the code tells them apart.
- Dates are absent, a `YYYY-MM-DD` full-date (section 5.6 of RFC 3339) from 1900 on as a day number, or other text; the other ISO forms that newer Python versions parse are left out.
- FiscalCalendar.YearsBack: written over integers; 365.25 is 1461/4, and no integer gap lies half-way between two multiples.
- Python's recursion limit: evaluator, serialiser and JSON encoder take about two frames a level, so under the default limit of 1000 values and formulas nested deeper than about 490 levels raise RecursionError in the original, short of the documented limits of 512 and 600.
- Formulas are trees: lists that contain themselves are not modelled for the logic lane, where the node limit rejects them; they are for the serialiser.
- GraphComposition.DowngradeUnresolved: takes the unresolved claims in any order rather than sorted; only reason strings depend on it.
- FiledPeriods.PeriodFacts: the order of the selected rows; nothing modelled depends on it.
- CycleSearch.MarkCycle: the branch for a grey node that is not on the path is absent, because the invariant shows that every grey node is.
- CanonicalWalk.CanonicalDumps: Python's limit on the digits of an integer, and whether it is switched off, are a parameter; by default it is 4300 from Python 3.11 on.
- CanonicalValues.Norm: a float is known by its `float.hex` text; that `float.hex` is injective on finite floats is not proved.
- ExactArithmetic.EvaluateRelation: parsing, a text that is not a comparison, and what becomes of a float once one has arisen: the source goes on in floating point, and the ruling is `LeftExactDomain`.
- `evaluate_numeric_expression`, which works in floats with variables, and the gateway's regular expressions.
