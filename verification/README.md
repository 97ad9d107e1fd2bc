# Verified model of taas-fudge and of CaDiCaL's Craig tracer

taas-fudge answers questions about the extensions of a Dung argumentation
framework with incremental SAT calls. Each task is a loop that adds clauses to
one or two solvers, assumes literals for a single call, reads models and stops
early. This project models those loops over a solver class with the IPASIR
contract and proves that each terminates and what it returns, against the
textbook definitions of the semantics. A second part models the Craig
interpolation tracer that ships with CaDiCaL: its and-inverter graph, its four
labelled interpolation systems along resolution chains, and its translation to
clauses.

## Layout

| file | part of the program |
|---|---|
| Framework.dfy | frameworks, semantics, and the theorems about admissible sets that the tasks rest on |
| Sat.dfy | the incremental solver behind IPASIR |
| Encodings.dfy, Blocking.dfy | the five clause encodings; reading models and blocking sets |
| Preferred.dfy, Counting.dfy | SE-PR, CE-PR, CE-CO, CE-ST |
| Skeptical.dfy, Ideal.dfy, EaPr.dfy | DS-PR, SE-ID, DS-ID, EA-PR |
| SemiStable.dfy | SE-SST, SE-STG, DS-SST, DC-SST |
| Grounded.dfy, Labels.dfy, Loading.dfy, Queries.dfy | grounded worklist, label check, attack lists, the front end |
| Hierarchy.dfy | how semantics and tracks are ordered, with frameworks that show each order strict |
| BitSet.dfy, RaSet.dfy | word-packed bit sets, random-access sets |
| Aig.dfy, Tseitin.dfy | the hash-consed graph and its clauses |
| Interpolation.dfy, LeafForms.dfy | the interpolation systems, and which interpolants they compute |
| Craig.dfy, Tracer.dfy, CraigCnf.dfy | the tracer and the interpolant as clauses |

## How it is put together

- A valuation is the set of true variables. Solver contracts are semantic: after
  a clause is added the models are exactly those that also satisfy it, so a loop
  invariant says which sets the solver can still return. `Solve` has a
  brute-force body; callers see the contract alone.
- Variables are numbered as in the tasks: argument i is IN at 2i+1 and OUT at
  2i+2, the attacked set uses the next block, and the attack variables follow.
- A blocking clause says "some argument outside this set is IN". What terminates
  the loops is the set of subsets not yet inside a blocked set. In DS-SST the
  recorded set need not grow, because the query is never recorded; the measure
  still falls, because the decided set of every model is blocked.
- The grounded extension is the least fixpoint of the characteristic function.
  The admissible, complete and stable encodings build it in; that no preferred,
  complete, stable or semi-stable extension is lost this way is proved.
- A partial interpolant is specified by a resolution proof. The tracer keeps the
  proof of each stored clause as ghost state and relates the graph edges to it;
  which function that is, is read off the leaves of the proof.
  A chain is accepted if every antecedent clashes with the current resolvent in
  exactly one literal, is no tautology, repeats no literal and mentions no earlier
  pivot (marks are not cleared within a chain), and if the last resolvent is a
  subset of the recorded clause.

## Findings

- `solve_dsid` (tasks/task_ds-id.cpp:43-164) asked about an argument that grounded
  already decides answers YES exactly if some admissible set attacks an argument
  outside grounded OUT, whatever the argument. For an argument that is grounded OUT
  that YES is wrong, for one that is grounded IN a NO is wrong. The front end never
  asks (taas/taas_basics.c:133-165); `Queries.DecidedQueryExample` is an
  instance, and `Queries.Answer` shows that all answers are right with the shortcuts.
- The branch of `solve_dsid` for an empty super-core (tasks/task_ds-id.cpp:92-97) is
  never reached: an undecided query leaves the core only together with an early exit,
  and a decided one means that grounded, and so the core, is not empty.
- `add_stbTestClauses` gives an unattacked argument no clause of its own
  (tasks/task_general.cpp:104-112); the encoding is exact because the grounded
  extension contributes its unit clause.
- In `create_craig_interpolant` UNION stands for the conjunction of the enabled
  interpolants and INTERSECTION for their disjunction
  (lib/cadical-2.1.0/contrib/craigtracer.cpp:869-941).

## Model

| member | source | states |
|---|---|---|
| Framework.AdmissibleUnion | tasks/task_ds-pr.cpp:15-118 | Two admissible sets, one of which does not attack the other, have an admissible union: why an unblocked attacker is what is left to look for |
| Framework.PreferredAbove | tasks/task_se-pr.cpp:57-75 | Every admissible set lies below a preferred extension, found by growing it |
| Framework.PreferredConflict | tasks/task_ds-pr.cpp:80-117 | A preferred extension attacks every admissible set it does not contain |
| Framework.AddGrounded | tasks/task_general.cpp:22-29 | Adding the grounded extension keeps a set admissible, so the grounded unit clauses lose no preferred extension |
| Framework.GroundedComplete | taas/taas_basics.c:102-103 | The least fixpoint of the characteristic function is a complete extension |
| Framework.GroundedLeastComplete | tasks/task_general.cpp:126-133 | Every complete extension contains the grounded one, so the unit clauses of the complete encoding are safe |
| Framework.PreferredHasGrounded | tasks/task_general.cpp:22-29 | Every preferred extension contains the grounded one |
| Framework.SemiStablePreferred | tasks/task_se-sst.cpp:49-71 | An admissible set of maximal range is preferred and complete |
| Framework.StableIncomparable | tasks/task_ce-st.cpp:34-44 | No stable extension lies inside another: the one-sided blocking clause loses none |
| Framework.AllGrounded | tasks/task_se-pr.cpp:28-34 | If every argument is grounded IN or OUT, the grounded extension is the only preferred one and is semi-stable and stage |
| Sat.Solver.Add | sat/ipasir_solver.cpp:30-32 | Collects literals; 0 ends the clause, and the models are those of the old clauses that satisfy it |
| Sat.Solver.AddClause | sat/ipasir_solver.cpp:61-65 | Exactly the models that satisfy the clause remain; pending assumptions stay |
| Sat.Solver.Assume | sat/ipasir_solver.cpp:35-37 | The assumption joins those of the next call; the clauses are unchanged |
| Sat.Solver.Solve | ipasir.h:81-138 | Satisfiable: a total valuation of all clauses and assumptions; unsatisfiable: none exists; assumptions are dropped either way |
| Sat.Solver.Val | sat/ipasir_solver.cpp:86-88 | Only after a satisfiable answer: positive exactly for the literals true in the model |
| Sat.RestrictModel | ipasir.h:81-138 | Variables that do not occur do not matter, so a search over the occurring ones decides |
| Encodings.AdmExact | tasks/task_general.cpp:17-45 | The clauses hold exactly for admissible supersets of the grounded extension whose OUT set lies between their attackers and what they attack |
| Encodings.AddAdmTestClauses | tasks/task_general.cpp:17-45 | The remaining models are exactly those; the result says whether the grounded labelling decides every argument |
| Encodings.AdmWitness | tasks/task_general.cpp:17-45 | Every admissible superset of the grounded extension is read back from some model |
| Encodings.CfExact | tasks/task_general.cpp:50-71 | The clauses hold exactly for conflict-free sets with the set they attack as OUT |
| Encodings.AddCfTestClauses | tasks/task_general.cpp:50-71 | The remaining models are exactly the conflict-free sets with their attacked sets |
| Encodings.ComExact | tasks/task_general.cpp:118-150 | The clauses hold exactly for complete labellings, although grounded arguments get unit clauses only |
| Encodings.AddComTestClauses | tasks/task_general.cpp:118-150 | The remaining models are exactly the complete labellings |
| Encodings.StExact | tasks/task_general.cpp:92-115 | The clauses hold exactly for stable extensions; unattacked arguments rely on the grounded units, because they get no clause of their own |
| Encodings.AddStbTestClauses | tasks/task_general.cpp:92-115 | The remaining models are exactly the stable extensions |
| Encodings.AddAttackClauses | tasks/task_general.cpp:74-89 | One fresh variable per listed attack, equivalent to attacker and target being IN, and at least one of them true |
| Encodings.AttackPairsMember | tasks/task_general.cpp:78-87 | The numbered pairs are exactly the attacks of the framework |
| Encodings.PairSound | tasks/task_ds-pr.cpp:41-45 | A model of the two-set solver gives two admissible sets, the first attacking the second |
| Encodings.PairWitness | tasks/task_ds-pr.cpp:41-45 | Any two admissible supersets of the grounded extension, the first attacking the second, are read back from some model |
| Blocking.BlockingProgress | tasks/task_ds-pr.cpp:111-116 | Blocking everything below a set that contains the one just found leaves strictly fewer sets: the termination measure |
| Blocking.ReadModel | tasks/task_ds-pr.cpp:59-64 | Reads the IN set of the current model and the clause that holds for a set exactly when it has a member outside it |
| Blocking.RequireAll | tasks/task_ea-pr.cpp:201-205 | Unit clauses leave exactly the models whose IN set contains the given set |
| Blocking.AddOutside | tasks/task_ce-pr.cpp:67-73 | Leaves exactly the models whose IN set is not inside the given set |
| Blocking.AssumeAll | tasks/task_ds-pr.cpp:90-94 | The assumptions hold exactly for IN sets that contain the given set |
| PreferredTasks.SolveSepr | tasks/task_se-pr.cpp:15-81 | Ends in a preferred extension that contains the start set, from nothing or from any admissible superset of the grounded extension |
| PreferredTasks.MaximalIsPreferred | tasks/task_se-pr.cpp:57-75 | When no model is left, the set reached is preferred |
| PreferredTasks.SolveCepr | tasks/task_ce-pr.cpp:14-84 | The count is the number of preferred extensions, including the case that only the empty set is one |
| PreferredTasks.Climb | tasks/task_ce-pr.cpp:41-63 | One inner run: it ends in a preferred extension not counted before, or finds none left |
| PreferredTasks.ClimbEnds | tasks/task_ce-pr.cpp:43-66 | When the inner loop stops, the set reached is preferred |
| PreferredTasks.AboveIsOpen | tasks/task_ce-pr.cpp:58-63 | Nothing strictly above the current set has been blocked |
| PreferredTasks.AllCounted | tasks/task_ce-pr.cpp:64-79 | If no model is left, every non-empty preferred extension has been counted |
| CountingTasks.SolveCeco | tasks/task_ce-co.cpp:14-54 | The count is the number of complete extensions |
| CountingTasks.ExactClause | tasks/task_ce-co.cpp:36-47 | The blocking clause fails for exactly one IN set |
| CountingTasks.SolveCest | tasks/task_ce-st.cpp:14-51 | The count is the number of stable extensions |
| CountingTasks.AllStableFound | tasks/task_ce-st.cpp:29-46 | If no model is left, every stable extension has been counted |
| SkepticalTasks.SolveDspr | tasks/task_ds-pr.cpp:16-118 | True exactly if the query is in every preferred extension; with false, and only then, a preferred extension without it, also from the two early exits |
| SkepticalTasks.DsprLoop | tasks/task_ds-pr.cpp:80-117 | The two cooperating solvers: terminates with the right answer, or with an admissible set that no admissible set with the query extends |
| SkepticalTasks.TryExtend | tasks/task_ds-pr.cpp:89-116 | Either no admissible set contains both the attacker and the query, or the clause blocks everything below one that does |
| SkepticalTasks.NoAttackerLeft | tasks/task_ds-pr.cpp:83-88 | If every blocked set lies inside an admissible set with the query and no model is left, the query is in every preferred extension |
| SkepticalTasks.OmittedIsAttacker | tasks/task_ds-pr.cpp:83-88 | A preferred extension without the query gives an unblocked model of the two-set solver |
| SkepticalTasks.NoneAbove | tasks/task_ds-pr.cpp:96-110 | If the extension test fails, no admissible set contains the attacker and the query |
| IdealTasks.ComputeIdeal | tasks/task_se-id.cpp:15-135 | Returns the ideal extension: the largest admissible set inside every preferred one, also by the shortcuts |
| IdealTasks.ComputeCore | tasks/task_se-id.cpp:31-71 | Ends with exactly the arguments no admissible set attacks; the flag says whether the first call already failed |
| IdealTasks.AddAttackersOf | tasks/task_se-id.cpp:45-53 | The pending clause holds exactly for sets that attack a member of the core; empty exactly if nothing attacks it |
| IdealTasks.RemoveAttacked | tasks/task_ds-id.cpp:60-79 | Removes what the found set attacks, unless the query is among it |
| IdealTasks.CoreReached | tasks/task_se-id.cpp:56-58 | If no admissible superset of the grounded extension attacks the rest, no admissible set does |
| IdealTasks.OnlyGrounded | tasks/task_se-id.cpp:73-81 | If no admissible set attacks beyond grounded OUT, the grounded extension is ideal and the only preferred extension |
| IdealTasks.IdealOfCore | tasks/task_se-id.cpp:82-134 | The largest self-defending subset of the unattacked part of the super-core is the ideal extension |
| IdealTasks.BelowIsCore | tasks/task_se-id.cpp:82-134 | What all preferred extensions contain is in the super-core |
| IdealTasks.CoreIsBelow | tasks/task_se-id.cpp:82-134 | An admissible set inside the super-core is in every preferred extension |
| IdealTasks.Unattacked | tasks/task_se-id.cpp:92-102 | Collects exactly the members of the core that no member attacks, unless the query is one that is attacked |
| IdealTasks.IsDefended | tasks/task_se-id.cpp:110-125 | True exactly if the set attacks every attacker of the argument |
| IdealTasks.Sweep | tasks/task_se-id.cpp:108-131 | One sweep in place with the index stepped back after a removal: drops nothing that a self-defending subset needs, and without a change everything left is defended |
| IdealTasks.KeepDefended | tasks/task_se-id.cpp:106-132 | Sweeps in place until it holds the largest self-defending subset of what it started with |
| IdealTasks.SolveDsid | tasks/task_ds-id.cpp:16-165 | For an argument grounded leaves undecided: membership in the ideal extension; for a decided one: whether some admissible set attacks beyond grounded OUT |
| IdealTasks.NotIdeal | tasks/task_ds-id.cpp:103-159 | An early exit after the core is right: the argument is in no ideal extension and is undecided |
| IdealTasks.AttackableOut | tasks/task_ds-id.cpp:66-75 | An argument some admissible set attacks is not ideal |
| EaPrTasks.SolveEapr | tasks/task_ea-pr.cpp:16-244 | The accepted set is exactly the intersection of all preferred extensions |
| EaPrTasks.StrongCore | tasks/task_ea-pr.cpp:150-180 | Ends with exactly the members of the core outside the ideal extension that some admissible set contains |
| EaPrTasks.TestArgument | tasks/task_ea-pr.cpp:185-238 | With everything accepted so far as unit clauses in both solvers, still decides skeptical acceptance of the argument |
| EaPrTasks.TestAll | tasks/task_ea-pr.cpp:184-239 | Feeding accepted arguments back into later tests changes no verdict |
| EaPrTasks.SkepticalSupported | tasks/task_ea-pr.cpp:150-184 | A skeptically accepted argument is in the core and in an admissible set: skipping the others loses none |
| EaPrTasks.GroundedBelowIdeal | tasks/task_ea-pr.cpp:98-149 | The ideal extension contains the grounded one and only skeptically accepted arguments |
| SemiStableTasks.SolveSesst | tasks/task_se-sst.cpp:15-78 | Ends in an admissible set whose range no admissible set exceeds |
| SemiStableTasks.SolveSestg | tasks/task_se-stg.cpp:15-78 | Ends in a conflict-free set whose range no conflict-free set exceeds |
| SemiStableTasks.GrowRange | tasks/task_se-sst.cpp:35-71 | Climbs to a model of the given clauses whose decided set no other model exceeds |
| SemiStableTasks.MaximalIsSemiStable | tasks/task_se-sst.cpp:49-71 | A decided set no model exceeds gives maximal range, although a model may leave attacked arguments undecided |
| SemiStableTasks.SolveDssst | tasks/task_ds-sst.cpp:14-144 | True exactly if every semi-stable extension contains the query; with false, and only then, one that omits it |
| SemiStableTasks.SolveDcsst | tasks/task_dc-sst.cpp:14-146 | True exactly if some semi-stable extension contains the query; with true, and only then, one that does |
| SemiStableTasks.MaximiseRange | tasks/task_ds-sst.cpp:54-136 | The inner loop terminates although the recorded set may skip the query: the set reached is semi-stable with the query as wanted, or no semi-stable extension has its range inside the recorded set |
| SemiStableTasks.Conclude | tasks/task_ds-sst.cpp:82-110 | The second call without the assumption decides whether the set reached is semi-stable |
| SemiStableTasks.ClimbOnce | tasks/task_ds-sst.cpp:111-135 | Takes the model over, records all of it but the query, and blocks what lies inside it |
| SemiStableTasks.InnerExceeded | tasks/task_ds-sst.cpp:100-109 | The clause given to the outer solver removes no semi-stable extension |
| SemiStableTasks.FindSemiStable | tasks/task_dc-sst.cpp:46-142 | The outer loop with either polarity: finds a semi-stable extension as wanted, or there is none |
| GroundedTasks.ComputeGrounded | taas/taas_basics.c:17-56 | IN is the least fixpoint of the characteristic function, OUT what it attacks, and each counter the number of attackers, with multiplicity, not OUT |
| GroundedTasks.PutChildrenOut | taas/taas_basics.c:34-53 | After one argument is taken from the stack all its children are OUT and counters, IN and OUT agree again |
| GroundedTasks.LowerChildren | taas/taas_basics.c:41-52 | Lowers the counter once per attack; an argument enters IN and the stack exactly when its counter reaches 0 |
| GroundedTasks.FixpointReached | taas/taas_basics.c:30-56 | With the stack empty and the counters right, IN is the least fixpoint |
| Labels.LabeledCorrectly | taas/taas_basics.c:188-220 | IN: all neighbours OUT; OUT: an attacker IN; undecided: no neighbour IN and an attacker undecided |
| Labels.CorrectIsComplete | taas/taas_basics.c:188-220 | All labels are correct exactly if the IN set is a complete extension and OUT is what it attacks |
| Labels.CompleteCorrect | taas/taas_basics.c:188-220 | In a complete labelling, so in the grounded one, every argument is labelled correctly |
| Loading.Load | taas/taas_inout.c:247-281 | Every attack is entered once: parents and children have each pair as often as the input, each counter is the number of attacks on its argument, and the initial bits are exactly the unattacked arguments |
| Loading.AttacksOnOne | taas/taas_inout.c:264-276 | The number of attacks on an argument bounds the multiplicity from each attacker and equals it when there is one attacker only |
| Loading.Prepare | taas/taas_basics.c:95-100 | From the attack list to a framework with exactly these attacks, as often as listed, and its grounded labelling |
| RaSets.RaSet.Add | util/raset.c:58-66 | Appends a new element to the listing; reports whether it was new |
| RaSets.RaSet.Remove | util/raset.c:70-78 | Removes the element, moving the last one into its place; reports whether it was there |
| RaSets.RaSet.Reset | util/raset.c:46-49 | Empties the set; array and inverse array stay consistent |
| RaSets.RaSet.Contains | util/raset.c:52-54 | Membership in the abstract set |
| RaSets.RaSet.Listing | util/raset.c:17-29 | The listing has no repetition and lists exactly the set |
| RaSets.RaSet.HasRoom | util/raset.c:58-66 | A set that misses an element in range has a free place in its array |
| RaSets.Swapped | util/raset.c:74-76 | Moving the last element into the gap keeps the array and its inverse exact |
| BitSets.BitSet.NextSetBit | util/bitset.c:74-91 | The least member at or above the index, else -1, whatever the bits past the length are |
| BitSets.BitSet.Set | util/bitset.c:48-50 | Adds exactly this member |
| BitSets.BitSet.Unset | util/bitset.c:58-60 | Removes exactly this member |
| BitSets.BitSet.SetAll | util/bitset.c:53-55 | Every index below the length becomes a member |
| BitSets.MaskedWord | util/bitset.c:47-60 | Or-ing a mask in or masking it out changes one bit of a 32-bit word and no other |
| Queries.Answer | taas/taas_basics.c:101-170 | Track by track, for every argument: the answer is credulous or skeptical membership in the extensions of the track, by the grounded shortcuts or a solver loop, with and without a witness for the ideal tracks |
| Queries.Query | taas/taas_basics.c:79-175 | From the list of attacks to that answer about the framework with exactly these attacks |
| Queries.GroundedAccepted | taas/taas_basics.c:109-149 | What is grounded IN is accepted on every track that takes the shortcut |
| Queries.AttackedRejected | taas/taas_basics.c:133-166 | What is grounded OUT is accepted on no track that takes the shortcut |
| Queries.OneIdeal | taas-fudge.cpp:110-123 | There is exactly one ideal extension, and it contains the grounded one |
| Queries.SolveDcco | tasks/task_dc-co.cpp:15-51 | True exactly if some complete extension contains the query, with one that does |
| Queries.CredulousAlike | taas-fudge.cpp:92-96 | Complete and preferred extensions accept the same arguments credulously, so one procedure serves both tracks |
| Hierarchy.TrackLaws | taas/taas_basics.c:109-155 | Ideal acceptance implies skeptical preferred, that skeptical semi-stable, that credulous semi-stable, and that credulous preferred acceptance |
| Hierarchy.FloatingStrict | tasks/task_ea-pr.cpp:150-184 | A framework where an argument of every preferred extension is not ideal, so the tests after the ideal extension are needed, and where semi-stable extensions disagree |
| Hierarchy.RivalsStrict | tasks/task_ds-sst.cpp:44-140 | A framework where an argument is in every semi-stable but not every preferred extension, and one in a preferred but no semi-stable extension |
| Hierarchy.CycleStrict | tasks/task_se-stg.cpp:35-71 | On an odd cycle a stage extension is not admissible and only the empty set is semi-stable |
| Hierarchy.DoubtfulStrict | tasks/task_se-id.cpp:82-134 | The ideal extension can exceed the grounded one, so the shortcut that returns grounded needs its condition |
| Hierarchy.StableIsAll | tasks/task_general.cpp:92-115 | A stable extension is semi-stable, preferred, complete and stage |
| Hierarchy.StableExists | tasks/task_se-stg.cpp:49-71 | If there is a stable extension, the semi-stable and the stage extensions are exactly the stable ones |
| Queries.DecidedQueryExample | tasks/task_ds-id.cpp:43-164 | A framework where grounded puts the query OUT and some admissible set attacks beyond: by the contract of SolveDsid it answers YES, though no ideal extension has the query |
| Aigs.Aig.CreateVar | lib/cadical-2.1.0/contrib/craigtracer.cpp:116-128 | The one node of the variable, added only if there was none; its edge has the value of the variable |
| Aigs.Aig.CreateLiteral | lib/cadical-2.1.0/contrib/craigtracer.cpp:130-133 | The edge has the value of the literal; old edges keep theirs |
| Aigs.Aig.CreateAnd | lib/cadical-2.1.0/contrib/craigtracer.cpp:135-161 | Constant, equal or complementary operands yield the constant or the operand and add no node; otherwise the result is the one and-node with these operands, added only if there was none; always the conjunction |
| Aigs.Aig.CreateAndAll | lib/cadical-2.1.0/contrib/craigtracer.cpp:163-184 | The pairwise reduction gives the conjunction of all edges |
| Aigs.Aig.CreateOr | lib/cadical-2.1.0/contrib/craigtracer.cpp:186-188 | The edge has the value of the disjunction |
| Aigs.Aig.CreateOrAll | lib/cadical-2.1.0/contrib/craigtracer.cpp:190-194 | The negated conjunction of the negated edges is their disjunction |
| Aigs.Aig.NoTwins | lib/cadical-2.1.0/contrib/craigtracer.cpp:135-161 | Hash consing: no two nodes are alike, not even with their edges exchanged |
| Aigs.Aig.NoTrivialAnd | lib/cadical-2.1.0/contrib/craigtracer.cpp:135-145 | No and-node has a constant, equal or complementary operands: its edges lead to two different nodes |
| Aigs.Aig.HalveAnds | lib/cadical-2.1.0/contrib/craigtracer.cpp:170-181 | One level joins neighbours, halving the list rounded up, and keeps the conjunction |
| Aigs.Grows | lib/cadical-2.1.0/contrib/craigtracer.cpp:116-161 | Adding nodes changes neither value nor dependencies of an edge |
| Aigs.EdgeDepends | lib/cadical-2.1.0/contrib/craigtracer.cpp:116-194 | Valuations that agree on the used variables give the same value |
| Tseitin.CreateCnf | lib/cadical-2.1.0/contrib/craigtracer.cpp:196-275 | Constants exactly for the constant edges, else NORMAL: one fresh variable and three clauses for each and-node below the root and a final unit; the definitions have exactly one extension to the fresh variables, and under it the unit holds exactly where the root does |
| Tseitin.DefineNodes | lib/cadical-2.1.0/contrib/craigtracer.cpp:227-269 | The explicit stack terminates and gives exactly the and-nodes below the root a variable, each once, with clauses that hold exactly when every variable has the value of its node |
| Tseitin.TraverseStep | lib/cadical-2.1.0/contrib/craigtracer.cpp:251-268 | Defining one more node of the cone keeps the part defined so far closed under children |
| Tseitin.TraverseDone | lib/cadical-2.1.0/contrib/craigtracer.cpp:227-269 | When the root has its variable, exactly the cone has been defined and no node twice |
| Tseitin.ConeLeast | lib/cadical-2.1.0/contrib/craigtracer.cpp:238-250 | The and-nodes below a node are the least set that contains it and with a node its children |
| Tseitin.DefinitionsExtend | lib/cadical-2.1.0/contrib/craigtracer.cpp:255-268 | Clauses that define each variable by its node have exactly one extension |
| Tseitin.DefineNode | lib/cadical-2.1.0/contrib/craigtracer.cpp:251-268 | Three more clauses define one more node |
| Tseitin.MeaningIgnores | lib/cadical-2.1.0/contrib/craigtracer.cpp:196-275 | The function of an edge does not look at variables from nextFreeIndex on |
| Tseitin.CnfEquisatisfiable | lib/cadical-2.1.0/contrib/craigtracer.cpp:196-275 | The function holds exactly where the clauses can be satisfied by choosing the fresh variables |
| Interpolation.PartialSound | lib/cadical-2.1.0/contrib/craigtracer.cpp:615-741 | For every resolution proof and the symmetric, asymmetric and dual asymmetric system: A entails the A-part of the clause or the partial interpolant, B the B-part or its negation |
| Interpolation.DualIsNegation | lib/cadical-2.1.0/contrib/craigtracer.cpp:709-727 | The dual symmetric partial interpolant is the negation of the symmetric one at every clause |
| Interpolation.Interpolates | lib/cadical-2.1.0/contrib/craigtracer.cpp:542-548 | At the empty clause A implies the interpolant and the interpolant refutes B, in all four systems |
| Interpolation.ProofGrows | lib/cadical-2.1.0/contrib/craigtracer.cpp:392-418 | Clauses added later invalidate no proof |
| LeafForms.AsymmetricForm | lib/cadical-2.1.0/contrib/craigtracer.cpp:627-642 | The asymmetric partial interpolant holds exactly if, pruning a premise at every A-local pivot, only B-leaves and A-leaves with a true global literal can be left |
| LeafForms.AsymmetricOfLeaves | lib/cadical-2.1.0/contrib/craigtracer.cpp:698-708 | Without A-local pivots it holds exactly if every A-leaf has a true global literal |
| LeafForms.DualAsymmetricForm | lib/cadical-2.1.0/contrib/craigtracer.cpp:653-668 | The dual asymmetric partial interpolant holds exactly if, pruning at A-local and global pivots, only B-leaves without a true global literal can be left |
| LeafForms.DualAsymmetricOfLeaves | lib/cadical-2.1.0/contrib/craigtracer.cpp:728-740 | Without B-local pivots it fails exactly if every B-leaf has a true global literal |
| LeafForms.WalkFalsifies | lib/cadical-2.1.0/contrib/craigtracer.cpp:688-696 | Keeping at global pivots the premise whose pivot literal is false leads to leaves whose true global literals are all in the conclusion |
| LeafForms.SymmetricForm | lib/cadical-2.1.0/contrib/craigtracer.cpp:680-697 | The symmetric partial interpolant holds exactly if, along the valuation and pruning at A-local pivots, only B-leaves can be left |
| LeafForms.SymmetricOfLeaf | lib/cadical-2.1.0/contrib/craigtracer.cpp:688-696 | Without local pivots the valuation leads to one leaf, and the symmetric partial interpolant holds exactly if that leaf is of B |
| LeafForms.SelectsAll | lib/cadical-2.1.0/contrib/craigtracer.cpp:673-741 | Where nothing may be pruned all leaves count |
| LeafForms.SelectsSome | lib/cadical-2.1.0/contrib/craigtracer.cpp:673-741 | Where every pivot may be pruned one leaf is enough |
| LeafForms.SelectsDual | lib/cadical-2.1.0/contrib/craigtracer.cpp:673-741 | Pruning for a set of leaves fails exactly if pruning at the other pivots for its complement succeeds |
| Craig.CreateForClause | lib/cadical-2.1.0/contrib/craigtracer.cpp:615-671 | The edge built for an original clause stands for its partial interpolant in the given system |
| Craig.ExtendWithResolution | lib/cadical-2.1.0/contrib/craigtracer.cpp:673-741 | The edge built for a resolvent stands for the combined partial interpolant, for each pivot label |
| Craig.Mux | lib/cadical-2.1.0/contrib/craigtracer.cpp:688-726 | The two disjunctions, or conjunctions, with the pivot literal of either sign |
| Craig.Column.Extend | lib/cadical-2.1.0/contrib/craigtracer.cpp:673-741 | Resolving leaves the edges of all stored clauses valid |
| Craig.Marker.MarkLiteral | lib/cadical-2.1.0/contrib/craigtracer.cpp:975-985 | Marks the literal; reports whether its negation was marked |
| Craig.Marker.UnmarkAll | lib/cadical-2.1.0/contrib/craigtracer.cpp:987-992 | No literal stays marked |
| Craig.Column.RefutationInterpolates | lib/cadical-2.1.0/contrib/craigtracer.cpp:542-548 | An edge that stands for a refutation is an interpolant over global variables |
| Tracer.CraigTracer.AddOriginalClause | lib/cadical-2.1.0/contrib/craigtracer.cpp:392-418 | Stores the clause, its one-leaf proof and a valid partial interpolant in every enabled construction |
| Tracer.CraigTracer.AddDerivedClause | lib/cadical-2.1.0/contrib/craigtracer.cpp:420-457 | Following the chain backwards, stores the derived clause with the partial interpolants of exactly the resolution proof of the chain, in every enabled construction |
| Tracer.Columns.ResolveWith | lib/cadical-2.1.0/contrib/craigtracer.cpp:439-449 | Scanning one antecedent, exactly the pivot is found by its marked negation, and the marks become the next resolvent and all pivots |
| Tracer.NextMark | lib/cadical-2.1.0/contrib/craigtracer.cpp:440-449 | In mid-scan the negation of a literal is marked exactly if it is the pivot, although marks of earlier pivots are never cleared |
| Tracer.StepProof | lib/cadical-2.1.0/contrib/craigtracer.cpp:438-449 | A chain step is a resolution step between labelled clauses |
| Tracer.ChainLeaves | lib/cadical-2.1.0/contrib/craigtracer.cpp:436-449 | A derived clause rests on the leaves of exactly the clauses of its chain |
| Tracer.CraigTracer.ClauseInvariant | lib/cadical-2.1.0/contrib/craigtracer.cpp:420-457 | The labelled invariant for every stored clause and every enabled construction, over global variables only |
| Tracer.CraigTracer.ConcludeUnsat | lib/cadical-2.1.0/contrib/craigtracer.cpp:533-548 | At a stored empty clause every enabled construction yields an interpolant of A and B, the one its system assigns to the stored proof |
| CraigCnf.Invert | lib/cadical-2.1.0/contrib/craigtracer.cpp:823-831 | Swapping the constants and negating the final unit gives clauses for the complement |
| CraigCnf.PartFor | lib/cadical-2.1.0/contrib/craigtracer.cpp:801-831 | The clauses of one construction encode its interpolant, only the dual symmetric one being inverted, with one fresh variable for each and-node |
| CraigCnf.Combine | lib/cadical-2.1.0/contrib/craigtracer.cpp:869-941 | UNION encodes the conjunction and INTERSECTION the disjunction of the parts, with constants decided first and a fresh trigger otherwise |
| CraigCnf.CombinationMeans | lib/cadical-2.1.0/contrib/craigtracer.cpp:869-941 | What conjunction and disjunction of the functions are, pointwise |
| CraigCnf.GatherNormal | lib/cadical-2.1.0/contrib/craigtracer.cpp:888-900 | Taking one part over: its definitions, its link to the trigger and its literal in the trigger clause |
| CraigCnf.ExtendTwice | lib/cadical-2.1.0/contrib/craigtracer.cpp:801-816 | Definitions of two disjoint ranges of fresh variables together still extend every valuation in exactly one way |
| CraigCnf.TriggerExtends | lib/cadical-2.1.0/contrib/craigtracer.cpp:885-904 | With its two kinds of clauses the trigger is a function of the variables below it |
| CraigCnf.Extreme | lib/cadical-2.1.0/contrib/craigtracer.cpp:942-963 | The first part with the fewest, or the most, clauses |
| CraigCnf.Choose | lib/cadical-2.1.0/contrib/craigtracer.cpp:858-963 | NONE, with the next variable unchanged, exactly if there are no parts; else the conjunction, the disjunction, the first smallest, the first largest or the only part |
| CraigCnf.CreateCraigInterpolant | lib/cadical-2.1.0/contrib/craigtracer.cpp:743-963 | SINGLE: NONE exactly if no construction of that kind is enabled, else its interpolant; UNION and INTERSECTION: the conjunction and disjunction over all enabled ones; SMALLEST and LARGEST: the first with the fewest or most clauses; NONE leaves the next variable alone |
| CraigCnf.CombinationInterpolates | lib/cadical-2.1.0/contrib/craigtracer.cpp:869-941 | Conjunctions and disjunctions of interpolants are interpolants |
| CraigCnf.RequestSeparates | lib/cadical-2.1.0/contrib/craigtracer.cpp:743-963 | Whatever is returned for a conclusion of the tracer is implied by A up to the fresh variables and contradicts B |
| CraigCnf.CnfInterpolates | lib/cadical-2.1.0/contrib/craigtracer.cpp:743-963 | A can be extended to satisfy the clauses, and nothing satisfies them together with B |
| CraigCnf.InterpolantClauses | lib/cadical-2.1.0/contrib/craigtracer.cpp:743-963 | From the conclusion of the tracer to the clauses of exactly the requested interpolant, which separate A from B |

## Left out

- File formats, command line and printing: an attack list is a sequence of pairs, and a task returns the set or the answer (and the witness) that the program prints.
- The SAT search: `Solve` is the IPASIR contract, with a body that shows it can be met; `terminate` callbacks and answer 0 are not part of this model.
- Integer width: arguments, variables and counters are unbounded; only the 32-bit words of bit sets are modelled as such.
- tasks/task_dc-stg.cpp and tasks/task_ds-stg.cpp: they read the inner model between clause additions, which the IPASIR contract does not allow.
- SE-ST, DC-ST, DS-ST: one or two solver calls on the stable encoding, immediate from `Encodings.AddStbTestClauses`.
- `taas__labeled_correctly_under_assumption`, random elements and random bits, resizing of bit sets, the self-attack bits.
- Sets local to a task (the core, the accepted, the recorded and the temporary sets) are sets of numbers, so the order in which their random-access arrays are walked is not captured there; the set that the ideal computation shrinks in place is a `RaSet`, and RaSet itself is proved apart.
- The grounded labelling is handed to the tasks as two sets; the worklist that computes it works on bit sets and counters in place.
- IdealTasks.SolveDsid: the loops it repeats from the ideal computation are shared with it through an optional query, and so are those of EA-PR.
- SemiStableTasks.FindSemiStable: one method with a polarity serves DS-SST and DC-SST, whose loops differ in the sign of one literal.
- SemiStableTasks.GrowRange: one method serves SE-SST and SE-STG, whose loops differ in the encoding only.
- Queries.Answer: the grounded and stage tracks and the witnesses printed after a shortcut are not part of it.
- Craig tracer: conclusions under assumptions or a constraint, deleting and restoring clauses, incremental relabelling; variables are labelled before clauses arrive, and clause labels come with the clause.
- Tracer.CraigTracer.AddDerivedClause: the clause type kept next to the interpolants is not modelled; no interpolant depends on it.
- Tracer.Columns: the disabled constructions are absent instead of holding TRUE.
- CraigCnf.Combine: one method with a polarity serves UNION and INTERSECTION, whose clauses differ in the signs of trigger and literals.
- Aigs.Aig.CreateAndAll: promises the function of the result and the length of each level, not the shape of the reduction tree.
- Hash functions of the graph: the two hash maps are maps.
