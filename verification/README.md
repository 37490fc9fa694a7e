# Verified model of the agent's evaluation and governance core

A Dafny model of the code that decides which sub-agents an autonomous agent keeps,
whether a self-made change to its own graph is safe to deploy, and whether its
capability is going up or down. Each imperative algorithm is a method with its
loops and in-place writes, proved against a specification function; what the
repository promises is proved about those functions as lemmas.

Verify with `dafny verify dfyconfig.toml`.

| files | what they model |
|---|---|
| `SignedRank` | the signed-rank comparison of two generations |
| `AgentRegistry`, `RetirementRules` | the in-memory registry object and its cap enforcement |
| `Cosine`, `Redundancy`, `Twins`, `AgentPersister`, `LoadProtocol` | similarity, the greedy redundancy scan and when it leaves a twin, the table object, the load protocol |
| `PythonAst`, `Execution`, `GraphInvariants`, `RouterFiles`, `RouterLimits`, `RouterSoundness` | Python syntax trees, an execution relation for them, the static graph verifier and its soundness |
| `TerminalState`, `Curve`, `Regression`, `Scoring`, `VerifyPasses` | eval rows to terminal rows, to nightly means, to a regression verdict; goal scores and convergence |
| `RunIds`, `PathLookup`, `CheckRunner`, `Retrieval` | run-id codec, dotted lookup, check aggregation, retrieval metrics |
| `Lists`, `Sums`, `Order`, `Options` | list comprehensions, sums and `round`, stable sorting, `Option` |

Conventions. Floats are exact reals and `round(x, 4)` is rounding half to even on
reals. Text is ASCII where the code calls `isdigit`. What comes from outside is a
parameter, and every theorem holds for all of its values: the square root, the
ISO date parser, `int()` on a path segment, the order in which a query returns
rows, the wall clock, the observations a check makes, the retriever, the registered
spec ids and expected checks. One call of `load_active_agents` sees one time `now`.
The rows of the sub-agent table are a map from name, since the name column is
unique (`src/db/models.py:566`), and vectors have the column's fixed dimension (613).
A `skipped` flag on a graph check stands for the word "skipped" in its detail text.

## Where the code does less than a reader may expect

- An agent that has already lost keeps retiring others in the redundancy scan, so a
  retired agent need not have a similar survivor (`Twins.RetiredWithoutSurvivingTwin`).
  For given names and scores it has one, whatever the capability vectors, exactly when no
  fetched agent but the last two scores less than a later one, or the threshold lies
  outside (-1, 1) (`Twins.TwinsExactly`). Fetching by descending score would do. What holds
  in any order is a chain of similar, ever better agents that ends in a survivor
  (`Redundancy.ReachesSurvivor`).
- A row that cannot be converted to a spec is skipped by the load but stays active in the
  table (`LoadProtocol.UnknownTierDisagrees`). Table and registry agree exactly when every
  active row that does not convert is retired as redundant (`LoadProtocol.LoadAgrees`).
- The router check passes, skipped, when no node name is found in the graph file. It looks
  only at constant strings returned by plain functions, and only at the last of several
  routers of one name. A router that returns what a helper computes, that runs off its end,
  or that is `async` passes unchecked (`RouterLimits`). For given routers a pass can be
  trusted on every file exactly when a node is registered, no name is repeated, none is
  `async`, and their runs end in returns of constant strings only; or when there is no router
  (`RouterSoundness.TrustExactly`). Here a constant yields its string, any other returned
  expression may yield anything, and a missing value or the end of the body yields nothing.
  The comment at `src/evolution/invariants.py:209` says nested functions are not walked; they
  are, as the docstring above it says.
- The curve's row order matters when rows of one check have equal timestamps, against the
  docstring at `src/eval/curve.py:213-215`. It is irrelevant exactly when, for each day and
  check of the latest attempt, the newest rows tie only with equal scores
  (`Curve.OrderExactly`).
- Raising a candidate's score can lower the effect size when a zero difference leaves zero,
  and when a negative one arrives at zero. `SignedRank.RaisingOneLowers` says exactly when,
  for any one score. With the set of zero differences fixed the effect is monotone.
- A judged check passes on reaching the configured minimum. For given check types, passing
  and scoring 1 agree whatever the parameters and observations exactly when that minimum is 1,
  or no check is judged, or some check is of an unknown type and so always fails
  (`CheckRunner.AgreementExactly`).
- A run id strips to a spec id exactly when it is composed of it and the spec id is not empty
  and does not itself end in a generation or seed tag (`RunIds.StripExactly`); otherwise the
  spec id is cut short (`RunIds.TagEndedSpecIsCut`).
- A curve of scores between 0 and 1 that ends at its peak is safe from a regression verdict
  exactly when the delta threshold is positive or the floor is at or below 0
  (`Regression.PeakExactly`).

## Model

| member | source | states |
|---|---|---|
| SignedRank.AverageRanks | scripts/generation_compare.py:143-157 | the tie-averaging loop, with its index permutation, tie-group scan and in-place writes, gives every difference the number of strictly smaller magnitudes plus half of (tied ones + 1) |
| SignedRank.TieGroupRank | scripts/generation_compare.py:148-156 | the averaged rank of a tie group is the counting rank of each of its members |
| SignedRank.CountingRankIsCredit | scripts/generation_compare.py:145-157 | a counting rank is one half plus a sum of pairwise credits over all differences |
| SignedRank.SumRanks | scripts/generation_compare.py:158-159 | summing the ranks of one sign gives the rank sum of that side |
| SignedRank.AllRanksSum | scripts/generation_compare.py:145-157 | all ranks add up to m(m+1)/2 whatever the ties |
| SignedRank.SignsSplit | scripts/generation_compare.py:158-160 | without zeros, positive and negative rank sums add up to m(m+1)/2 |
| SignedRank.WalshIdentity | scripts/generation_compare.py:142-158 | the positive rank sum is the Walsh count: pairs i<=j with a positive sum count 1, with sum zero 1/2 |
| SignedRank.WalshMonotone | scripts/generation_compare.py:142-158 | raising differences never lowers the Walsh count |
| SignedRank.EffectFormula | scripts/generation_compare.py:158-161 | the effect is 2W/(m(m+1)/2) - 1 for the Walsh count W of the m nonzero differences, 0 when there are none |
| SignedRank.EffectMonotone | scripts/generation_compare.py:142-161 | raising differences with the nonzero set fixed never lowers the effect |
| SignedRank.EffectRange | scripts/generation_compare.py:96-98 | the effect lies in [-1,1]; it is 1 exactly when some difference is nonzero and none is negative |
| SignedRank.EffectPermutation | scripts/generation_compare.py:142-161 | the effect does not depend on the order of the goals |
| SignedRank.EffectScaled | scripts/generation_compare.py:142-161 | a positive factor on all differences keeps the effect, a negative one negates it |
| SignedRank.MedianNegated | scripts/generation_compare.py:131-133 | negating all differences negates the median |
| SignedRank.DeltasNegated | scripts/generation_compare.py:130-161 | negating all differences negates mean, median and effect |
| SignedRank.PairedSignificance | scripts/generation_compare.py:106-161 | on lists cut to the shorter length each figure is the rounded statistic it is named after: means times n are sums, the mean delta times n is the sum of candidate minus baseline, the median delta halves the differences and is midway between the middle ones, the effect follows the Walsh count |
| SignedRank.MedianExactly | scripts/generation_compare.py:131-133 | there is one value midway between the two middle places of the sorted differences, and it is the one computed |
| Sums.Round4Nearest | scripts/generation_compare.py:134-137 | rounding gives the nearest multiple of 1/10000, the even one of two equally near |
| SignedRank.StatsAntisymmetric | scripts/generation_compare.py:125-161 | swapping the generations swaps the means and negates mean delta, median delta and effect, also after rounding |
| SignedRank.MedianPermutation | scripts/generation_compare.py:131-133 | the median does not depend on the order of the differences |
| SignedRank.StatsPermutation | scripts/generation_compare.py:125-161 | every reported statistic is the same for any order of the goal pairs |
| SignedRank.MedianMonotone | scripts/generation_compare.py:131-133 | raising differences never lowers the median |
| SignedRank.DeltasMonotone | scripts/generation_compare.py:127-135 | raising candidate scores lowers neither reported mean delta nor reported median delta, whatever becomes zero |
| SignedRank.StatsMonotone | scripts/generation_compare.py:125-161 | with the zero set fixed it does not lower the reported effect either |
| SignedRank.ZeroRaised | scripts/generation_compare.py:142-161 | raising a zero difference to any positive x lowers the effect exactly when m times the Walsh credit of x with the nonzero differences and itself is below 2W |
| SignedRank.RaisedToZero | scripts/generation_compare.py:142-161 | raising a negative difference x to zero lowers the effect exactly when m times the Walsh credit of x is above 2W |
| SignedRank.RaisingOneLowers | scripts/generation_compare.py:142-161 | raising any one difference, at any place and by any amount, lowers the effect in these two cases and no other |
| SignedRank.ReachingZeroLowersEffect | scripts/generation_compare.py:142-161 | a concrete raise to zero that lowers the effect |
| SignedRank.ZeroCrossingLowersEffect | scripts/generation_compare.py:142-161 | a concrete raise of one candidate score that lowers the effect |
| Order.ArgSortStable | scripts/generation_compare.py:143 | sorting indices by a key is a stable permutation into ascending order |
| Order.StringLeExactly | src/eval/curve.py:198-199 | strings compare by the first place where they differ, a prefix first |
| AgentRegistry.UnhealthyExactly | src/agents/registry.py:201-206 | the retirement test is: enough runs and a success rate under the floor, or a known last use more than the window of days before now |
| AgentRegistry.ScoreFields | src/agents/registry.py:261-266 | the success rate decides, then the number of runs, then the quality |
| AgentRegistry.FirstPassExactly | src/agents/registry.py:246-255 | the first pass names exactly the active agents that meet a trigger |
| AgentRegistry.SubAgentRegistry.constructor | src/agents/registry.py:67-68 | a new registry is empty |
| AgentRegistry.SubAgentRegistry.Register | src/agents/registry.py:72-82 | an existing name is overwritten in its place, a new one goes last |
| AgentRegistry.SubAgentRegistry.ListActive | src/agents/registry.py:110-112 | exactly the active specs, in insertion order |
| AgentRegistry.SubAgentRegistry.SetInactive | src/agents/registry.py:216 | switches off this agent and changes nothing else |
| AgentRegistry.SubAgentRegistry.CheckDeprecation | src/agents/registry.py:197-217 | true exactly when the named agent is registered and has enough runs with too low a rate, or a known last use before the window; then only it is switched off |
| AgentRegistry.SubAgentRegistry.RetireUnhealthy | src/agents/registry.py:246-255 | the first pass retires exactly the active agents whose fields meet a trigger, in order |
| AgentRegistry.SubAgentRegistry.SwitchOff | src/agents/registry.py:267-269 | switches off the listed specs and returns their names |
| AgentRegistry.SubAgentRegistry.CutToCap | src/agents/registry.py:257-275 | the second pass retires the lowest score tuples down to the cap, ties in insertion order |
| AgentRegistry.SubAgentRegistry.EnforceCaps | src/agents/registry.py:219-275 | the two passes on the mutable registry do exactly what the specification says to its whole contents, and take every active agent whose fields meet a trigger |
| AgentRegistry.UnhealthyPass | src/agents/registry.py:246-257 | after the first pass the active agents are the healthy ones |
| RetirementRules.SurvivorsAre | src/agents/registry.py:246-275 | survivors are the healthy active agents that are not cut |
| RetirementRules.SurvivorCount | src/agents/registry.py:257-275 | exactly min(cap, healthy) agents stay active, none for a negative cap |
| RetirementRules.CutLowest | src/agents/registry.py:261-269 | nobody cut outranks a survivor; of equal scores the earlier registered go first |
| RetirementRules.RetiredExactly | src/agents/registry.py:243-275 | the returned names are those of the agents that went inactive, once each |
| RetirementRules.SurvivorsHealthy | src/agents/registry.py:246-275 | every survivor was active before and is healthy; nobody is reactivated |
| RetirementRules.SparedWithinCap | src/agents/registry.py:246-259 | an agent that meets no trigger is spared while the active agents without one fit the cap |
| RetirementRules.SecondPassRetiresNobody | src/agents/registry.py:219-275 | the same policy at the same time retires nobody the second time |
| Cosine.CosineOf | src/agents/persister.py:657-671 | the accumulator loop computes the cosine: times both norms it is the sum of products, and 0 for a zero vector |
| Cosine.DotIsSum | src/agents/persister.py:665-668 | an accumulator is the sum of the products place by place |
| Cosine.CauchySchwarz | src/agents/persister.py:662-668 | the three accumulators satisfy dot^2 <= nu nv |
| Cosine.SimilarityBounds | src/agents/persister.py:657-671 | similarity is symmetric and lies in [-1,1] |
| Cosine.SelfSimilarity | src/agents/persister.py:657-671 | a vector's similarity with itself is 1, or 0 for the zero vector |
| Redundancy.RetireRedundantScan | src/agents/persister.py:342-356 | the nested greedy loops with their skips compute the specified set |
| Redundancy.RedundancyGuarantees | src/agents/persister.py:342-356 | each retired row is similar to a better row; of two similar rows one is retired |
| Redundancy.ReachesSurvivor | src/agents/persister.py:342-363 | every row reaches a survivor by a chain of similar, ever better rows |
| Redundancy.UnbeatenSurvives | src/agents/persister.py:342-363 | a row that no similar row outranks survives |
| Redundancy.ComponentBestSurvives | src/agents/persister.py:342-363 | the best row of a connected component of the similarity graph survives |
| Redundancy.ComponentKeepsSomebody | src/agents/persister.py:342-363 | every connected component keeps a survivor |
| Redundancy.DissimilarRowsStay | src/agents/persister.py:342-357 | pairwise dissimilar rows lose nobody |
| Redundancy.ThresholdAboveOne | src/agents/persister.py:349-356 | above 1 no threshold retires anyone |
| Redundancy.CopiesAreCaught | src/agents/persister.py:349-356 | at thresholds up to 1 one of two rows with the same nonzero vector is retired |
| Twins.RetiredWithoutSurvivingTwin | src/agents/persister.py:343-356 | three agents with vectors of the column's length, where a retired one has no similar survivor |
| Twins.DescendingKeepsTwins | src/agents/persister.py:343-356 | if no row but the last two scores less than a later one, every retired row is beaten by a similar row that survives |
| Twins.EndsKeepTwins | src/agents/persister.py:349-356 | at thresholds of 1 and above, or -1 and below, the same holds in any order of scores |
| Twins.AscentLosesTwin | src/agents/persister.py:343-356 | an earlier ascent of scores, and a threshold between -1 and 1: some vectors leave a retired row with no similar survivor at all |
| Twins.TwinsExactly | src/agents/persister.py:342-363 | for given names and scores, twins survive whatever the vectors exactly under these conditions |
| AgentPersister.AgentTable.Retire | src/agents/persister.py:249-277 | exactly the named rows become inactive and are stamped with the time; returns the number of names |
| AgentPersister.AgentTable.RetireRedundant | src/agents/persister.py:322-363 | retires the redundant active rows in the table and returns their names, ascending and once each |
| AgentPersister.ConvertibleExactly | src/agents/persister.py:616-647 | a row converts when its tier is one of the four and its quality is within 0 and 1 |
| AgentPersister.AgentOfRow | src/agents/persister.py:639-646 | the metrics and last use a registered agent takes from its row, a quality of 0 read as one half |
| AgentPersister.RegisterRow | src/agents/persister.py:412-416 | one converted row enters the registry with its stored metrics |
| AgentPersister.RegisterActive | src/agents/persister.py:397-420 | exactly the active rows that convert are registered, in query order |
| AgentPersister.LoadActiveAgents | src/agents/persister.py:365-445 | the load does to table, registry and returned names exactly what the specification says, with or without settings |
| LoadProtocol.ReturnedAreRegistered | src/agents/persister.py:425-445 | from an empty registry the returned names are the registry's active names, without duplicates |
| LoadProtocol.ReturnedAreStored | src/agents/persister.py:412-445 | they are the rows left active in the table, except rows that do not convert |
| LoadProtocol.LoadAgrees | src/agents/persister.py:388-445 | table and registry end with the same active names exactly when no active row of the table before the load both fails to convert and escapes the redundancy scan |
| LoadProtocol.ConvertibleRowsAgree | src/agents/persister.py:388-445 | they agree whenever every active row converts |
| LoadProtocol.UnknownTierDisagrees | src/agents/persister.py:412-420 | a stored agent of unknown tier stays active in the table and is never registered |
| LoadProtocol.LoadWithinCap | src/agents/persister.py:427-437 | at most the configured number is loaded, and all of them are healthy |
| LoadProtocol.LeftDissimilar | src/agents/persister.py:388-445 | after a load no two active rows are similar, in any fetch order |
| LoadProtocol.KeptAgent | src/agents/persister.py:412-437 | a returned name is an active registry entry carrying its stored row's data |
| LoadProtocol.SecondLoadChangesNothing | src/agents/persister.py:365-445 | a second load into a fresh registry, in any fetch order, changes no row and returns the same names |
| LoadProtocol.LoadsOnlyRetire | src/agents/persister.py:249-445 | over any run of loads, whatever the registries, settings, fetch orders and times, no row appears or vanishes, no agent comes back, and a row still active is unchanged |
| LoadProtocol.LoadsEligible | src/agents/persister.py:388-445 | only rows that are active, convertible, not redundant and outside the settings' triggers are loaded, and all of them are when the cap has room |
| LoadProtocol.LoadWithoutSettings | src/agents/persister.py:376-420 | without settings the table stays and all active rows that convert are loaded |
| PythonAst.Walk | src/evolution/invariants.py:206 | the worklist walk visits nodes in breadth-first order |
| PythonAst.WalkVisitsDescendants | src/evolution/invariants.py:206-217 | the worklist visits each descendant as often as it occurs, and nothing else |
| PythonAst.WalkMembers | src/evolution/invariants.py:206-217 | a node is visited exactly when it is the root or a descendant |
| Execution.ExecReturns | src/evolution/invariants.py:207-217 | what a statement can return is written in a return statement inside it, through branches, loops, handlers and matches, for any number of iterations |
| Execution.BlockReturns | src/evolution/invariants.py:207-217 | the same for a block |
| GraphInvariants.ExtractNodeNames | src/evolution/invariants.py:169-189 | exactly the names x for which the tree holds an add_node call with the constant x in front, or nothing when there are none |
| GraphInvariants.RegistersExactly | src/evolution/invariants.py:180-188 | the extractor's test finds just the add_node calls with a constant string in front |
| GraphInvariants.SelfLoopExactly | src/evolution/invariants.py:235-246 | its self-loop test finds just the add_edge calls with one constant string twice in front |
| GraphInvariants.RouterForm | src/evolution/invariants.py:207 | a router is a plain function whose name starts with route_ |
| GraphInvariants.StateClassForm | src/evolution/invariants.py:156-165 | the state class is the class AgentState, its fields the annotated plain names of its body |
| GraphInvariants.ReturnLiterals | src/evolution/invariants.py:208-217 | exactly the constant strings returned anywhere in a body |
| GraphInvariants.ExtractRouterLiterals | src/evolution/invariants.py:192-219 | each router name maps to the literals of its last definition; nothing when no router exists |
| GraphInvariants.DetectSelfLoops | src/evolution/invariants.py:222-247 | exactly the names and lines of add_edge calls with the same constant string twice in front |
| GraphInvariants.ExtractStateKeys | src/evolution/invariants.py:142-166 | nothing exactly when the tree holds no state class, else the annotated plain names of the first one in walk order |
| GraphInvariants.CheckStateSchema | src/evolution/invariants.py:374-398 | passes exactly when no baseline key is missing, or one side is absent and it is skipped |
| GraphInvariants.CheckRouters | src/evolution/invariants.py:401-432 | skipped exactly when a file, router or node is absent; otherwise passes exactly when every router literal is a node or the sentinel |
| GraphInvariants.CheckNoSelfLoops | src/evolution/invariants.py:435-447 | passes exactly when no literal self-edge exists |
| GraphInvariants.VerifyGraphInvariants | src/evolution/invariants.py:453-485 | the five checks in order; the report passes exactly when all of them do, spelt out on the trees |
| GraphInvariants.OnlyDefinition | src/evolution/invariants.py:206-218 | with distinct names every router's own entry is in the map |
| GraphInvariants.RoutersReturnValidTargets | src/evolution/invariants.py:401-432 | soundness: un-skipped pass and distinct names mean every execution of a router that returns a constant string returns a registered node or the sentinel |
| GraphInvariants.LastRouterReturnsValidTargets | src/evolution/invariants.py:206-219 | without distinct names this still holds for the last definition of each name |
| RouterLimits.NoNodesPasses | src/evolution/invariants.py:401-412 | with no node registered a router returning any name but the sentinel passes, skipped, and yields an invalid target |
| RouterLimits.ComputedReturnUnchecked | src/evolution/invariants.py:207-217 | a router that returns a helper's result passes un-skipped and may yield any name, or none |
| RouterLimits.EndOfBodyUnchecked | src/evolution/invariants.py:207-217 | a router that runs off its end passes un-skipped and yields nothing |
| RouterLimits.AsyncRouterUnchecked | src/evolution/invariants.py:207 | an async router beside a checked one passes un-skipped and may yield any name |
| RouterLimits.ShadowedRouterUnchecked | src/evolution/invariants.py:206-218 | an earlier definition of a repeated router name passes un-skipped and may yield any name |
| RouterFiles.VisitLevel | src/evolution/invariants.py:206 | the walk visits a whole level of the tree before the next one |
| RouterFiles.UnseenTargetPasses | src/evolution/invariants.py:206-219 | in a file of any routers, a target that is computed, async or shadowed does not affect the pass |
| RouterSoundness.DistinctNamesSound | src/evolution/invariants.py:401-432 | with a node registered and distinct router names a pass means every constant-string return is a valid target |
| RouterSoundness.EndingsDecide | src/evolution/invariants.py:206-217 | for one file that passes un-skipped, with distinct names and no async router, every run yields a valid target exactly when every router's runs end in constant strings only |
| RouterSoundness.TrustExactly | src/evolution/invariants.py:169-432 | for given router names and kinds, every run of every passing file yields a valid target exactly when a node is registered, no name is repeated, none is async and all end in constant strings only, or there is no router |
| TerminalState.LatestAttemptIsMax | src/eval/curve.py:195-199 | the largest non-empty attempt id, none when no row is tagged |
| TerminalState.AttemptRowsAre | src/eval/curve.py:176-177 | the chosen rows are those of one attempt, and never none of a non-empty list |
| TerminalState.LatestRows | src/eval/curve.py:201-220 | the dictionary loop computes one row per check, in first-seen order |
| TerminalState.LatestAreNewest | src/eval/curve.py:201-220 | each kept row is at least as new as every row of its check, and every check is kept |
| TerminalState.LatestIffNewest | src/eval/curve.py:201-220 | with distinct timestamps the kept rows are exactly the newest ones |
| TerminalState.LatestOfPart | src/eval/curve.py:205-212 | reordering rows and deleting superseded ones keeps the same rows |
| TerminalState.TerminalOfPart | src/eval/curve.py:176-184 | the same through the choice of the latest attempt |
| TerminalState.TerminalScoresOfPart | src/eval/curve.py:176-184 | where ties agree, without distinct timestamps, the scores are the same |
| TerminalState.TieKeepsFirst | src/eval/curve.py:215-219 | of two equally new rows the first is kept, and all other rows are the same |
| Curve.GroupByDate | src/eval/curve.py:163-168 | the rows of each parsed date, in row order; undated rows are dropped |
| Curve.PerGoalTrend | src/eval/curve.py:140-193 | one point per date with a row, ascending; its mean times its check count is the sum of the day's terminal scores |
| Curve.TrendOfPart | src/eval/curve.py:160-220 | where ties agree, the trend depends on terminal rows only |
| Curve.DistinctStampsDaily | src/eval/curve.py:201-212 | distinct timestamps leave no ties to disagree |
| Curve.TrendPermutation | src/eval/curve.py:160-220 | where ties agree, any permutation of the rows gives the same points |
| Curve.TieOrderMatters | src/eval/curve.py:215-219 | two newest rows of one check with different scores: two orders of the same rows give different points |
| Curve.OrderExactly | src/eval/curve.py:160-220 | every permutation gives the same points exactly when ties agree |
| Curve.TrendOfTerminalRows | src/eval/curve.py:178-193 | where ties agree, deleting every non-terminal row gives the same points |
| Regression.AppendTrend | src/eval/curve.py:243-246 | each point's mean is appended to its night's list, other nights stay |
| Regression.ComputeBatteryTrend | src/eval/curve.py:222-251 | one battery point per date on which some goal ran, ascending, with the number of these goals; its mean times that number is the sum of their own point means |
| Regression.BestOfIsMax | src/eval/curve.py:253-259 | the high-water mark is a night, and no night is above it |
| Regression.RegressedExactly | src/eval/curve.py:278-297 | regressed exactly when enough nights exist, the latest is under the floor and some earlier night is better by the rounded delta |
| Regression.VerdictReports | src/eval/curve.py:278-306 | inconclusive exactly when nights are too few, then with the latest mean and no comparison; otherwise the rounded latest mean, highest earlier mean and their difference |
| Regression.VerdictMonotone | src/eval/curve.py:292-296 | raising the latest night and lowering earlier ones never turns the verdict on |
| Regression.PeakNeverRegresses | src/eval/curve.py:292-296 | with a positive delta a latest night at or above all earlier ones is never regressed |
| Regression.PeakExactly | src/eval/curve.py:278-297 | for means in [0,1], that every curve ending at its peak is safe holds exactly for a positive delta or a floor at or below 0 |
| Regression.RaisedPoint | src/eval/curve.py:176-191 | raising row scores keeps a goal's dates and never lowers a date's mean |
| Regression.RaisedTrend | src/eval/curve.py:241-251 | raised rows never lower a battery night, and untouched nights stay equal |
| Regression.RaisingLatestNight | src/eval/curve.py:160-297 | from rows to verdict: raising scores of the latest night never turns regressed on |
| Regression.RaisingEarlierNights | src/eval/curve.py:160-297 | from rows to verdict: raising scores of earlier nights never turns it off |
| VerifyPasses.EstimateIsCeiling | scripts/run_metrics.py:300-305 | the estimate is the exact ceiling of rows over distinct checks |
| VerifyPasses.SomeCheckRepeats | scripts/run_metrics.py:294-305 | some check occurs at least that many times |
| VerifyPasses.CompletePasses | scripts/run_metrics.py:294-305 | when every check occurs k times the estimate is k |
| Scoring.CopiesAgree | scripts/curve_score.py:71-87 | on rows of one date the goal score and the curve's only point have the same mean, check count and attempt |
| Scoring.GoalScoreExactly | scripts/curve_score.py:71-87 | the score times the number of terminal rows is the sum of their scores |
| Scoring.ConvergedExactly | scripts/run_metrics.py:378-397 | converged exactly when every declared check was observed and the run did not exhaust its budget, time out, fail or get cancelled |
| Scoring.GroupByGoal | scripts/run_metrics.py:426-428 | rows grouped by recovered spec id, each key where it first occurs |
| Scoring.GoalConverged | scripts/run_metrics.py:378-397 | coverage times the declared checks is the number observed; a shortfall and a cutting status are the reasons, and converged means none |
| Scoring.ScoreOneGoal | scripts/run_metrics.py:434-467 | one goal's entry field by field, and its unrounded score, the mean of its terminal rows |
| Scoring.ScoreGoals | scripts/run_metrics.py:400-492 | means, counts, sorted entries and exclusions of all goals; goals ran are converged plus excluded ones, and the scores of the goals that ran add up to those of the converged plus those of the excluded |
| Scoring.MeasurableExactly | scripts/run_metrics.py:476-479 | convergence is measurable when some entry has a coverage or a known run status |
| RunIds.StripDateSuffix | src/runner.py:91-126 | the loop strips a date and all trailing tags, or reports that there is no date |
| RunIds.StripComposed | src/runner.py:91-126 | what stripping makes of any spec id, tag list and date |
| RunIds.StripRoundTrip | src/runner.py:91-126 | stripping a composed id returns the spec id exactly when it is not empty and does not end in a tag |
| RunIds.StripExactly | src/runner.py:91-126 | any id strips to a spec id exactly when it is that spec id, not empty and not tag-ended, with some tags and a date |
| RunIds.TagEndedSpecIsCut | src/runner.py:118-125 | a spec id that ends in a tag comes back cut short |
| RunIds.TagExactly | src/runner.py:120-121 | a tag is gen or seed followed by digits |
| RunIds.SpecKeyExactly | scripts/run_metrics.py:326-333 | one prefix api-, cli- or bench- is dropped, and the rest stripped or kept |
| RunIds.ResolveExactly | src/runner.py:145-166 | the first registered of the id, its long form, the stripped id and its long form |
| RunIds.SpecKeyFromRunId | scripts/run_metrics.py:308-333 | the prefix loop and the strip compute the scorer's key |
| RunIds.ScorerKeyRoundTrip | src/runner.py:74-75 | the scorer's key of a cli or api thread id is the spec id exactly under the same condition |
| RunIds.ResolveRoundTrip | src/runner.py:129-166 | a composed id resolves as its spec id does exactly when neither the full id nor its long form is registered |
| PathLookup.DottedGet | src/eval/checks.py:376-391 | the loop with its early exits follows the segments |
| PathLookup.SplitInverts | src/eval/checks.py:379 | splitting cuts at every dot and loses nothing |
| PathLookup.SegmentExactly | src/eval/checks.py:382-390 | one segment leads to the value under a key, the element at an index that may count from the end, and nothing otherwise |
| PathLookup.EmptySegmentStays | src/eval/checks.py:380-381 | an empty segment leads nowhere else |
| PathLookup.SplitJoined | src/eval/checks.py:379 | the segments of a joined path are the segments of its parts |
| PathLookup.LookupConcat | src/eval/checks.py:379-391 | following concatenated segments is following them in turn |
| PathLookup.LookupComposes | src/eval/checks.py:376-391 | looking up p.q is looking up q in the result of p, for all data and paths |
| CheckRunner.MergeDeliverables | src/eval/checks.py:936-941 | the loop computes the union without duplicates in first-occurrence order |
| CheckRunner.MergedDeliverables | src/eval/checks.py:934-941 | no duplicates, exactly the members of both lists, spec-named ones in front |
| CheckRunner.RunChecks | src/eval/checks.py:912-973 | one result per check in order; overall times the number of unskipped results is the sum of their scores, or 1 when there are none; passed exactly when every unskipped result is |
| CheckRunner.RuleFull | src/eval/checks.py:263-264 | every check but the judged one scores in [0,1] and passes exactly when it scores 1 |
| CheckRunner.StructuralExactly | src/eval/checks.py:240-264 | a structural check passes exactly when every declared bound holds, or a row exists when none is declared |
| CheckRunner.StructuralScore | src/eval/checks.py:238-264 | it scores the fraction of its declared bounds that hold, or whether a row exists without any |
| CheckRunner.AssertionsExactly | src/eval/checks.py:299-317 | a golden or state check passes when all assertions hold and scores the fraction that holds, 1 without any |
| CheckRunner.ExecutionExactly | src/eval/checks.py:566-571 | an execution check passes, with 1, exactly when its probe succeeds with exit code 0 |
| CheckRunner.JudgeExactly | src/eval/checks.py:723-749 | a judged check reports the judge's score and passes from the minimum on, or is skipped; a check that raised or found nothing usable fails with 0 |
| CheckRunner.IdempotencyExactly | src/eval/checks.py:664-679 | passes exactly when both runs exit cleanly with the same non-empty output; clean but different runs score one half |
| CheckRunner.PassedIffPerfect | src/eval/checks.py:970-972 | a run without an unskipped judged check passes exactly when its overall score is 1 |
| CheckRunner.AgreementExactly | src/eval/checks.py:912-973 | for given check types, passing and scoring 1 agree for all parameters and observations exactly when the judge's minimum is 1, or no check is judged, or some check is of an unknown type |
| CheckRunner.JudgeSeparates | src/eval/checks.py:744-749 | any other minimum admits observations for which they differ |
| CheckRunner.OraclePassesBelowOne | src/eval/checks.py:744-749 | a single judged check that scores just the minimum passes with that score |
| CheckRunner.SkippedChangesNothing | src/eval/checks.py:970-972 | a skipped check anywhere changes neither score nor verdict |
| Retrieval.SeededIdReadBack | src/eval/retrieval.py:179-194 | the id stamped on a seeded item is read back from its tags |
| Retrieval.RetrieveIds | src/eval/retrieval.py:217-229 | the dedup loop returns the marked ids once each, in recall order |
| Retrieval.ComputeMetrics | src/eval/retrieval.py:113-133 | precision times k is the number of relevant ids in the first k, the reciprocal rank times the first relevant place is 1, a hit is a relevant id in the first k; nothing for k <= 0 |
| Retrieval.HitExactly | src/eval/retrieval.py:124-133 | for k >= 1 a hit is a reciprocal rank of at least 1/k, and without one it is at most 1/(k+1) |
| Retrieval.PrecisionBounds | src/eval/retrieval.py:124-133 | precision is at most min(k, gold)/k on a duplicate-free list, and 0 without a hit |
| Retrieval.RunRetrievalEval | src/eval/retrieval.py:136-173 | scores every query, a failing retriever as an empty list; each figure times the number of queries is the sum of their scores |
| Retrieval.EvalIdExactly | src/eval/retrieval.py:189-194 | the id follows the first tag with the marker in front |
| Retrieval.ReportBounds | src/eval/retrieval.py:166-173 | mean precision <= hit rate, and hit rate/k <= MRR <= hit rate + (1 - hit rate)/(k+1) |

## Left out

- SignedRank.PairedSignificance: no bootstrap interval and no Wilcoxon statistic or p-value (seeded random numbers, foreign numerics), and no labels or caveat text.
- Float rounding error, NaN, Unicode digits, non-ASCII case: exact reals and ASCII.
- `build_per_goal` and `_endpoint_paired`: they only pair up scores for the statistic.
- `aggregate_cost` and sub-agent aggregates: plain sums into buckets.
- GraphInvariants.VerifyGraphInvariants: the outcomes of `compiles` and `imports_clean`, which run the Python compiler and a subprocess, are inputs.
- Detail strings, log messages and evidence dictionaries; a reason for non-convergence is kept as its parts, not as text.
- Comprehensions and other expressions are opaque: they finish or raise. Asynchronous statements cannot occur in a plain router.
- AgentPersister.LoadActiveAgents: no database failures, so none of the best-effort paths that log and go on.
- `persist` and its version bumps, rolling metrics, and spawning of sub-agents.
- AgentPersister.RegisterRow: of a spec only what retirement reads is kept (name, score, last use, active flag); conversion fails on an unknown tier or a quality outside 0 to 1 only.
- CheckRunner.RunChecks: what a check sees on disk, in the sandbox or from the judge is an input; a check shown an observation of another type fails.
- CheckRunner.RuleFull: assertion kinds and the state lookup are not evaluated; only their outcomes are combined.
- Retrieval.RunRetrievalEval: the echoed query, retrieved and gold lists of each score, and the rounding of the exported report.
- Regression.ComputeBatteryTrend: the goals are given as their fetched rows; time and model filters belong to the store.
- Curve snapshots, exports and the promotion gate.
- The process-id fallback of the thread id, which no later run can read back.
- Network, queue, model gateway, sandbox, Git and command-line plumbing.
