# clean-css override resolver, in Dafny

This project models the override resolver `_optimize` of clean-css's
level-2 compacting optimizer (`lib/optimizer/level-2/compacting/optimize.js`).

The resolver takes the declarations of one rule block in source order. It
marks as `unused` every declaration that a later one makes redundant. It
proves the model's properties against a functional specification.

The source works on a mutable list of declaration objects. The model keeps
the parts that `_optimize` reads as immutable records,
`Decl(name, important, hack, text)`. The only thing the resolver changes,
`unused`, is an `array<bool>` kept beside them. `text` stands for the
declaration as the writer serialises it. The model compares `text` only
for equality, exactly as `sameValue` does.

Modules:

- `Wrappers`: `Option`.
- `Declarations`:
  - the hack tag, where only `NoHack` is falsy in the source's truthiness tests, and hacks other than star and underscore keep their kind;
  - the declaration record;
  - the `mergeAdjacent` policy (`true`, `false` or a list of positions) and `mergeablePosition`;
  - the effective name (`filter` / `-ms-filter` after `background` / `background-image`).
- `Shorthands`: the constant `shorthands` table (lines 16-36) and lemmas about its shape.
- `Resolution`: the functional specification.
  - `Judge` decides on one earlier candidate; `JudgeVerdicts` states what each verdict means, in both directions.
  - `Scan` takes the candidates from newest to oldest.
  - `Step` is one iteration of the declaration loop.
  - `Run`/`Resolve` are the whole pass with its restarts. They terminate by the measure (live declarations, remaining positions).
  - `Valid` is the loop invariant: every recorded position is below the loop position.
- `Optimizer`: the imperative resolver, a `while` loop over the declarations.
  - It sets flags in `unused[..]` in place and keeps `overrideMapping` as a `map<string, seq<int>>` local.
  - It restarts at position 0 after a removal. The source sets the position to -1, and the loop increment then makes it 0.
  - The loop body is split into methods. `VisitDeclaration` handles one declaration. `ScanDeclaration` handles the scanning branch. `ScanCandidates` is the inner `j` loop; its `lost` result plays the role of `continue propertyLoop`. `JudgeCandidate` holds the loop's chain of tests on one candidate. `RegisterPosition` is the registration loop.
  - `Optimize` is proved to leave exactly `Resolve(config, old(unused[..]))` in `unused`.
- `Properties`: the resolver's rules, proved about the specification:
  - skip rules;
  - removal of every overridden candidate when no candidate beats the current declaration;
  - `!important` precedence, also after newer candidates were removed;
  - duplicate collapse;
  - restart only after a removal;
  - registration.
- `Scenarios`: whole passes over small blocks, computed step by step.

Where the code departs from the rules it is usually described by, the
model follows the code:

- The intended rule that a hacked and an unhacked declaration never mark each other unused does not hold in the code when the hacked declaration is earlier and important. The skip at line 97 only applies to non-important candidates, and line 106 then drops the current plain declaration. `Scenarios.ImportantStarHackBeatsPlain` shows this on `*color:red!important; color:blue`. What does hold is `Properties.HackMismatchKeepsEarlier` and `Properties.StarUnderscoreKeepsImportant`.
- A declaration that loses to an important candidate leaves the scan at once (line 109). Removals that the same scan already made therefore do not trigger a restart.
- A declaration that survives its scan is not registered in the mapping. The registration at lines 124-137 is in the `else` branch only.

## Model

| member | source | states |
|---|---|---|
| Shorthands.GroupsEndWithBorder | lib/optimizer/level-2/compacting/optimize.js:16-36 | a name has shorthand groups exactly when it is a key of the table, and its last group is `border` |
| Shorthands.GroupsAreDistinct | lib/optimizer/level-2/compacting/optimize.js:16-36 | no name is its own group and no group is listed twice, so registration pushes each position once per key |
| Shorthands.BorderIsTop | lib/optimizer/level-2/compacting/optimize.js:16-36 | `border` itself has no groups |
| Shorthands.IntermediateGroups | lib/optimizer/level-2/compacting/optimize.js:16-36 | every group other than `border` is itself covered by `border` alone |
| Shorthands.GroupsAreClosed | lib/optimizer/level-2/compacting/optimize.js:16-36 | whatever covers a group of a name is itself a group of that name |
| Declarations.MergeablePosition | lib/optimizer/level-2/compacting/optimize.js:44-49 | `true` and `false` policies answer as they are; a position list answers whether the position occurs in it |
| Declarations.EffectiveName | lib/optimizer/level-2/compacting/optimize.js:61-63 | a filter declaration after a background declaration takes the background name; every other declaration keeps its own name |
| Resolution.Push | lib/optimizer/level-2/compacting/optimize.js:124-125 | the key is added, other entries are unchanged, and recorded positions stay below the bound |
| Resolution.PushAll | lib/optimizer/level-2/compacting/optimize.js:130-137 | pushing under several keys keeps every recorded position below the bound |
| Resolution.Register | lib/optimizer/level-2/compacting/optimize.js:124-137 | registration keeps every recorded position below the next loop position |
| Resolution.LiveMark | lib/optimizer/level-2/compacting/optimize.js:111-112 | marking a live declaration unused lowers the live count by exactly one |
| Resolution.JudgeVerdicts | lib/optimizer/level-2/compacting/optimize.js:86-113 | an earlier candidate is dropped exactly when it is live, not vetoed, and either important against an important unhacked current declaration of its own name or not important with the same hack presence as the current one; the current declaration is dropped exactly when a live, unvetoed, important candidate of its name faces it while it is not important or has a hack other than star or underscore; an unused candidate is skipped, and every skip of a live candidate is one of the four skip rules |
| Resolution.Scan | lib/optimizer/level-2/compacting/optimize.js:85-114 | the scan only raises flags and only of candidates; the live count never grows; it reports removals exactly when it marked a candidate that was live |
| Resolution.ScanNewest | lib/optimizer/level-2/compacting/optimize.js:85-114 | the newest candidate is judged first and its verdict decides how the scan goes on |
| Resolution.ScanStep | lib/optimizer/level-2/compacting/optimize.js:80-122 | a scanned declaration keeps the loop invariant and either advances the position without adding live declarations or restarts with fewer live ones |
| Resolution.Step | lib/optimizer/level-2/compacting/optimize.js:59-142 | one iteration keeps the loop invariant (recorded positions below the position), never clears a flag, and either advances without adding live declarations or restarts with strictly fewer |
| Resolution.StepSkipsUnused | lib/optimizer/level-2/compacting/optimize.js:67-68 | an unused declaration is passed over and nothing else changes |
| Resolution.StepCollapsesDuplicate | lib/optimizer/level-2/compacting/optimize.js:51-56 | an adjacent duplicate is marked unused whatever the merge policy, and only the position moves on |
| Resolution.StepCurrentLoses | lib/optimizer/level-2/compacting/optimize.js:106-109 | a declaration beaten by an important candidate is marked unused and becomes the last property while the last name and the mapping stay |
| Resolution.StepRestarts | lib/optimizer/level-2/compacting/optimize.js:116-122 | after a removal the pass restarts at position 0 with an empty mapping and no last declaration |
| Resolution.StepSurvivesScan | lib/optimizer/level-2/compacting/optimize.js:140-141 | a declaration that survives its scan without removals becomes the last declaration and is not registered |
| Resolution.StepRegisters | lib/optimizer/level-2/compacting/optimize.js:123-141 | a declaration that is not scanned is registered and becomes the last declaration |
| Resolution.Run | lib/optimizer/level-2/compacting/optimize.js:58-59 | the pass terminates, keeps the number of flags and never clears one |
| Resolution.RunStep | lib/optimizer/level-2/compacting/optimize.js:58-59 | the pass from a state is the pass from the state after one iteration |
| Resolution.Resolve | lib/optimizer/level-2/compacting/optimize.js:38-43 | a whole resolver call from the initial state keeps the number of flags and never clears one |
| Optimizer.Optimize | lib/optimizer/level-2/compacting/optimize.js:38-143 | the flags left in `unused` are exactly those of `Resolve` on the flags it started with, and no flag is cleared |
| Optimizer.VisitDeclaration | lib/optimizer/level-2/compacting/optimize.js:60-141 | the loop variables and flags after handling one declaration are exactly those of `Step` |
| Optimizer.ScanDeclaration | lib/optimizer/level-2/compacting/optimize.js:81-122 | the loop variables and flags after the scanning branch are exactly those of `ScanStep` |
| Optimizer.ScanCandidates | lib/optimizer/level-2/compacting/optimize.js:85-114 | the inner loop marks exactly what `Scan` marks, reports a loss of the current declaration exactly when `Scan` does and then marks it unused, and reports removals exactly as `Scan` |
| Optimizer.JudgeCandidate | lib/optimizer/level-2/compacting/optimize.js:86-113 | the chain of tests on one candidate, in source order, computes exactly `Judge` |
| Optimizer.RegisterPosition | lib/optimizer/level-2/compacting/optimize.js:124-137 | the registration loop, last group first, computes exactly `Register` |
| Properties.ScanSpares | lib/optimizer/level-2/compacting/optimize.js:91-113 | a candidate whose verdict is not to drop it stays live through the whole scan |
| Properties.ScanLostWitness | lib/optimizer/level-2/compacting/optimize.js:106-109 | a scan that drops the current declaration names a live candidate that stays live and whose verdict is to drop the current one |
| Properties.ScanReachesWinner | lib/optimizer/level-2/compacting/optimize.js:85-109 | when all newer candidates are skipped and one beats the current declaration, the scan ends there with no flag changed |
| Properties.ScanKeptWithoutWinner | lib/optimizer/level-2/compacting/optimize.js:85-114 | when no live candidate beats the current declaration, the scan never drops it |
| Properties.ScanRemovesOverridable | lib/optimizer/level-2/compacting/optimize.js:110-113 | when no live candidate beats the current declaration, every live candidate it overrides is marked unused and the scan reports a removal |
| Properties.ScanLosesToLiveWinner | lib/optimizer/level-2/compacting/optimize.js:106-109 | a live candidate that beats the current declaration ends the scan with a loss, whatever newer candidates were removed before it, and it stays live |
| Properties.StepSpares | lib/optimizer/level-2/compacting/optimize.js:91-104 | an earlier declaration whose verdict is not to drop it stays live through the iteration |
| Properties.ShorthandKeepsImportantLonghand | lib/optimizer/level-2/compacting/optimize.js:94-95 | an important declaration of another name is never erased by a shorthand |
| Properties.HackMismatchKeepsEarlier | lib/optimizer/level-2/compacting/optimize.js:97-98 | a non-important declaration is never erased by one that differs from it in having a hack |
| Properties.StarUnderscoreKeepsImportant | lib/optimizer/level-2/compacting/optimize.js:100-101 | a star or underscore hack never erases an important declaration |
| Properties.VetoKeepsEarlier | lib/optimizer/level-2/compacting/optimize.js:103-104 | between unhacked declarations of the same name, one the `canOverride` check rejects is never erased |
| Properties.ImportantNeverLosesToWeaker | lib/optimizer/level-2/compacting/optimize.js:106-109 | an important declaration is never erased by one that is not important or has a hack |
| Properties.OnlyScanRemovesEarlier | lib/optimizer/level-2/compacting/optimize.js:80-112 | an earlier declaration is erased only by a live, non-duplicate, merge-eligible declaration whose candidates under its effective name include it |
| Properties.CurrentLosesOnlyToDuplicateOrImportant | lib/optimizer/level-2/compacting/optimize.js:70-109 | a live declaration is marked unused only as an adjacent duplicate or because a live, unvetoed, important candidate recorded under its effective name, which stays live, beats it |
| Properties.ImportantEarlierWins | lib/optimizer/level-2/compacting/optimize.js:106-109 | when all newer candidates are skipped and an unvetoed live important candidate faces a weaker current declaration, the current one is marked unused, the candidate stays live, and only the last property moves on |
| Properties.ImportantCandidateWins | lib/optimizer/level-2/compacting/optimize.js:106-109 | a live, unvetoed, important candidate of the same name beats a current declaration that is not important or has a hack other than star or underscore, whatever newer candidates did: the current one is marked unused, the winner stays live, the current one becomes the last property, and the last name and the mapping stay |
| Properties.OverridableCandidateRemoved | lib/optimizer/level-2/compacting/optimize.js:110-122 | when no live candidate beats the current declaration, a live candidate it overrides is marked unused, the current one stays live, the pass restarts, and the candidate is unused when the pass ends |
| Properties.DuplicateEndsUnused | lib/optimizer/level-2/compacting/optimize.js:70-73 | an adjacent duplicate is unused when the pass ends, whatever the merge policy |
| Properties.RestartOnlyAfterRemoval | lib/optimizer/level-2/compacting/optimize.js:116-122 | a restart happens only after some earlier live declaration was marked unused, and it resets the mapping and the last declaration |
| Properties.FirstIsRegistered | lib/optimizer/level-2/compacting/optimize.js:123-141 | a live first declaration is always registered under its effective name and each of its groups |
| Properties.ResolveOnlyMarks | lib/optimizer/level-2/compacting/optimize.js:67-68 | a declaration that is unused before the pass is unused after it |
| Properties.PushAllAppends | lib/optimizer/level-2/compacting/optimize.js:130-137 | pushing under distinct keys appends the position under each of them and leaves every other entry alone |
| Properties.RegisterAppends | lib/optimizer/level-2/compacting/optimize.js:124-137 | registration appends the position under the effective name and under each of its groups, and leaves every other entry alone |
| Properties.RegisteredUnderBorder | lib/optimizer/level-2/compacting/optimize.js:130-137 | a registered border longhand or edge shorthand becomes the newest candidate of `border` |
| Properties.RegisteredUnderCovering | lib/optimizer/level-2/compacting/optimize.js:124-137 | registration also reaches whatever covers one of the name's groups, which gets the position as its newest candidate |
| Scenarios.LaterColorOverrides | lib/optimizer/level-2/compacting/optimize.js:111-122 | `color:red; color:blue` with merging allowed leaves only the second declaration |
| Scenarios.ImportantLonghandSurvivesBorder | lib/optimizer/level-2/compacting/optimize.js:94-95 | `border-bottom-color:red!important; border:1px solid blue` keeps both declarations |
| Scenarios.BorderOverridesLonghand | lib/optimizer/level-2/compacting/optimize.js:110-122 | `border-bottom-color:red; border:1px solid blue` drops the longhand and keeps the shorthand |
| Scenarios.RestartKeepsTheRest | lib/optimizer/level-2/compacting/optimize.js:116-122 | `color:red; margin:0; color:blue` drops the first declaration, restarts, and keeps the other two |
| Scenarios.DuplicateCollapsesWithoutMerging | lib/optimizer/level-2/compacting/optimize.js:70-73 | `color:red; color:red` with merging never allowed still drops the second declaration |
| Scenarios.ImportantStarHackBeatsPlain | lib/optimizer/level-2/compacting/optimize.js:97-109 | `*color:red!important; color:blue` drops the plain declaration |
| Scenarios.SecondPassCanMarkMore | lib/optimizer/level-2/compacting/optimize.js:51-56 | running the resolver again on its own result can mark more, so a single call is not idempotent |

## Left out

- `compactorOptimize` (lines 145-167) is not part of this model. It is glue over the component population, override and shorthand compactors, and the restore and removal steps, none of which is part of this model. Its recursion into nested blocks runs through those calls.
- `serializeProperty` (lines 14, 55): the writer is not part of this model. Each declaration carries its serialised text as an opaque string, compared only for equality.
- `compactable` and the value `validator` (lines 5, 82, 103) are not part of this model. `canOverride` is a parameter that maps a name to an optional check on two declarations, with the validator already bound.
- CSS parsing and value representation: declarations arrive already structured, with name, importance and hack tag.
- The test `_name in overrideMapping` (line 80) is JavaScript's `in` on a plain object, which also finds inherited names such as `constructor`. The model uses map membership.
- Hack tags are compared by value (line 70), with hacks other than star and underscore told apart by a kind string. A hack the source represents as a fresh array would compare unequal to an identical one there.
- A `mergeAdjacent` that is neither a boolean nor an array (line 48 would then throw) is not modelled.
- Resolution.Resolve: idempotence is not claimed. With serialisations opaque, a second call can mark more; `Scenarios.SecondPassCanMarkMore` shows it.
- Optimizer.Optimize: the loop body is written as the methods `VisitDeclaration`, `ScanDeclaration`, `ScanCandidates` and `JudgeCandidate`. `continue propertyLoop` is expressed by `ScanCandidates` returning `lost`, and the restart by `VisitDeclaration` returning position 0.
