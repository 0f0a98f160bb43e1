# Verified models of the module loader, the CSS path utilities, Emmet and `throttle`

This project models the parts of the repository whose behaviour is hardest to see from the code,
and proves what they keep. Run `dafny verify dfyconfig.toml`.

**The AMD loader** (`src/vs/loader.js`). `LoaderState.dfy` gives the loader's state as a value, with
one function for each transition: define a module, complete one and release its waiters, fail with a
load error. `ModuleManager.dfy` holds the classes `Module` and `ModuleManager` with the loader's own
mutable fields, its recursion and its queue-and-marks loops; every method is proved to take the
state where those functions say. A run is any sequence of definitions (by a script that loaded, by a
`require` call, or by the `load` callback of a plugin) and load errors. What holds of every
reachable state is in `LoaderInvariant.dfy`, `LoaderResolve.dfy` (also the weaker form that holds
while `_resolve` is under way), `LoaderProgress.dfy`, `LoaderTheorems.dfy` and `LoaderExports.dfy`.
Others say one thing each: what a definition adds (`LoaderDefinitions.dfy`), which dependencies are
dropped (`LoaderDropped.dfy`) and what factories are passed for them (`LoaderValues.dfy`), what is asked
for (`LoaderLoads.dfy`), who keeps which place in the tables (`LoaderTables.dfy`), where errors come from
(`LoaderOrigins.dfy`), when load errors are reported (`LoaderReports.dfy`), how often errorbacks are called
(`LoaderErrorbacks.dfy`), and what incomplete modules are held up by (`LoaderPlugins.dfy`).
`LoaderNested.dfy` and `LoaderAtOnce.dfy` are about definitions that a plugin makes inside a resolution,
`LoaderCycles.dfy` about the cycle that gets printed, and `LoaderLimits.dfy` has runs where the loader
does less than one might expect. The history (completion order, values passed to
factories, callbacks, broken edges) is ghost state that the loader does not keep; the errors it reports
and the errorbacks it calls are fields of the class and part of the state.

**Module names** (`ModuleNames.dfy`, `ModuleIds.dfy`): numbering of names, the rewriting of module ids
by repeated pattern replacement, and its agreement with the stack of `joinPaths`.

**CSS paths** (`PathPieces.dfy`, `PathStack.dfy`, `CssPaths.dfy`, `CssPathTheorems.dfy`, `CssHosts.dfy`):
`joinPaths` and `relativePath` on strings with their loops, `joinPaths` as an algebra, behind a host and
from the root, and when a rewritten URL keeps its target.

**Emmet** (`extensions/emmet/src`): the preview of wrap-with-abbreviation (`TextPositions.dfy`,
`WrapPreview.dfy`), node lookup (`FlatNodes.dfy`), next and previous item (`ItemNavigation.dfy`,
`ItemSelection.dfy`), the nodes between two nodes (`NodesInBetween.dfy`), the search for a rule set around
a position and its cursor (`PartialStylesheet.dfy`) with what it takes for comments
(`StylesheetReading.dfy`), removing a tag (`RemoveTag.dfy`) and which text goes with it
(`RemovedText.dfy`), and words (`Words.dfy`). A node of
a tree is named by its path from the root; a document is a string or its lines.

**`throttle`** (`extensions/git-base/src/decorators.ts`, `Throttle.dfy`): calls, settling runs and
microtasks in first-in-first-out order, as a state machine and as a class proved against it.

Several natural claims are false of the code. For each of them there is a concrete witness and the
exact condition under which the claim holds:

- the relative path round trip and the target of a rewritten URL: `ParentFolderLosesTarget`;
  `RelativeRoundTrip`, `RewriteKeepsTarget`
- after a preview in which an expansion fails the ranges are right: `FailedPreviewLosesRange`;
  `StaleRangesIff`
- follow-up runs after a failing run: `FailureCanGetStuck`; `AllAnsweredIff`, `StuckForever`
- removing a tag loses only white space: `ForgottenLineLosesText`, `TagOnTwoLinesOverlaps`;
  `RemovalLosesOnlySpace`
- the nodes between two nodes: `TouchingMissed`, `FirstCharacterMissed`, `WholeDocumentMissed`;
  `GetNodesInBetween`
- a resource exports what its plugin handed over: `HandedValuesLost`; `PluginDelivers`
- the previous item is the last whose name starts before the cursor: `CommentPassedOver`; `PrevIsLastName`
- an errorback is called once: `ErrorbackCalledTwice`; `ErrorbackCalledOnceIff`
- modules complete once everything is defined: `PluginCycleDeadlocks`, `MetFailureNotPassedOn`;
  `IncompleteIffPluginCycle` without failures and `IncompleteIffHeldUp` with them

For one more the condition is sufficient only: after a preview in which an expansion fails a revert
restores the document if the ranges are right (`PreviewAndRevert`); if they are not it may fail to
(`FailedPreviewNotReverted`) or still do so (`StaleRangeReverts`).

Where the code and its comments differ the code is followed: `_findCyclePath` is said to return a
cycle (`src/vs/loader.js:1611-1616`) but returns a reversed path that need not arrive when it is cut
off at depth 50; `parsePartialStylesheet` is said to find a complete rule set
(`extensions/emmet/src/util.ts:183-188`) but starts at the last character of the selector, or with the
document once the search is given up; `getRangesToRemove` is said to compute replacements
(`extensions/emmet/src/removeTag.ts:33-37`) but computes ranges only.

## Model

| member | source | states |
|---|---|---|
| ModuleManagers.Module.constructor | src/vs/loader.js:1161-1173 | a new module waits for all its dependencies and exports its own empty object |
| ModuleManagers.Module.Complete | src/vs/loader.js:1199-1229 | a constant becomes the exports, a factory is called; a returned value replaces the exports unless they were handed out and filled; an error is kept and handed back; dependencies, callback and errorback are dropped |
| ModuleManagers.Module.OnDependencyError | src/vs/loader.js:1233-1241 | the module is complete with the error, its errorback is kept, and the result tells whether there was one |
| ModuleManagers.ModuleManager.constructor | src/vs/loader.js:1281-1300 | an empty loader is a stable state |
| ModuleManagers.ModuleManager.LoadModule | src/vs/loader.js:1662-1669 | a load is asked for unless the module is defined or known, and marks it known |
| ModuleManagers.ModuleManager.LoadPluginDependency | src/vs/loader.js:1712-1726 | the same for a resource, asked of its plugin |
| ModuleManagers.ModuleManager.LoadPluginDependencies | src/vs/loader.js:1857-1860 | all queued resources are asked for, in order |
| ModuleManagers.ModuleManager.Finish | src/vs/loader.js:1803-1839 | the loop collects the values of the dependencies, the factory gets them, its error is reported, its waiters are fetched and cleared |
| ModuleManagers.ModuleManager.CollectValues | src/vs/loader.js:1808-1831 | one value for each dependency in order: its own `exports`, `module` and `require`, the exports of a defined module, and null for anything else |
| ModuleManagers.ModuleManager.ReleasePlugins | src/vs/loader.js:1852-1861 | the resources queued behind a plugin are asked for and the queue is dropped |
| ModuleManagers.ModuleManager.ReleaseWaiter | src/vs/loader.js:1844-1849 | one waiter is counted down and completed at zero |
| ModuleManagers.ModuleManager.ReleaseWaiters | src/vs/loader.js:1840-1851 | the waiters are released one after the other, each in the state the one before left |
| ModuleManagers.ModuleManager.OnModuleComplete | src/vs/loader.js:1796-1862 | the completion cascade ends, and its whole effect on modules, tables, loads and reported errors is that of the specification |
| ModuleManagers.ModuleManager.HasDependencyPath | src/vs/loader.js:1574-1610 | true exactly if a path of at least one dependency leads from one module to the other |
| ModuleManagers.ModuleManager.WalkDependencies | src/vs/loader.js:1589-1606 | finds the target among the dependencies of one element, or enqueues every defined dependency not seen before |
| ModuleManagers.ModuleManager.ReportCycle | src/vs/loader.js:1762-1765 | the printed cycle starts and ends with the dependency, follows real dependencies, and passes through the module unless it is too long |
| ModuleManagers.ModuleManager.SearchCycle | src/vs/loader.js:1617-1637 | the recursive search is the function that FindCyclePathReports and FindCyclePathFinds are about |
| ModuleManagers.ModuleManager.BreakCycle | src/vs/loader.js:1759-1768 | the dependency is counted down, dropped and the cycle noted |
| ModuleManagers.ModuleManager.RecordWaiter | src/vs/loader.js:1770-1772 | the module is appended to the waiters of the dependency |
| ModuleManagers.ModuleManager.QueueForPlugin | src/vs/loader.js:1779-1785 | the resource is queued behind its plugin |
| ModuleManagers.ModuleManager.RequestDependency | src/vs/loader.js:1773-1789 | a resource is asked of its plugin or queued behind it, anything else is loaded |
| ModuleManagers.ModuleManager.FailWith | src/vs/loader.js:1752-1755 | the module fails with the error of its dependency and its errorback is called once |
| ModuleManagers.ModuleManager.ResolveDependency | src/vs/loader.js:1736-1789 | one iteration that does not stop takes the state where the specification says, in all five cases |
| ModuleManagers.ModuleManager.ResolveNext | src/vs/loader.js:1735-1790 | an iteration stops exactly at a dependency that has failed, and then calls the errorback of the module, if it has one |
| ModuleManagers.ModuleManager.Resolve | src/vs/loader.js:1731-1795 | the loop and the final completion have the effect of the specification, with the errors reported and the errorbacks called |
| ModuleManagers.ModuleManager.NormalizeAll | src/vs/loader.js:1459-1465 | the names are numbered in order and become dependencies |
| ModuleManagers.ModuleManager.DefineModule | src/vs/loader.js:1417-1437 | a duplicate is ignored, anything else is added and resolved, with the errors reported and the errorbacks called; the loader is stable again |
| ModuleManagers.ModuleManager.EnsureModule | src/vs/loader.js:1535-1537 | an id that was never defined gets an empty module |
| ModuleManagers.ModuleManager.EnqueueWaiters | src/vs/loader.js:1553-1562 | exactly the waiters not seen before are enqueued, once each |
| ModuleManagers.ModuleManager.FailAffected | src/vs/loader.js:1538-1563 | the walk ends, fails exactly the modules reached over inverse dependencies, and calls each errorback among them once |
| ModuleManagers.ModuleManager.OnLoadError | src/vs/loader.js:1533-1567 | the same for the whole call; onError is told exactly if there was no errorback; the loader is stable again |
| ModuleManagers.ModuleManager.OnScriptLoaded | src/vs/loader.js:1511-1518 | a script that loaded defines its own module, relative to its own folder |
| ModuleManagers.ModuleManager.OnPluginLoaded | src/vs/loader.js:1720-1722 | the load callback of a plugin defines the resource with the value as its callback, whatever the value is |
| ModuleManagers.DefineNamedReaches | src/vs/loader.js:1417-1437 | from a reachable state a definition by name, as the class makes it, leads to a reachable state |
| ModuleManagers.OnLoadErrorReaches | src/vs/loader.js:1533-1567 | the same for a load error |
| ModuleManagers.DefineNamedAdds | src/vs/loader.js:1417-1466 | a definition by name adds exactly one module: the one of that name, with dependencies that stand for the given names in order, the callback and the errorback; a second one adds nothing but names |
| LoaderInvariant.AcyclicNewEdge | src/vs/loader.js:1759-1772 | recording a waiter closes no cycle of waiting if what the dependency waits for does not include the module |
| LoaderInvariant.NoWaitWhenZero | src/vs/loader.js:1792-1794 | a counter of zero means that nothing is waited for |
| LoaderInvariant.FinishKeepsInvariant | src/vs/loader.js:1803-1839 | completing a module keeps the invariant, with its former waiters owed one decrement for each occurrence |
| LoaderInvariant.CompleteKeepsInvariant | src/vs/loader.js:1796-1862 | the whole cascade keeps the invariant and leaves nothing owed |
| LoaderInvariant.ReleaseKeepsInvariant | src/vs/loader.js:1840-1851 | the loop over the waiters pays exactly what is owed |
| LoaderResolve.GuardedEdgeKeepsAcyclic | src/vs/loader.js:1759-1772 | when the path search fails, recording the waiter keeps waiting acyclic |
| LoaderResolve.StepKeeps | src/vs/loader.js:1735-1790 | every iteration keeps the weaker invariant that holds inside _resolve |
| LoaderResolve.ResolveKeeps | src/vs/loader.js:1731-1795 | _resolve ends in a stable state from every state in which a definition starts it |
| LoaderResolve.DefineKeeps | src/vs/loader.js:1417-1437 | defining keeps the stable state |
| LoaderResolve.OnLoadErrorKeeps | src/vs/loader.js:1533-1567 | a load error keeps the stable state |
| LoaderDefinitions.DefineAdds | src/vs/loader.js:1417-1437 | a first definition adds one module with the given dependencies, callback and errorback, and declares nothing else anew; a second one changes nothing |
| LoaderNested.DefinitionInsideKeeps | src/vs/loader.js:1735-1790 | a definition inside an iteration, with any number of definitions nested in it, leaves the resolution where it was |
| LoaderNested.NestedDefinitionStable | src/vs/loader.js:1731-1795 | however definitions are nested, the loader is stable when the outermost is done |
| LoaderNested.NothingInside | src/vs/loader.js:1417-1437 | with nothing nested it is the definition of the specification |
| LoaderAtOnce.CalledBackAtOnce | src/vs/loader.js:1712-1795 | when a completed plugin calls back at once with the only dependency of a module, first the resource completes and next the module, which is passed what the resource exports, all inside the one definition |
| LoaderResolve.CompletedUnaffected | src/vs/loader.js:1545-1563 | no completed module is reached from a failing one over inverse dependencies |
| LoaderProgress.CompleteAdvances | src/vs/loader.js:1796-1862 | the cascade completes only modules that were neither complete nor failed and leaves the outcome of all others alone |
| LoaderProgress.DefineAdvances | src/vs/loader.js:1417-1437 | the same for a definition |
| LoaderProgress.OnLoadErrorAdvances | src/vs/loader.js:1533-1567 | a load error completes nothing and leaves outcomes alone |
| LoaderProgress.DefineRequested | src/vs/loader.js:1770-1789 | after a definition everything awaited is still defined, asked for, or queued behind a plugin |
| LoaderTheorems.RunStable | src/vs/loader.js:1281-1863 | every reachable state is stable |
| LoaderTheorems.RunAdvances | src/vs/loader.js:1417-1862 | along a run the completion order only grows, and completed modules keep their exports |
| LoaderTheorems.WaitingConserved | src/vs/loader.js:1735-1794 | the counter of a module that neither completed nor failed is its number of occurrences in the waiter lists, and positive; it waits only for its dependencies |
| LoaderTheorems.InvokedAtMostOnce | src/vs/loader.js:1799-1836 | no factory runs twice in any run |
| LoaderTheorems.NeverInvokedAfterFailure | src/vs/loader.js:1233-1241 | a module that failed before it completed never has its factory run, and keeps an error |
| LoaderTheorems.CompletionTopological | src/vs/loader.js:1796-1851 | every dependency that was not dropped completes before its dependents |
| LoaderTheorems.PassedExportsAreFinal | src/vs/loader.js:1825-1829 | what a factory was passed for such a dependency is what it exports in every later state |
| LoaderDropped.DroppedOnCycle | src/vs/loader.js:1759-1768 | a dependency that was dropped leads back to its module over declared dependencies; the cycle flag is set exactly if something was dropped |
| LoaderDropped.TopologicalOffCycles | src/vs/loader.js:1759-1768 | every dependency that does not lead back to its module completes before it, whatever other cycles there are |
| LoaderDropped.PassedFinalOffCycles | src/vs/loader.js:1825-1829 | what a factory was passed for such a dependency is what it exports in every later state |
| LoaderDropped.AcyclicDropsNothing | src/vs/loader.js:1759-1768 | without cycles among the declarations nothing is dropped and the flag is not set |
| LoaderValues.PassedValue | src/vs/loader.js:1808-1831 | what a factory was passed for a dependency is what that exports in every later state if it completed before, and otherwise its first exports object, which happens for dropped dependencies only |
| LoaderLoads.OnlyDeclaredAsked | src/vs/loader.js:1662-1789 | a script is asked for only if some module depends on it or on a resource of it; a resource is asked for with the plugin and the parameter of a declared dependency, of a plugin that has completed |
| LoaderTables.WaitersInOrder | src/vs/loader.js:1770-1787 | until a module completes, those that wait for it and the resources queued behind it keep their places, and later ones come behind |
| LoaderTables.CompletedForgets | src/vs/loader.js:1225-1228 | a module whose factory ran holds on to no dependencies, callback or errorback |
| LoaderTheorems.WaitsForAcyclic | src/vs/loader.js:1759-1772 | no chain of waiting modules leads back to its start |
| LoaderTheorems.IncompleteIffHeldUp | src/vs/loader.js:1731-1795 | a module that did not fail is incomplete exactly if it waits, through a chain, for an undefined or failed id |
| LoaderTheorems.NoDeadlock | src/vs/loader.js:1731-1795 | without failures everything is complete exactly when every awaited id is defined, whatever cycles there are |
| LoaderTheorems.NothingLost | src/vs/loader.js:1662-1668 | every awaited id is defined, asked for, or queued behind a plugin that was asked for; nothing is asked for twice |
| LoaderTheorems.LoadErrorReach | src/vs/loader.js:1545-1563 | a load error fails exactly the modules that wait for it through a chain, and none of them but the root had completed |
| LoaderReports.LoadErrorReported | src/vs/loader.js:1533-1567 | a load error is told to onError in its own step, exactly if it called no errorback, that is if no module with one is or waits for the id; a definition tells no load error |
| LoaderReports.LoadErrorReports | src/vs/loader.js:1563-1565 | in every reachable state a load error has been told as often as it happened without calling an errorback |
| LoaderOrigins.ErrorOrigin | src/vs/loader.js:1199-1241 | the error of a failed module names the module itself or one that it depends on over declared dependencies, and that one failed to load in a step before, or its factory ran and threw |
| LoaderExports.SpecialsAreOwn | src/vs/loader.js:1808-1824 | every factory was given its own exports, module and require, even within a cycle |
| LoaderExports.WaitingKeepsExports | src/vs/loader.js:1737-1741 | a waiting module still has its first exports object, and exportsPassedIn tells exactly whether it lists `exports` |
| LoaderExports.WillExport | src/vs/loader.js:1199-1229 | when a waiting module has completed, in whatever later state, it exports what the callback it waited with comes to: what its factory returns, or its first exports object if nothing is returned or it listed `exports` and filled it |
| LoaderExports.FactoryErrorsReported | src/vs/loader.js:1832-1836 | in every reachable state the error of each factory that threw, and of no other, has been reported exactly once |
| LoaderExports.PluginDelivers | src/vs/loader.js:1720-1722 | from the moment a plugin hands over a value nobody waits for the resource, and it exports that value exactly if it is neither falsy nor a function, or is a function that returned itself; for a resource that is defined already the value is ignored |
| LoaderExports.HandedValuesLost | src/vs/loader.js:1202-1213 | null and other falsy values, and functions that return something else, nothing, or throw, are not what the resource exports |
| LoaderErrorbacks.FailedKeepsErrorback | src/vs/loader.js:1233-1241 | a module that failed keeps its errorback in every later state |
| LoaderErrorbacks.ErrorbackCalls | src/vs/loader.js:1545-1563 | the errorback of a failed module was called once when it failed, and once more for each later load error of the module itself or of an id that it still waited for |
| LoaderErrorbacks.ErrorbackCalledOnceIff | src/vs/loader.js:1545-1563 | it was called once exactly if there was no such load error |
| LoaderErrorbacks.OnlyFailedCalled | src/vs/loader.js:1233-1241 | the errorbacks that were called are those of the modules that failed |
| LoaderPlugins.IncompleteIffPluginCycle | src/vs/loader.js:1773-1787 | without failures, and with everything defined that was asked for, a module is incomplete exactly if it leads into a cycle of waiting modules and queued resources |
| LoaderPlugins.PluginOnCycle | src/vs/loader.js:1759-1787 | such a cycle always goes through a resource queued behind a plugin |
| LoaderCycles.FindCyclePathReports | src/vs/loader.js:1617-1637 | a result, reversed, follows real dependencies from the start and arrives unless it was cut off |
| LoaderCycles.FindCyclePathFinds | src/vs/loader.js:1617-1637 | a walk to the target, or one too long for the search, is never missed |
| LoaderCycles.CycleReport | src/vs/loader.js:1759-1765 | whenever the guard sees a path there is a report, and with fewer than 51 entries it ends at the target |
| LoaderLimits.PluginCycleDeadlocks | src/vs/loader.js:1773-1787 | a cycle through a plugin leaves two modules incomplete although all that was asked for is defined |
| LoaderLimits.MetFailureNotPassedOn | src/vs/loader.js:1752-1755 | a module that meets a failed dependency fails without telling those that wait for it |
| LoaderLimits.ErrorbackCalledTwice | src/vs/loader.js:1233-1241 | two failing dependencies call the same errorback twice |
| ModuleNames.IdOfStable | src/vs/loader.js:1261-1269 | a name keeps its number, and different names have different numbers |
| ModuleNames.ModuleIdProvider.constructor | src/vs/loader.js:1250-1257 | the pseudo-modules have the numbers 0, 1 and 2 |
| ModuleNames.ModuleIdProvider.GetModuleId | src/vs/loader.js:1261-1269 | a known name gets its number, a new one the next |
| ModuleNames.NormalizedStandsFor | src/vs/loader.js:1438-1458 | the three special names, and only they, give the special dependencies; a name without `!` gives the number of its resolved name; with `!` the resource, the plugin and the parameter are the parts around the first `!`, resolved |
| ModuleNames.NormalizedStandForAll | src/vs/loader.js:1459-1465 | so does every name of a list, in order |
| ModuleIds.NormalizeModuleId | src/vs/loader.js:1121-1138 | both loops end, and the result is that of replacing first matches until none is left |
| ModuleIds.NormalizeIrreducible | src/vs/loader.js:1121-1138 | none of the four patterns occurs in the result, for every string |
| ModuleIds.NormalizeIdempotent | src/vs/loader.js:1121-1138 | normalising twice is normalising once, for every string |
| ModuleIds.NormalizeIsJoin | src/vs/loader.js:1121-1138 | on relative ids without empty segments the rewriting agrees with joinPaths, and `../` only leads |
| ModuleIds.ResolveModuleCases | src/vs/loader.js:1142-1150 | a name that starts with neither `./` nor `../` is left alone, and any other is normalised behind the folder of the module that asks |
| ModuleIds.ResolveModuleJoins | src/vs/loader.js:1142-1150 | a relative name resolves to its join with the folder of the module that asks |
| CssPaths.Push | src/vs/css.build.ts:207-214 | cutting off pieces and pushing them ends with all pieces pushed in order |
| CssPaths.ComputeJoinPaths | src/vs/css.build.ts:172-224 | protocol and host are kept, a rooted second path replaces the first, the rest goes over the stack |
| CssPaths.CommonPrefix | src/vs/css.build.ts:226-234 | the longest common prefix |
| CssPaths.ComputeRelativePath | src/vs/css.build.ts:245-261 | one `../` for each folder below the shared one, and then the rest of the target |
| CssPathTheorems.JoinNormal | src/vs/css.build.ts:186-223 | joining plain paths gives a run of `../` followed by ordinary segments |
| CssPathTheorems.JoinIdempotent | src/vs/css.build.ts:186-223 | a normal path joined with nothing, on either side, stays as it is |
| CssPathTheorems.JoinAssociative | src/vs/css.build.ts:186-223 | joining is associative on plain paths when the left and middle ones are directories |
| CssPathTheorems.RelativeRoundTrip | src/vs/css.build.ts:236-261 | joining the relative path to the folder gives the target exactly if the folders left behind are ordinary |
| CssPathTheorems.RewriteKeepsTarget | src/vs/css.build.ts:141-146 | a rewritten URL keeps its target exactly if the folders of the new file below the shared one are ordinary |
| CssPathTheorems.RewriteIntoOrdinaryFile | src/vs/css.build.ts:141-146 | so it does for every new file without `./`, `../` and empty segments |
| CssPathTheorems.RewriteKeepsRooted | src/vs/css.build.ts:141-146 | a URL from the root keeps its target in every file without a protocol |
| CssPathTheorems.ParentFolderLosesTarget | src/vs/css.build.ts:236-261 | the path from `../x.css` to `a.css` joins to `../../a.css`, and a URL rewritten for that file loses its target |
| CssHosts.PathBehindHost | src/vs/css.build.ts:174-184 | behind each of the three protocols the path starts at the first slash after the host, or right behind the protocol if there is none |
| CssHosts.JoinBehindHost | src/vs/css.build.ts:172-224 | behind a protocol and a host paths are joined as if there were none |
| CssHosts.JoinOntoHost | src/vs/css.build.ts:172-224 | a host without a slash behind it passes for the first piece of the path |
| CssHosts.JoinRooted | src/vs/css.build.ts:217-221 | what starts at the root is joined to the root of anything |
| CssHosts.JoinFromRoot | src/vs/css.build.ts:186-223 | a join in a folder from the root is the join in the folder without the steps up that it starts with |
| CssHosts.RewriteBehindHost | src/vs/css.build.ts:141-146 | for a stylesheet behind a host a URL is rewritten to the whole URL of its target |
| CssHosts.RelativeShared | src/vs/css.build.ts:236-261 | the folders that two paths share are not part of the relative path |
| WrapPreview.EditsReplace | extensions/emmet/src/abbreviationActions.ts:154-170 | replacing sorted, disjoint ranges puts the new texts in place of the old and keeps everything between |
| WrapPreview.TrackRight | extensions/emmet/src/abbreviationActions.ts:172-201 | after each iteration the computed range is where the new text lies in the edited document |
| WrapPreview.StaleRangesIff | extensions/emmet/src/abbreviationActions.ts:158-161 | after a failing expansion the ranges left alone are right exactly if the last replaced text ends on its old line and, for a neighbour on that line, in its old column |
| WrapPreview.FailedPreviewLosesRange | extensions/emmet/src/abbreviationActions.ts:158-161 | a failing expansion after one that adds a line leaves a wrong range |
| WrapPreview.FailedPreviewNotReverted | extensions/emmet/src/abbreviationActions.ts:140-161 | reverting after such a preview leaves a text twice in the document |
| WrapPreview.StaleRangeReverts | extensions/emmet/src/abbreviationActions.ts:140-161 | a wrong range after such a preview may still restore the document |
| WrapPreview.Preview.constructor | extensions/emmet/src/abbreviationActions.ts:112-135 | at first every preview range is the original one and delimits its content |
| WrapPreview.Preview.ApplyPreview | extensions/emmet/src/abbreviationActions.ts:149-204 | in any state: one edit for each expansion before the first that fails, and the ranges that the iterations compute; if the ranges were right, each replaced range delimits its new text, and all are right exactly under the stated condition |
| WrapPreview.Preview.RevertPreview | extensions/emmet/src/abbreviationActions.ts:140-147 | in any state: the original texts are put in place of the current ranges, which become the original ones; if the ranges were right, the document is the original one |
| WrapPreview.Preview.PreviewAndRevert | extensions/emmet/src/abbreviationActions.ts:206-242 | any previews and a revert leave the original ranges, and the original document if every preview with a failing expansion met the stated condition |
| FlatNodes.LookupFinds | extensions/emmet/src/util.ts:342-380 | a node is found exactly if some node contains the offset; it contains it and none of its children does |
| FlatNodes.LookupDeepest | extensions/emmet/src/util.ts:342-380 | without boundaries every node that contains the offset is the found one or above it |
| FlatNodes.LookupFirst | extensions/emmet/src/util.ts:342-380 | in every tree, also with unpaired nodes, a node is found exactly if the search gets to one that contains the offset, and it is the first of these that has no other below it |
| FlatNodes.HitReached | extensions/emmet/src/util.ts:342-380 | the search gets to every node that lies in its parents |
| FlatNodes.LookupTouching | extensions/emmet/src/util.ts:342-380 | with boundaries a node is found wherever one touches the offset, and of those that touch it there the first |
| ItemNavigation.PreorderComplete | extensions/emmet/src/selectItemHTML.ts:36-54 | the reading order lists every element exactly once |
| ItemSelections.PreorderNeighbours | extensions/emmet/src/selectItemHTML.ts:43-101 | the two searches look for the neighbours in reading order |
| ItemNavigation.SelectedNodeFound | extensions/emmet/src/selectItemHTML.ts:10-17 | with a name selected, either end is looked up to its element |
| ItemNavigation.DeepestIsLast | extensions/emmet/src/util.ts:468-478 | getDeepestFlatNode finds the element of the subtree that is read last |
| ItemNavigation.FirstChildBehind | extensions/emmet/src/selectItemHTML.ts:36-40 | the first child element behind the cursor |
| ItemNavigation.ClimbToNext | extensions/emmet/src/selectItemHTML.ts:43-54 | the loop ends at what is read after the subtree of the node |
| ItemNavigation.ChildBefore | extensions/emmet/src/selectItemHTML.ts:75-85 | the deepest element of the last child element among those that end before the cursor |
| ItemNavigation.ClimbToPrevious | extensions/emmet/src/selectItemHTML.ts:89-101 | the loop ends at what is read before the node |
| ItemNavigation.NextNode | extensions/emmet/src/selectItemHTML.ts:10-54 | from the deepest node at the cursor: the node itself in its name, else its first child element behind the cursor, else what is read after it |
| ItemNavigation.PrevNode | extensions/emmet/src/selectItemHTML.ts:59-105 | from the deepest node at the cursor: the node itself behind its name, else the last element among the children in front of the cursor, else what is read before it |
| ItemSelections.NextIsFirstName | extensions/emmet/src/selectItemHTML.ts:10-54 | from any cursor that is in a node the next item is the first element of the document whose name ends behind the cursor |
| ItemSelections.PrevIsLastName | extensions/emmet/src/selectItemHTML.ts:59-105 | from any cursor that is in a node the previous item is the last element whose name starts before the cursor, exactly unless only comments lie between an open tag and the cursor; then the element of that tag is passed over |
| ItemSelections.CommentPassedOver | extensions/emmet/src/selectItemHTML.ts:75-85 | a cursor behind the only comment in an element selects nothing, not that element |
| ItemSelections.NextItem | extensions/emmet/src/selectItemHTML.ts:10-57 | from a selected name to the name of the next element in reading order, and from any cursor to the first name that ends behind it, in documents without attributes |
| ItemSelections.PrevItem | extensions/emmet/src/selectItemHTML.ts:59-109 | from a selected name to the name of the previous element in reading order, and from any cursor as stated, in documents without attributes |
| ItemSelections.NextThenPrev | extensions/emmet/src/selectItemHTML.ts:10-109 | next and then previous comes back |
| ItemSelections.PrevThenNext | extensions/emmet/src/selectItemHTML.ts:10-109 | previous and then next comes back |
| NodesInBetween.RangesIdentify | extensions/emmet/src/util.ts:595-605 | nodes of a document have equal ranges exactly if they are the same node |
| NodesInBetween.Places | extensions/emmet/src/util.ts:562-572 | the comparisons of starts and ends tell ancestors from nodes that lie apart |
| NodesInBetween.ClimbFromFirst | extensions/emmet/src/util.ts:574-577 | the climb from node1 stops at the child of the closest common ancestor, exactly if no ancestor below that child ends where node2 starts |
| NodesInBetween.ClimbFromSecond | extensions/emmet/src/util.ts:579-582 | the climb from node2 always stops at the child of the closest common ancestor |
| NodesInBetween.CollectSiblings | extensions/emmet/src/util.ts:585-592 | the loop takes the siblings from node1 on that start before the position, in order, and no other |
| NodesInBetween.GetNodesInBetween | extensions/emmet/src/util.ts:556-593 | the result is a contiguous run of siblings, in order, whose ranges cover both nodes, exactly if none of four stated cases holds; and what it is in every case: the node that contains the other, the children of the closest common ancestor from the one above node1 to the one above node2, or what the four cases give |
| NodesInBetween.TouchingMissed | extensions/emmet/src/util.ts:574-577 | a node in a rule that ends where node2 starts is not left |
| NodesInBetween.FirstCharacterMissed | extensions/emmet/src/util.ts:564-572 | an ancestor that starts with node1 is taken for a descendant |
| NodesInBetween.WholeDocumentMissed | extensions/emmet/src/util.ts:563-563 | a document that is one node passes for the parent of that node's children |
| PartialStylesheet.DocumentStreamReader.constructor | extensions/emmet/src/bufferStream.ts:21-26 | the cursor starts at the given place with the given limits |
| PartialStylesheet.DocumentStreamReader.Next | extensions/emmet/src/bufferStream.ts:64-78 | hands out the character and moves on, but not beyond the end |
| PartialStylesheet.DocumentStreamReader.BackUp | extensions/emmet/src/bufferStream.ts:84-90 | moves back, but not in front of the document, and hands out what is there |
| PartialStylesheet.DocumentStreamReader.Eat | extensions/emmet/src/bufferStream.ts:121-130 | moves on exactly over the given character |
| PartialStylesheet.DocumentStreamReader.EatWhile | extensions/emmet/src/bufferStream.ts:136-140 | moves over the longest run of the character, and tells whether there was one |
| PartialStylesheet.ConsumeLineCommentBackwards | extensions/emmet/src/util.ts:217-226 | on a line that was not searched the cursor moves to the first line comment of the line, even forward, and stays if there is none; on a searched line, and in CSS, it stays |
| PartialStylesheet.ConsumeBlockCommentBackwards | extensions/emmet/src/util.ts:228-236 | behind a block comment the cursor moves to the last opening before it |
| PartialStylesheet.ConsumeCommentForwards | extensions/emmet/src/util.ts:238-247 | the cursor moves behind the comment that starts there, or over the slashes, and always on |
| PartialStylesheet.FindEnd | extensions/emmet/src/util.ts:249-260 | the end is behind the first closing brace that is read outside comments, or that of the document |
| StylesheetReading.BlockCommentSkipped | extensions/emmet/src/util.ts:238-247 | from the opening of a block comment that is read, nothing is read up to behind its first end, and that place is; without an end nothing more is |
| StylesheetReading.LineCommentSkipped | extensions/emmet/src/util.ts:238-247 | outside CSS nothing of the line behind two slashes is read, and the start of the next line is |
| StylesheetReading.DoubleSlashInCSS | extensions/emmet/src/util.ts:238-247 | in CSS two slashes count as one, which may open a block comment |
| StylesheetReading.OtherwiseRead | extensions/emmet/src/util.ts:249-260 | behind a place that starts no comment the next place is read |
| StylesheetReading.SkippedAreComments | extensions/emmet/src/util.ts:217-236 | backwards, every place that is not read lies in a line comment or in a block that ends at a place that is read |
| StylesheetReading.LineCommentsUnread | extensions/emmet/src/util.ts:217-226 | nothing in a line comment is read, but for line breaks and the first character |
| StylesheetReading.BlockCommentsUnread | extensions/emmet/src/util.ts:228-236 | where the end of a block comment is read, what is read before lies in front of its opening, or in front of a line comment on the line of the opening |
| PartialStylesheet.StepBack | extensions/emmet/src/util.ts:268-271 | line, pending search of the line, and place decrease lexicographically |
| PartialStylesheet.PlacesBeforeIncrease | extensions/emmet/src/util.ts:217-236 | reading backwards, with all moves over comments, reads each place at most once and in order |
| PartialStylesheet.SeenWithoutComments | extensions/emmet/src/util.ts:217-236 | where there are no comments everything in front of the position is read |
| PartialStylesheet.FindBrace | extensions/emmet/src/util.ts:262-295 | the search ends at an opening brace, in CSS behind a closing one, or at its limits; of what is read without comments it finds the innermost open brace within the limits, in CSS the last brace of all, exactly if there is one |
| PartialStylesheet.FindSelector | extensions/emmet/src/util.ts:297-329 | the start is a character of a selector before the brace: of what is read without comments the last one that is in no block, exactly if there is one behind the first character |
| PartialStylesheet.ParsePartialStylesheet | extensions/emmet/src/util.ts:189-337 | all loops end, start and end enclose the position within the document, the buffer has every character at its place, and the start is exactly that of the rule set around the position, as it is read without comments |
| RemoveTag.CalculateIndentAmountToRemove | extensions/emmet/src/removeTag.ts:130-156 | the amount the loop computes, with a minimum of zero forgotten |
| RemoveTag.ContentIndentFinds | extensions/emmet/src/removeTag.ts:137-144 | that minimum is the one behind the last full line at column 0 |
| RemoveTag.AmountFitsIff | extensions/emmet/src/removeTag.ts:130-156 | the amount is white space on every shifted line exactly if no line at column 0 is forgotten |
| RemoveTag.ShiftInnerLines | extensions/emmet/src/removeTag.ts:76-87 | one range for each full inner line, and the first and last of them |
| RemoveTag.GetRangesToRemove | extensions/emmet/src/removeTag.ts:38-114 | which ranges are removed, in all cases |
| RemoveTag.RemovalLosesOnlySpace | extensions/emmet/src/removeTag.ts:38-156 | the ranges lie in the document, in order and apart, and remove both tags and else only white space, exactly if only white space is inside, or no line at column 0 is forgotten and no line of the opening tag is shifted |
| RemoveTag.IndentedRemovalLosesOnlySpace | extensions/emmet/src/removeTag.ts:38-156 | with no full inner line at column 0 it is so exactly if only white space is inside or no line of the opening tag is shifted |
| RemoveTag.ShallowestMeetsTags | extensions/emmet/src/removeTag.ts:146-155 | then the shallowest inner line comes to the depth of the deeper tag, or nothing moves |
| RemovedText.OwnLineIff | extensions/emmet/src/removeTag.ts:116-125 | a tag has its line to itself exactly if only white space is beside it |
| RemovedText.GoneExactly | extensions/emmet/src/removeTag.ts:38-114 | which characters are removed: the tags, the lines they have to themselves, and the same columns of every full line between |
| RemovedText.ClosingLineBreaks | extensions/emmet/src/removeTag.ts:89-99 | the line breaks from the last full line up to the closing tag are removed exactly if the tag has its line to itself |
| RemovedText.OpeningLineBreaks | extensions/emmet/src/removeTag.ts:101-110 | those from the opening tag up to the first full line are removed exactly if that tag has its line to itself |
| RemovedText.FullLinesLose | extensions/emmet/src/removeTag.ts:78-110 | the first full line behind an opening tag with its own line loses exactly its indent, every other full line exactly the columns of the amount |
| RemovedText.OnlySpaceIff | extensions/emmet/src/removeTag.ts:54-66 | the text between the tags is taken for blank exactly if each line is white space as far as it is between them |
| RemovedText.SpaceInsideGone | extensions/emmet/src/removeTag.ts:54-69 | with only white space inside, everything from tag to tag is removed |
| RemoveTag.ForgottenLineLosesText | extensions/emmet/src/removeTag.ts:142-142 | a line at column 0 above a deeper one loses text |
| RemoveTag.TagLineOverlaps | extensions/emmet/src/removeTag.ts:76-87 | the range of a shifted line that the opening tag reaches into overlaps with that of the tag |
| RemoveTag.TagOnTwoLinesOverlaps | extensions/emmet/src/removeTag.ts:76-87 | an opening tag on two lines gives such ranges |
| Words.FindNextWord | extensions/emmet/src/util.ts:480-516 | the first word behind the next space; nothing exactly if there is none |
| Words.FindPrevWord | extensions/emmet/src/util.ts:518-554 | the last word in front of the last space; the empty range at 0 exactly if there is such a space but no such word |
| Throttle.RunInvariant | extensions/git-base/src/decorators.ts:21-48 | every step of the protocol keeps its invariant |
| Throttle.AtMostOneInFlight | extensions/git-base/src/decorators.ts:30-45 | at most one run is in flight, even when runs fail |
| Throttle.CallsDuringRunShare | extensions/git-base/src/decorators.ts:26-37 | all calls during one run get the same promise |
| Throttle.RunsStart | extensions/git-base/src/decorators.ts:25-45 | a step adds a run exactly if it is a call with nothing current and nothing pending, or the firing of a follow-up, which had none and is given that run |
| Throttle.CallsRecorded | extensions/git-base/src/decorators.ts:25-37 | a follow-up is made exactly by a call with a run current and nothing kept, which gets its promise; nothing else makes calls or follow-ups |
| Throttle.FollowUpArguments | extensions/git-base/src/decorators.ts:30-37 | the run of a follow-up has the arguments of the call that made it, the first that got its promise |
| Throttle.SettledHoldNothing | extensions/git-base/src/decorators.ts:39-42 | a settled run holds no reactions any more |
| Throttle.StartedForGood | extensions/git-base/src/decorators.ts:30-34 | the run that a follow-up started stays its run in every later state |
| Throttle.FiresOnce | extensions/git-base/src/decorators.ts:30-34 | a follow-up fires at most once in a run |
| Throttle.FollowUpsApart | extensions/git-base/src/decorators.ts:30-34 | a follow-up starts a run later than the one it was made in and not after the next follow-up is made |
| Throttle.AnswerIsFresh | extensions/git-base/src/decorators.ts:25-45 | every call is answered by a run that starts no earlier than the call |
| Throttle.AllAnsweredIff | extensions/git-base/src/decorators.ts:30-34 | once all is quiet every follow-up had its run exactly if none was made in a run that failed |
| Throttle.StuckForever | extensions/git-base/src/decorators.ts:26-34 | the follow-up of a failed run is never forgotten: no run starts any more |
| Throttle.FailureCanGetStuck | extensions/git-base/src/decorators.ts:26-34 | two calls and a failure lead there |
| Throttle.Throttled.DoTrigger | extensions/git-base/src/decorators.ts:25-45 | `trigger` takes the state and returns the promise that the specification says |
| Throttle.Throttled.Invoke | extensions/git-base/src/decorators.ts:25-45 | the same for a call, with the invariant |
| Throttle.Throttled.SettleRun | extensions/git-base/src/decorators.ts:39-42 | a settling run queues its reactions in the order they were chained |
| Throttle.Throttled.FireFollowUp | extensions/git-base/src/decorators.ts:31-34 | the kept promise is dropped before the call is made |
| Throttle.Throttled.NextMicrotask | extensions/git-base/src/decorators.ts:31-42 | microtasks run one at a time, in order |

## Left out

Loader:

- ModuleManagers.Module.Complete: a thrown value that is falsy counts as returning null, which is what `loader.js:1206-1211` makes of it.
- Factories are opaque values: they do not call `require`, `define` or `config`, and exports objects change only as `filledExports` tells.
- A plugin whose `load` calls back or requires at once (`src/vs/css.ts:77`, `src/vs/nls.ts:127` and `154`), or a script that loads at once, makes a definition inside another one. That is no step of a run; what `LoaderNested.dfy` states of it is the invariant, for definitions inside the iterations of `_resolve`, and not for those made while a completed plugin is asked for its queued resources; `LoaderAtOnce.dfy` says what comes of one resource.
- Exceptions are caught, as `src/bootstrap-amd.js:19` configures (`catchError: true`); `shouldInvokeFactory`, build mode and build information, statistics, console warnings and configuration are left out.
- A load stands for all paths that are tried for a module; script loaders, DOM, `vm` and file code are left out.
- ModuleManagers.ModuleManager.LoadPluginDependency: it is assumed that every plugin that completes exports a `load` function. One that failed or exports none makes the loader throw in the middle of `_resolve` or of a completion (`loader.js:1725`), and nothing is stated of what follows. `load.error` of a plugin only reports and is left out.
- Two anonymous definitions in one script make the second one throw; that check, `synchronousRequire` and the generated names of `require` calls are left out.

CSS paths:

- Finding the URLs with a regular expression and inlining images as data URLs are left out; a URL is given.
- An empty segment resets the stack and is excluded where the algebra is stated; `joinPaths` itself is modelled with it.

Emmet:

- WrapPreview.Preview.ApplyPreview: takes the formatted text; removing tabstops and placeholders (`abbreviationActions.ts:166-169`) is left out, and lines end with `\n` only. The editor is a parameter that is known for edits in order; what it makes of ranges that overlap or run backwards after a failing expansion is not stated.
- RemoveTag.GetRangesToRemove: takes the tags and lines; looking up the node and several selections are left out.
- ItemSelections.NextItem: elements are closed and have no attributes; attributes and words within them are left out.
- ItemSelections.PrevItem: the same; for a selection that is neither empty nor a name, what it selects is stated from the node at its start only (ItemNavigation.PrevNode).
- NodesInBetween.GetNodesInBetween: nodes are not empty and do not have exactly the range of their parent, unless that is the document; ranges would not tell nodes apart otherwise.
- PartialStylesheet.DocumentStreamReader.Eat: takes a character, not a function; `limit`, `current`, `substring` and `error` of the cursor are left out.
- PartialStylesheet.ParsePartialStylesheet: the position is one of the document, and the parser that gets the buffer is left out.
- FlatNodes.LookupFinds: trees are values; the subtrees that script and cdata nodes get later are left out.
- The expansion of abbreviations, the HTML and CSS parsers, commands, settings and completion are left out.

throttle:

- A function that throws instead of returning a promise, and several decorated methods on one object, are left out; microtasks of other code do not change the order of these and are left out too.
