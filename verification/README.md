# dic — a Dafny model of the container and its graph audits

`dic` is a small dependency-injection container for TypeScript. Abstractions
are `Symbol` tokens. The container maps each token to a registration: its
dependencies, a factory, a life cycle (`singleton` or `transient`) and a chain
of interceptors. `get` builds a concretion depth first. It takes dependencies
from an `inject` map when they are there, applies the factory, folds the
interceptors from right to left, and memoizes singletons. Around the container
sit read-only audits of its registry:

- `validateDependencyGraph` runs a fixed sequence of checks: duplicates in the
  entry-point and ignore lists, overlap between them, unregistered ignored
  tokens, cycles, dead registrations, and agreement between the registry and
  the `TYPES` name table.
- The printer draws the dependency tree of a root token.

The model is written over immutable values:

- A JavaScript `Map` is `JsMaps.JsMap`: its keys in insertion order plus a
  Dafny `map`.
- A thrown error is the `Err`/`Fail` side of `Errors.Result`/`Errors.Outcome`.
  Each variant of `Errors.Error` carries the token, index or list that
  locates the defect.
- Factories and interceptors are foreign code. A concretion is a term over
  them (`Types.Value`): `Made(factory, args)`, `Wrapped(interceptor, value)`
  and `Supplied(id)` for injected values. Every fact about `get` therefore
  holds whatever the callbacks compute.
- `TYPES` is the list of its `Object.entries`, in property order.

Modules, one per part of the program:

| module | file | models |
|---|---|---|
| `Types`, `JsMaps`, `Errors` | types.dfy, jsmaps.dfy, errors.dfy | the data model of src/types.ts, JS `Map`, the error conditions |
| `Lookup` | lookup.dfy | the registry lookups and the `register` guards |
| `Container` | container.dfy | `Dic`: `register`, `unregister`, `get`, `clearMemoizationTable` |
| `EsUtils` | esutils.dfy | the first-duplicate and first-overlap array helpers |
| `CycleDetection` | cycles.dfy | `detectCycles` |
| `Liveness` | liveness.dfy | `isLiveAbstraction` and the older `throwIfDeadRegistrations` |
| `TypesAudit` | typestable.dfy | the two `TYPES` audits and the reverse `TYPES` lookup |
| `Validation` | validation.dfy | `validateDependencyGraph` |
| `JsStrings` | jsstrings.dfy | number-to-decimal and `String.prototype.trim` |
| `Printer` | printer.dfy | `printDependencyGraph` and `printDependencyTree` |
| `PrinterExamples` | printer_examples.dfy | the printer test's diamond-shaped graph, printed in full |
| `CycleExamples` | cycles_examples.dfy | the two graphs of the cycle-detection test, with the cycle each reports |
| `LayoutExamples` | layout_examples.dfy | the depth-first layout on two small graphs: a sibling-first order it rules out, and a shared token expanded once and marked at its second line |
| `Fixtures` | fixtures.dfy | the registration shape the examples build their graphs from |
| `Graph`, `Seqs` | graph.dfy, seqs.dfy | walks, cycles and reachability; sequence helpers |

The central results:

- **Memoization is transparent.** From a table that holds only what building
  from scratch gives, `get` returns exactly that value.
  (`Container.GetIsDenote`)
- **Cycle detection is exact.** `detectCycles` passes exactly when every walk
  from an entry point visits distinct, registered tokens.
  (`CycleDetection.DetectCyclesPasses`)
- **Liveness marking is exact.** `isLiveAbstraction` marks exactly the ignored
  tokens and the tokens reachable from an entry point without passing through
  an ignored one. (`Liveness.IsLiveAbstractionMarksUsed`)
- **Validation is exact.** `validateDependencyGraph` passes exactly on graphs
  that meet a declarative soundness predicate.
  (`Validation.ValidateDependencyGraphPasses`)
- **The printer's guarantees.**
  - It succeeds exactly when everything reachable from the root is registered
    and named.
  - Its header counts exactly the reachable tokens.
  - A successful print is the header with that count, a blank line, the
    root's name, then the edge lines in depth-first order. Each dependency's
    line, named by its `TYPES` key, is followed directly by the lines of its
    subtree, one level deeper and carrying its last-child flag, and then by
    its later siblings. A token's subtree is printed at its first line in
    that order, and the root counts as printed. At every later line of the
    token nothing is printed under it, and the line carries the marker
    exactly when the token has dependencies. In total there is one edge line
    per dependency of each reachable token. (`Printer.ChildrenShape`,
    `Printer.RenderText`)
  - There is only one such layout, so the text is determined by the
    registry, `TYPES` and the glyphs. (`Printer.LaysOutUnique`)
  - On the test suite's diamond-shaped graph it prints the expected text,
    character for character.

## Model

| member | source | states |
|---|---|---|
| Container.NewDic | src/Dic/Dic.ts:13-16 | a new container has an empty registry and an empty memo table |
| Container.RegisterChecks | src/Dic/Dic.ts:40-43 | the four guards run in source order: empty token name, factory named "factory", token already registered, arity differing from the dependency count. The first that fails decides the error, and all pass exactly when none applies |
| Container.Register | src/Dic/Dic.ts:25-52 | succeeds exactly when the guards pass, otherwise returns the first guard's error. On success: one new key at the end of the registry's order; the stored registration is `{abstraction, dependencies, factory, lifeCycle, intercept ?? []}`; every other key and the memo table are unchanged |
| Container.Unregister | src/Dic/Dic.ts:54-57 | returns true exactly when the key was present, removes only that key from the registry's keys and order, and leaves the memo table untouched |
| Container.UnregisterUndoesRegister | src/Dic/Dic.ts:45-56 | unregistering a token just registered gives back the original container, key order included |
| Container.InterceptIsNest | src/Dic/Dic.ts:78 | the right-to-left fold over `[I1..In]` equals `I1(I2(…In(v)))`, so the last-listed interceptor is applied first |
| Container.Get | src/Dic/Dic.ts:59-85 | an unregistered token fails with AbstractionNotRegistered and no change, even when a memo entry survives. A memoized token returns its entry with no factory call. A fresh build calls the requested token's factory last and memoizes singletons only. The registry and existing memo entries never change, and no factory of an injected token is called |
| Container.ResolveDependencies | src/Dic/Dic.ts:69-76 | dependencies are resolved in declared order, one value each; an injected dependency gets the injected value verbatim, and none of its factories is called |
| Container.GetIsDenote | src/Dic/Dic.ts:59-85 | from a memo table whose entries equal their from-scratch builds, `get` returns the from-scratch build (dependencies injected or built, factory applied, interceptors nested) and keeps the table in that state |
| Container.ResolveIsDenoteAll | src/Dic/Dic.ts:69-76 | the same for the dependency list: resolving equals building each dependency from scratch, in order |
| Container.ClearFrom | src/Dic/Dic.ts:19-22 | deleting the remaining memo keys in order passes exactly when all are registered. A failure names the first unregistered key and leaves the keys from it on in the table |
| Container.ClearMemoizationTable | src/Dic/Dic.ts:18-23 | passes exactly when every memoized key is registered, leaving the table empty. Otherwise fails with the first unregistered key in insertion order, keeping the entries from that key on. The registry is never changed |
| Lookup.GetRegistrationStrictOf | src/Dic/getRegistrationStrictOf.ts:8-14 | returns the stored registration exactly when the token is a key; otherwise AbstractionNotRegistered carrying the token |
| Lookup.StrictLookupFindsOwnRegistration | src/Dic/Dic.ts:45-46 | in a registry kept by `register`, the registration found for a token has that token as its abstraction |
| Lookup.GetRegistrationOf | src/Dic/getRegistrationOf.ts:8-14 | the older lookup: the stored registration when present, AbstractionNotRegistered when absent |
| Lookup.LookupsAgree | src/Dic/getRegistrationOf.ts:9-13 | the older lookup, defined on its own as a map read whose `undefined` goes to `logAndError`, returns on every input what the strict lookup of src/Dic/getRegistrationStrictOf.ts returns |
| Lookup.ThrowIfAlreadyRegistered | src/Dic/throwIfAlreadyRegistered.ts:7-9 | fails with AbstractionAlreadyRegistered exactly when the token is a key |
| Lookup.ValidateNumberOfDependencies | src/Dic/validateNumberOfDependencies.ts:8-10 | fails exactly when the factory's arity differs from the number of dependencies |
| Lookup.FirstUnregistered | src/validateDependencyGraph/validateDependencyGraph.ts:69-75 | the index of the first ignored token, in list order, that is not registered; every token before it is registered |
| EsUtils.IndexOfFirstDuplicate | src/es-utils/getIndexOfFirstDuplicateValueOfArray.ts:11-24 | -1 exactly when all elements are distinct. Otherwise an index r that is its value's first occurrence; the value recurs at some j > r with `a[..j]` duplicate-free, so j is the first index whose value occurred before |
| EsUtils.IndexOfFirstDuplicateLoop | src/es-utils/getIndexOfFirstDuplicateValueOfArray.ts:13-23 | `getIndexOfFirstDuplicateValueOfArray`'s single pass with a map of first indices returns the value characterised by `IndexOfFirstDuplicate` |
| EsUtils.LastIndexMap | src/es-utils/getFirstOverlappingElementData.ts:22 | the map built from `array2` holds exactly its values, each with its last index, since later entries overwrite earlier ones |
| EsUtils.FirstOverlappingElement | src/es-utils/getFirstOverlappingElementData.ts:20-33 | null exactly when no element of `array1` occurs in `array2`. Otherwise `index1` is the smallest index of `array1` whose element occurs in `array2`, the element is `array1[index1]`, and `index2` is its last index in `array2` |
| EsUtils.FirstOverlappingElementLoop | src/es-utils/getFirstOverlappingElementData.ts:22-33 | `getFirstOverlappingElementData`'s map-then-scan returns the value characterised by `FirstOverlappingElement` |
| CycleDetection.Explore | src/validateDependencyGraph/detectCycles.ts:32-46 | the recursion over one token's dependencies, from a simple path of registered tokens. A reported cycle is a real cycle of the registry, starting at the repeated token. It is the active path at the moment of the throw, which extends the current path and ends in a token depending on the repeated one, cut at the repeated token's first occurrence. It and any unregistered token reported are reachable from the path's start. The confirmed set only grows and holds only registered leaves |
| CycleDetection.ClosingDependency | src/validateDependencyGraph/detectCycles.ts:33-36 | a dependency already on the path closes a cycle: the path from that dependency's first occurrence is a real cycle starting at it, it is the active path's suffix, and the dependency is reachable from the path's start |
| CycleDetection.DetectFrom | src/validateDependencyGraph/detectCycles.ts:23-48 | the entry loop: every reported cycle or unregistered token is reachable from one of the remaining entries |
| CycleDetection.DetectCycles | src/validateDependencyGraph/detectCycles.ts:5-49 | fails only with a real cycle or an unregistered token, either reachable from an entry point. A cycle report is the active path, a simple path from an entry point whose last token depends on the root, from the root's first occurrence on |
| CycleExamples.SelfLoopReported | src/validateDependencyGraph/validateDependencyGraph.test.ts:57-83 | a token that depends on itself is reported as the one-token cycle `[a]` with root `a` |
| CycleExamples.LoopReported | src/validateDependencyGraph/validateDependencyGraph.test.ts:84-202 | with a → b, c; c → d, ac; d → e; ac → a and entry points f, d, e, a, the cycle reported is `[a, c, ac]` with root `a` |
| CycleDetection.ExploreComplete | src/validateDependencyGraph/detectCycles.ts:32-46 | when the recursion passes, every walk leaving the path through a remaining dependency extends it to a simple path of registered tokens |
| CycleDetection.DetectCyclesComplete | src/validateDependencyGraph/detectCycles.ts:23-48 | when the audit passes, every walk from an entry point visits distinct, registered tokens |
| CycleDetection.ReachableCycleIsDetected | src/validateDependencyGraph/detectCycles.ts:33-36 | a cycle reachable from an entry point makes the audit fail |
| CycleDetection.DetectCyclesPasses | src/validateDependencyGraph/detectCycles.ts:5-49 | the audit passes exactly when every walk from an entry point visits distinct, registered tokens |
| Liveness.InitialFlags | src/validateDependencyGraph/isLiveAbstraction.ts:22-24 | one flag per registered token, all false |
| Liveness.MarkIgnored | src/validateDependencyGraph/isLiveAbstraction.ts:27-30 | succeeds exactly when every ignored token is registered, and then marks exactly the ignored tokens in addition. Otherwise fails with AbstractionNotRegistered naming the first unregistered ignored token in list order |
| Liveness.Mark | src/validateDependencyGraph/isLiveAbstraction.ts:34-42 | one `recurse`: the arity check, then the dependencies. Marks only grow, the key set is kept, and failures are lookups or arity checks |
| Liveness.MarkDeps | src/validateDependencyGraph/isLiveAbstraction.ts:37-41 | after the loop every remaining dependency is marked; marks only grow |
| Liveness.MarkEntries | src/validateDependencyGraph/isLiveAbstraction.ts:32-43 | every entry point ends marked; marks only grow |
| Liveness.IsLiveAbstraction | src/validateDependencyGraph/isLiveAbstraction.ts:11-46 | on success the flags cover exactly the registered tokens, and every ignored token and entry point is marked |
| Liveness.IsLiveAbstractionMarksUsed | src/validateDependencyGraph/isLiveAbstraction.ts:32-43 | a token ends marked exactly when it is ignored or reachable from an entry point along a walk that passes through no ignored token |
| Liveness.IsLiveAbstractionSucceeds | src/validateDependencyGraph/isLiveAbstraction.ts:26-43 | succeeds exactly when every ignored token is registered and every token the walk descends into is registered with a factory of the right arity |
| Liveness.DeadAbstractions | src/validateDependencyGraph/validateDependencyGraph.ts:90 | the keys whose flag is false, as an order-preserving selection of the keys: a strictly increasing index sequence picking exactly the positions whose flag is false. Duplicate-free when the keys are |
| Liveness.DeadInRegistryOrder | src/validateDependencyGraph/validateDependencyGraph.ts:84-90 | after a successful walk, the dead list picks, in registry order, exactly the registrations that are neither ignored nor reachable from an entry point |
| Liveness.DeadAreUnused | src/validateDependencyGraph/validateDependencyGraph.ts:84-98 | a token is in the dead list exactly when it is registered, not ignored and not reachable from an entry point |
| Liveness.ThrowIfDeadRegistrations | src/throwIfDeadRegistrations.ts:7-36 | the older audit fails only with a non-empty dead list carrying the entry points, a lookup failure or an arity failure. The dead list is the one the newer walk with no ignored tokens leaves, and a lookup or arity failure is the one that walk reports |
| Liveness.ThrowIfDeadRegistrationsReportsUnused | src/throwIfDeadRegistrations.ts:28-35 | the older audit's dead list picks, in registry order, exactly the registrations not reachable from an entry point |
| Liveness.ThrowIfDeadRegistrationsPasses | src/throwIfDeadRegistrations.ts:7-36 | the older audit passes exactly when the walk succeeds and every registered token is reachable from an entry point |
| TypesAudit.MissingFromTypes | src/validateDependencyGraph/throwIfMissingAbstractionsFromTypes.ts:10-14 | the registrations' abstractions that are not among the `TYPES` values. In a registry kept by `register` this is an order-preserving selection of the keys, picking exactly the positions whose token `TYPES` does not hold |
| TypesAudit.ThrowIfMissingAbstractionsFromTypes | src/validateDependencyGraph/throwIfMissingAbstractionsFromTypes.ts:16-23 | fails exactly when some registered token is not a `TYPES` value, reporting the whole missing list with the entry points |
| TypesAudit.ExtraInTypes | src/validateDependencyGraph/throwIfExtraAbstractionsFromTypes.ts:10-13 | the `TYPES` values that are not registered, as an order-preserving selection of the property list: exactly the unregistered positions, so a token held by two properties is listed twice |
| TypesAudit.ThrowIfExtraAbstractionsFromTypes | src/validateDependencyGraph/throwIfExtraAbstractionsFromTypes.ts:15-22 | fails exactly when some `TYPES` value is not registered, reporting the whole extra list with the entry points |
| TypesAudit.TypesMatchRegistry | src/validateDependencyGraph/validateDependencyGraph.ts:101-112 | both audits pass exactly when the set of `TYPES` values is the set of registered tokens |
| TypesAudit.SymbolToTypesKey | src/printDependencyTree/symbolToTypesKeyFactory.ts:11-15 | finds a key exactly when the token is a `TYPES` value; otherwise SymbolNotInTypes carrying the token |
| TypesAudit.SymbolToTypesKeyIsLast | src/printDependencyTree/symbolToTypesKeyFactory.ts:7-9 | the key found is the last one in entry order that holds the token |
| TypesAudit.SymbolIndex | src/printDependencyTree/symbolToTypesKeyFactory.ts:5-9 | the factory's map holds exactly the `TYPES` values, each mapped to the key the lookup returns |
| Validation.ValidateDependencyGraph | src/validateDependencyGraph/validateDependencyGraph.ts:25-113 | an absent ignore list is `[]`. The duplicate checks come first, each carrying the helper's index. The overlap error names the first entry point that is also ignored. With the lists sound, the first unregistered ignored token decides the error, and otherwise the graph checks do. A cycle error names a real cycle. A dead list picks, in registry order, exactly the registered, non-ignored, unreachable tokens |
| Validation.IgnoredChecks | src/validateDependencyGraph/validateDependencyGraph.ts:56-112 | after the duplicate checks: an overlap fails first, naming the first entry point in list order that is also ignored; then the first unregistered ignored token; then the graph checks |
| Validation.GraphChecks | src/validateDependencyGraph/validateDependencyGraph.ts:77-112 | the cycle audit's failure decides first; otherwise the liveness checks decide |
| Validation.LivenessChecks | src/validateDependencyGraph/validateDependencyGraph.ts:83-112 | a failed walk decides first, then a non-empty dead list, then the missing-names audit, then the extra-names audit. A dead list picks, in registry order, exactly the registered, non-ignored, unreachable tokens |
| Validation.ChecksPass | src/validateDependencyGraph/validateDependencyGraph.ts:32-112 | when each check in the sequence passes, the validation passes |
| Validation.PassMeansSound | src/validateDependencyGraph/validateDependencyGraph.ts:25-113 | a graph that passes validation is sound. Soundness: both lists duplicate-free and disjoint; ignored tokens registered; every walk from an entry simple and registered; every expanded token of the right arity; every registration used or ignored; `TYPES` naming exactly the registered tokens |
| Validation.SoundMeansPass | src/validateDependencyGraph/validateDependencyGraph.ts:25-113 | a sound graph passes validation |
| Validation.ValidateDependencyGraphPasses | src/validateDependencyGraph/validateDependencyGraph.ts:25-113 | validation passes exactly on sound graphs |
| JsStrings.NatToString | src/printDependencyTree/printDependencyGraph.ts:81 | the decimal form of the count: non-empty, digits only, no leading zero |
| JsStrings.NatToStringRoundTrip | src/printDependencyTree/printDependencyGraph.ts:81 | reading the decimal form back gives the number |
| JsStrings.Trim | src/printDependencyTree/printDependencyGraph.ts:83 | `trim` returns a slice that neither starts nor ends with whitespace; only whitespace is cut on either side |
| JsStrings.TrimUnchanged | src/printDependencyTree/printDependencyGraph.ts:83 | a string with no whitespace at either end is its own trim |
| Printer.SegmentFor | src/printDependencyTree/printDependencyGraph.ts:68-76 | every indentation segment, last child or not, is one column wider than the twig |
| Printer.Segments | src/printDependencyTree/printDependencyGraph.ts:37 | the `intend` stack holds one segment per enclosing loop, the one for its last-child flag |
| Printer.EdgeColumn | src/printDependencyTree/printDependencyGraph.ts:64-76 | an edge line at depth k starts with k·(\|twig\|+1) columns of indentation, followed by the twig |
| Printer.Visit | src/printDependencyTree/printDependencyGraph.ts:48-79 | on success the token is registered and expanded; the state only grows (edges extended, common set enlarged, count increased by the number of newly expanded tokens). A revisit changes no count; its edge gets the marker exactly when the token has dependencies. Errors are lookups or missing names |
| Printer.Children | src/printDependencyTree/printDependencyGraph.ts:62-78 | the loop over the dependencies: the state only grows and every remaining dependency ends expanded |
| Printer.ChildrenShape | src/printDependencyTree/printDependencyGraph.ts:51-78 | on success the lines before are kept, and the appended lines are the depth-first layout (`LaysOut`) of the remaining dependencies, given the tokens expanded already. For each `deps[j]` in order comes its edge, with child `deps[j]` and its `TYPES` key as name. Directly below it come the lines of its visit, under the loop's indentation plus the flag `j == \|deps\| - 1`. If `deps[j]` was expanded at an earlier line, nothing is printed below it and the edge is marked exactly when `deps[j]` has dependencies. Otherwise the edge is unmarked, and `deps[j]`'s own dependencies are laid out below with `deps[j]` counted as expanded. The later siblings follow, laid out with every token printed so far counted as expanded. Afterwards the expanded tokens are those before plus every token the new lines lead to. The number of appended edges is the remaining dependencies plus one per dependency of each token expanded below |
| Printer.LaysOutTop | src/printDependencyTree/printDependencyGraph.ts:62-65 | the lines of a layout at the loop's own depth are exactly one edge per remaining dependency, in order, each named by its `TYPES` key |
| Printer.LaysOutUnder | src/printDependencyTree/printDependencyGraph.ts:68-74 | every line of a layout is indented at least by its loop's indentation |
| Printer.VisitShape | src/printDependencyTree/printDependencyGraph.ts:48-79 | a visit adds one edge line per dependency of each token it expands. When its token was not expanded yet, it keeps the lines before and appends the depth-first layout of that token's dependencies at the visit's depth, with the tokens expanded before and the token itself counted as expanded. Afterwards the expanded tokens are those before, the token, and every token the new lines lead to |
| Printer.VisitBelow | src/printDependencyTree/printDependencyGraph.ts:50-78 | after an edge is printed, the visit of its child leaves the lines before the edge unchanged and appends the child's subtree under the edge. If the child was expanded already, the subtree is nothing and the edge is marked exactly when the child has dependencies. Otherwise the edge stays unmarked and the subtree is the layout of the child's dependencies, with the child counted as expanded. Afterwards the expanded tokens are those before, the child, and every token in its subtree |
| Printer.WalkShape | src/printDependencyTree/printDependencyGraph.ts:48-79 | the walk's lines are the depth-first layout of the root's dependencies at depth 0, with only the root counted as expanded at the start. So each token is expanded at its first line and at no later one. There is one edge per dependency of each expanded token |
| Printer.WalkCommonIsReachable | src/printDependencyTree/printDependencyGraph.ts:51-58 | a successful walk expands exactly the registered tokens reachable from the root |
| Printer.Walk | src/printDependencyTree/printDependencyGraph.ts:48-79 | the count equals the number of distinct tokens expanded, the root among them |
| Printer.Render | src/printDependencyTree/printDependencyGraph.ts:26-83 | an unnamed root fails first with SymbolNotInTypes, then a twig shorter than the stem with TwigShorterThanStem; other errors are lookups or missing names |
| Printer.RenderText | src/printDependencyTree/printDependencyGraph.ts:26-83 | a successful print is the trim of: the heading, the number of tokens reachable from the root, two newlines, the root's name, then one rendered line per edge. The edges are the depth-first layout of the root's dependencies, with the root counted as printed. Each dependency's edge, named by its `TYPES` key, is followed directly by its subtree, one level deeper with its last-child flag. A token's subtree is the layout of its dependencies at its first line in print order. At every later line it is empty, and the edge is marked exactly when the token has dependencies. There is one edge per dependency of each reachable token |
| Printer.PrintDependencyGraph | src/printDependencyTree/printDependencyGraph.ts:7-84 | the same failure order, with the glyphs as a parameter |
| Printer.PrintDependencyGraphText | src/printDependencyTree/printDependencyGraph.ts:81-83 | the text of a successful print, as `RenderText` states it, under the heading `total number of unique components: ` |
| Printer.PrintDependencyTree | src/printDependencyTree/printDependencyTree.ts:12-91 | the older printer, with fixed glyphs `\|_`, `\|`, `<*>`, never fails the twig check |
| Printer.PrintDependencyTreeText | src/printDependencyTree/printDependencyTree.ts:88-90 | the text of a successful print, as `RenderText` states it, with the fixed glyphs and the heading `total number of unique components : ` |
| Printer.VisitInv | src/printDependencyTree/printDependencyGraph.ts:48-79 | every token a visit expands is reachable from the root and has all its dependencies expanded and named once its loop ends; an error names a reachable token that is unregistered or unnamed |
| Printer.WalkCountsReachable | src/printDependencyTree/printDependencyGraph.ts:51 | the header's count is the number of tokens reachable from the root, and a token is expanded exactly when it is reachable |
| Printer.WalkOkCovers | src/printDependencyTree/printDependencyGraph.ts:48-79 | a successful walk from a named root has met every reachable token registered and named |
| Printer.WalkErrWitnessed | src/printDependencyTree/printDependencyGraph.ts:50 | a failed walk names a reachable token that is unregistered or missing from `TYPES` |
| Printer.WalkSucceeds | src/printDependencyTree/printDependencyGraph.ts:48-79 | from a named root, the walk succeeds exactly when every reachable token is registered and named |
| Printer.RenderSucceeds | src/printDependencyTree/printDependencyGraph.ts:26-83 | printing succeeds exactly when the root is named, the twig is at least as long as the stem, and every reachable token is registered and named |
| LayoutExamples.DepthFirstLaysOut | src/printDependencyTree/printDependencyGraph.ts:62-78 | with a → b, c and b → d, the lines b, then d under b with b's flag, then c are the layout of a's dependencies |
| Printer.LaysOutUnique | src/printDependencyTree/printDependencyGraph.ts:51-78 | given the tokens expanded already, two layouts of the same dependencies at the same indentation are equal. So the edges, and with them the printed text, are determined by the registry, `TYPES` and the glyphs |
| LayoutExamples.SharedLaysOut | src/printDependencyTree/printDependencyGraph.ts:51-78 | with a → b, c, x, b → d, c → e and x → b, the layout is: b; d under b; c; e under c; x; then b under x, marked, with nothing under it |
| LayoutExamples.MarkedCIsNotLaidOut | src/printDependencyTree/printDependencyGraph.ts:51-60 | on the same graph, marking c instead of expanding it, and expanding b a second time under x, keeps the number of lines but is not a layout: e is never printed |
| LayoutExamples.SiblingFirstIsNotLaidOut | src/printDependencyTree/printDependencyGraph.ts:62-78 | the order b, c, then d under b is not a layout: b, met for the first time, would have nothing under it |
| PrinterExamples.PrintsCommonTreeOnce | src/printDependencyTree/printDependencyTree.test.ts:92-163 | the diamond fact1 → fact2_1, fact3_1 and fact2_1 → fact3_1 prints with count 5. fact3_1's subtree appears once, under fact2_1, and fact3_1 is marked `<*>` under fact1 |

## Left out

- Message text, `console.error` and `tagUnindent` are not modelled: errors
  are datatype variants carrying tokens, indices and lists. The cycle error
  keeps the slice the message prints: the path from the repeated token's
  first occurrence (src/errorMessages.ts:46-49).
- The name checks of `register` are left abstract.
  - `throwIfAbstractionHasNoName` matches a regular expression against the
    host's `Symbol.prototype.toString`. It is modelled as "the token's
    description is non-empty".
  - `throwIfFactoryHasNoName` depends on JavaScript function-name inference.
    It is modelled as "the factory's name is not `factory`".
- The `typeof` validators (validateAbstraction, validateDependencies,
  validateIntercept, validateLifeCycle) are not modelled. They are not
  called by `register`, and Dafny's types make them vacuous.
- Factory and interceptor bodies are foreign callbacks. They are
  uninterpreted (`Types.Value`), so re-entrant calls to the container from an
  interceptor (the `dic` it receives) are not modelled. Neither is code that
  mutates the registry from outside.
- Container.Get: the model requires a rank under which every registered
  dependency sits below its dependent, so the whole registry must be
  acyclic. This excludes registries on which `get` does terminate:
  - a cycle that the requested token does not reach;
  - a cycle cut by an `inject` value;
  - a cycle among ignored tokens, which `validateDependencyGraph` accepts.

  `get` only recurses forever when it actually walks around a cycle. The
  model does not describe that either.
- Glyph widths: `twig.length`, `stem.length` and `" ".repeat(n)` count UTF-16
  code units, while Dafny counts characters. `Printer.SegmentFor` and
  `Printer.EdgeColumn` therefore agree with `printDependencyGraph` only for glyphs inside
  the Basic Multilingual Plane (src/printDependencyTree/printDependencyGraph.ts:38,68-74).
- The older audits read `dic._registry`, a field the current container does
  not declare; the test fixtures in src/Dic/Dic.test.ts use the same field.
  - Affected: src/throwIfDeadRegistrations.ts and
    src/printDependencyTree/printDependencyTree.ts.
  - `Liveness.ThrowIfDeadRegistrations` and `Printer.PrintDependencyTree`
    read the registry instead, which is what these audits evidently meant.
  - The same goes for the `_memoizationTable` and `hasBeenMemoized` fields the
    older tests inspect.
- The constants file the newer printer imports (`twig`, `stem`, the
  already-printed marker) is not part of this model. The glyphs are a
  parameter, and the printer's own guard rejects a twig shorter than the
  stem.
- The printer's `depth`/`maxDepth` counters and `identString` argument are
  not modelled: they never reach the output.
- The printer's indentation is kept as the last-child flags of the
  enclosing loops rather than as the pushed strings. `Printer.Segments`
  turns the flags into the strings, and `Printer.EdgeColumn` states the
  column arithmetic.
- `TYPES` is given as its entry list. How JavaScript orders an object's
  properties (integer-like keys first) is not modelled.
- src/index.ts, src/NAMES/NAMES.ts and src/publicApi.ts are re-exports, a
  test helper and type declarations, so none is modelled.
