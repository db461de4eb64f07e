/** The validation front end (src/validateDependencyGraph/validateDependencyGraph.ts):
    a fixed sequence of checks, the first failing one deciding the error. */
module Validation {
  import opened Seqs
  import opened JsMaps
  import opened Types
  import opened Errors
  import opened Lookup
  import opened Graph
  import opened EsUtils
  import opened CycleDetection
  import opened Liveness
  import opened TypesAudit

  /** The last three checks of `validateDependencyGraph`, once the cycle
      audit has passed: the liveness walk, the dead list, and the two
      `TYPES` audits, the first failing one deciding the error. */
  function LivenessChecks(registry: Registry, entries: seq<Token>, types: TypesTable, ignore: seq<Token>): (r: Outcome)
    requires registry.Valid()
    ensures var live := IsLiveAbstraction(registry, entries, ignore);
            && (live.Err? ==> r == Fail(live.error))
            && (live.Ok? ==>
                  var dead := DeadAbstractions(registry.keys, live.value);
                  var missing := ThrowIfMissingAbstractionsFromTypes(registry, types, entries);
                  && (|dead| != 0 ==> r == Fail(AbstractionsAreNotUsed(dead, entries)))
                  && (|dead| == 0 && missing.Fail? ==> r == missing)
                  && (|dead| == 0 && missing.Pass? ==> r == ThrowIfExtraAbstractionsFromTypes(registry, types, entries)))
    ensures r.Fail? && r.error.AbstractionsAreNotUsed? ==>
              && (forall t :: t in r.error.dead <==> t in registry.m && t !in ignore && !Used(registry, entries, ignore, t))
              && UnusedInOrder(r.error.dead, registry, entries, ignore)
  {
    match IsLiveAbstraction(registry, entries, ignore)
    case Err(e) => Fail(e)
    case Ok(flags) =>
      var dead := DeadAbstractions(registry.keys, flags);
      if |dead| != 0 then
        assert forall t :: t in dead <==> t in registry.m && t !in ignore && !Used(registry, entries, ignore, t) by {
          forall t ensures t in dead <==> t in registry.m && t !in ignore && !Used(registry, entries, ignore, t) {
            DeadAreUnused(registry, entries, ignore, t);
          }
        }
        DeadInRegistryOrder(registry, entries, ignore);
        Fail(AbstractionsAreNotUsed(dead, entries))
      else
        match ThrowIfMissingAbstractionsFromTypes(registry, types, entries)
        case Fail(e) => Fail(e)
        case Pass => ThrowIfExtraAbstractionsFromTypes(registry, types, entries)
  }

  /** The checks of `validateDependencyGraph` that walk the graph: the
      cycle audit first, then `LivenessChecks`. */
  function GraphChecks(registry: Registry, entries: seq<Token>, types: TypesTable, ignore: seq<Token>): (r: Outcome)
    requires registry.Valid()
    ensures var cycles := DetectCycles(registry, entries);
            && (cycles.Fail? ==> r == cycles)
            && (cycles.Pass? ==> r == LivenessChecks(registry, entries, types, ignore))
    ensures r.Fail? && r.error.GraphHasCycle? ==> IsCycle(registry, r.error.cycle)
    ensures r.Fail? && r.error.AbstractionsAreNotUsed? ==>
              && (forall t :: t in r.error.dead <==> t in registry.m && t !in ignore && !Used(registry, entries, ignore, t))
              && UnusedInOrder(r.error.dead, registry, entries, ignore)
  {
    match DetectCycles(registry, entries)
    case Fail(e) => Fail(e)
    case Pass => LivenessChecks(registry, entries, types, ignore)
  }

  /** The checks of `validateDependencyGraph` after the two duplicate
      checks: the first entry point that is also ignored, then the first
      ignored token with no registration, then `GraphChecks`. */
  function IgnoredChecks(registry: Registry, entries: seq<Token>, types: TypesTable, ignore: seq<Token>): (r: Outcome)
    requires registry.Valid()
    ensures (exists t :: t in entries && t in ignore) ==>
              r.Fail? && r.error.EntryPointAndIgnoredOverlap?
              && r.error.overlappingElement in entries && r.error.overlappingElement in ignore
    // the overlap reported is the first entry point that is also ignored
    ensures r.Fail? && r.error.EntryPointAndIgnoredOverlap? ==>
              exists k :: 0 <= k < |entries| && entries[k] == r.error.overlappingElement && entries[k] in ignore
                          && forall k' :: 0 <= k' < k ==> entries[k'] !in ignore
    ensures (forall t :: t in entries ==> t !in ignore) ==>
              var u := FirstUnregistered(ignore, registry);
              && (u < |ignore| ==> r == Fail(IgnoredNotRegistered(ignore[u])))
              && (u == |ignore| ==> r == GraphChecks(registry, entries, types, ignore))
    ensures r.Fail? && r.error.IgnoredNotRegistered? ==> r.error.abstraction in ignore && r.error.abstraction !in registry.m
  {
    match FirstOverlappingElement(entries, ignore)
    case Overlap(k, _, x) =>
      assert entries[k] == x && x in ignore;
      Fail(EntryPointAndIgnoredOverlap(x))
    case NoOverlap =>
      var u := FirstUnregistered(ignore, registry);
      if u < |ignore| then Fail(IgnoredNotRegistered(ignore[u]))
      else GraphChecks(registry, entries, types, ignore)
  }

  /** `validateDependencyGraph`; an absent `ignoreAbstractions` is `[]`.
      The checks run in order and the first failing one decides the
      error. */
  function ValidateDependencyGraph(registry: Registry, entries: seq<Token>, types: TypesTable,
                                   ignoreAbstractions: Option<seq<Token>>): (r: Outcome)
    requires registry.Valid()
    ensures var ignore := ignoreAbstractions.GetOr([]);
            && (!Distinct(entries) ==>
                  r == Fail(EntryPointsHaveDuplicate(IndexOfFirstDuplicate(entries), entries)))
            && (Distinct(entries) && !Distinct(ignore) ==>
                  r == Fail(IgnoredHaveDuplicate(IndexOfFirstDuplicate(ignore), ignore)))
            && (Distinct(entries) && Distinct(ignore) && (exists t :: t in entries && t in ignore) ==>
                  r.Fail? && r.error.EntryPointAndIgnoredOverlap?
                  && r.error.overlappingElement in entries && r.error.overlappingElement in ignore)
    // the overlap reported is the first entry point that is also ignored
    ensures var ignore := ignoreAbstractions.GetOr([]);
            Distinct(entries) && Distinct(ignore) && r.Fail? && r.error.EntryPointAndIgnoredOverlap? ==>
              exists k :: 0 <= k < |entries| && entries[k] == r.error.overlappingElement && entries[k] in ignore
                          && forall k' :: 0 <= k' < k ==> entries[k'] !in ignore
    // with the lists sound, the first unregistered ignored token, then the
    // graph checks
    ensures var ignore := ignoreAbstractions.GetOr([]);
            Distinct(entries) && Distinct(ignore) && (forall t :: t in entries ==> t !in ignore) ==>
              var u := FirstUnregistered(ignore, registry);
              && (u < |ignore| ==> r == Fail(IgnoredNotRegistered(ignore[u])))
              && (u == |ignore| ==> r == GraphChecks(registry, entries, types, ignore))
    ensures r.Fail? && r.error.IgnoredNotRegistered? ==>
              r.error.abstraction in ignoreAbstractions.GetOr([]) && r.error.abstraction !in registry.m
    ensures r.Fail? && r.error.GraphHasCycle? ==> IsCycle(registry, r.error.cycle)
    ensures r.Fail? && r.error.AbstractionsAreNotUsed? ==>
              && (forall t :: t in r.error.dead <==>
                    t in registry.m && t !in ignoreAbstractions.GetOr([])
                    && !Used(registry, entries, ignoreAbstractions.GetOr([]), t))
              && UnusedInOrder(r.error.dead, registry, entries, ignoreAbstractions.GetOr([]))
  {
    var ignore := ignoreAbstractions.GetOr([]);
    var entryDuplicate := IndexOfFirstDuplicate(entries);
    if entryDuplicate != -1 then Fail(EntryPointsHaveDuplicate(entryDuplicate, entries))
    else
      var ignoreDuplicate := IndexOfFirstDuplicate(ignore);
      if ignoreDuplicate != -1 then Fail(IgnoredHaveDuplicate(ignoreDuplicate, ignore))
      else IgnoredChecks(registry, entries, types, ignore)
  }

  /** Everything a successful validation guarantees, and needs. */
  ghost predicate SoundGraph(registry: Registry, entries: seq<Token>, types: TypesTable, ignore: seq<Token>) {
    // the two lists are duplicate-free and disjoint, and every ignored token is registered
    && Distinct(entries)
    && Distinct(ignore)
    && (forall t :: t in entries ==> t !in ignore)
    && (forall t :: t in ignore ==> t in registry.m)
    // no cycle and no missing registration can be reached from an entry point
    && WalksFromEntriesAreSimple(registry, entries)
    // every token the walk descends into has a factory of the right arity
    && (forall t :: Expanded(registry, entries, ignore, t) ==>
                     t in registry.m && registry.m[t].factory.arity == |registry.m[t].dependencies|)
    // every registration is used or ignored
    && (forall t :: t in registry.m ==> t in ignore || Used(registry, entries, ignore, t))
    // `TYPES` names exactly the registered tokens
    && (set t | t in TypesValues(types)) == registry.m.Keys
  }

  /** A graph that passes validation is sound. */
  lemma PassMeansSound(registry: Registry, entries: seq<Token>, types: TypesTable, ignoreAbstractions: Option<seq<Token>>)
    requires WellKeyed(registry)
    requires ValidateDependencyGraph(registry, entries, types, ignoreAbstractions).Pass?
    ensures SoundGraph(registry, entries, types, ignoreAbstractions.GetOr([]))
  {
    var ignore := ignoreAbstractions.GetOr([]);
    PassStages(registry, entries, types, ignoreAbstractions);
    ListsSound(registry, entries, ignore);
    DetectCyclesPasses(registry, entries);
    IsLiveAbstractionSucceeds(registry, entries, ignore);
    forall t | t in registry.m
      ensures t in ignore || Used(registry, entries, ignore, t)
    {
      DeadAreUnused(registry, entries, ignore, t);
    }
    TypesMatchRegistry(registry, types, entries);
  }

  /** A validation that passes passed every one of its checks. */
  lemma PassStages(registry: Registry, entries: seq<Token>, types: TypesTable, ignoreAbstractions: Option<seq<Token>>)
    requires registry.Valid()
    requires ValidateDependencyGraph(registry, entries, types, ignoreAbstractions).Pass?
    ensures var ignore := ignoreAbstractions.GetOr([]);
            && Distinct(entries) && Distinct(ignore)
            && FirstOverlappingElement(entries, ignore).NoOverlap?
            && FirstUnregistered(ignore, registry) == |ignore|
            && DetectCycles(registry, entries).Pass?
            && IsLiveAbstraction(registry, entries, ignore).Ok?
            && DeadAbstractions(registry.keys, IsLiveAbstraction(registry, entries, ignore).value) == []
            && ThrowIfMissingAbstractionsFromTypes(registry, types, entries).Pass?
            && ThrowIfExtraAbstractionsFromTypes(registry, types, entries).Pass?
  {
    var ignore := ignoreAbstractions.GetOr([]);
    assert IgnoredChecks(registry, entries, types, ignore).Pass?;
    assert FirstOverlappingElement(entries, ignore).NoOverlap?;
    assert FirstUnregistered(ignore, registry) == |ignore|;
    assert GraphChecks(registry, entries, types, ignore).Pass?;
    assert LivenessChecks(registry, entries, types, ignore).Pass?;
  }

  /** The list checks passing: the lists are disjoint and every ignored
      token is registered. */
  lemma ListsSound(registry: Registry, entries: seq<Token>, ignore: seq<Token>)
    requires FirstOverlappingElement(entries, ignore).NoOverlap?
    requires FirstUnregistered(ignore, registry) == |ignore|
    ensures forall t :: t in entries ==> t !in ignore
    ensures forall t :: t in ignore ==> t in registry.m
  {
    forall t | t in entries ensures t !in ignore {
      assert entries[IndexOf(entries, t)] == t;
    }
    forall t | t in ignore ensures t in registry.m {
      assert ignore[IndexOf(ignore, t)] == t;
    }
  }

  /** The validation passes when each of its checks passes. */
  lemma ChecksPass(registry: Registry, entries: seq<Token>, types: TypesTable, ignoreAbstractions: Option<seq<Token>>)
    requires registry.Valid()
    requires IndexOfFirstDuplicate(entries) == -1
    requires IndexOfFirstDuplicate(ignoreAbstractions.GetOr([])) == -1
    requires FirstOverlappingElement(entries, ignoreAbstractions.GetOr([])) == NoOverlap
    requires FirstUnregistered(ignoreAbstractions.GetOr([]), registry) == |ignoreAbstractions.GetOr([])|
    requires DetectCycles(registry, entries) == Pass
    requires IsLiveAbstraction(registry, entries, ignoreAbstractions.GetOr([])).Ok?
    requires DeadAbstractions(registry.keys, IsLiveAbstraction(registry, entries, ignoreAbstractions.GetOr([])).value) == []
    requires ThrowIfMissingAbstractionsFromTypes(registry, types, entries) == Pass
    requires ThrowIfExtraAbstractionsFromTypes(registry, types, entries) == Pass
    ensures ValidateDependencyGraph(registry, entries, types, ignoreAbstractions) == Pass
  {
  }

  /** A sound graph passes validation. */
  lemma SoundMeansPass(registry: Registry, entries: seq<Token>, types: TypesTable, ignoreAbstractions: Option<seq<Token>>)
    requires WellKeyed(registry)
    requires SoundGraph(registry, entries, types, ignoreAbstractions.GetOr([]))
    ensures ValidateDependencyGraph(registry, entries, types, ignoreAbstractions).Pass?
  {
    var ignore := ignoreAbstractions.GetOr([]);
    assert FirstOverlappingElement(entries, ignore) == NoOverlap by {
      assert forall k :: 0 <= k < |entries| ==> entries[k] !in ignore;
    }
    assert FirstUnregistered(ignore, registry) == |ignore|;
    DetectCyclesPasses(registry, entries);
    IsLiveAbstractionSucceeds(registry, entries, ignore);
    var flags := IsLiveAbstraction(registry, entries, ignore).value;
    var dead := DeadAbstractions(registry.keys, flags);
    if |dead| != 0 {
      DeadAreUnused(registry, entries, ignore, dead[0]);
    }
    TypesMatchRegistry(registry, types, entries);
    ChecksPass(registry, entries, types, ignoreAbstractions);
  }

  /** `validateDependencyGraph` passes exactly on sound graphs. */
  lemma ValidateDependencyGraphPasses(registry: Registry, entries: seq<Token>, types: TypesTable,
                                      ignoreAbstractions: Option<seq<Token>>)
    requires WellKeyed(registry)
    ensures ValidateDependencyGraph(registry, entries, types, ignoreAbstractions).Pass? <==>
              SoundGraph(registry, entries, types, ignoreAbstractions.GetOr([]))
  {
    if ValidateDependencyGraph(registry, entries, types, ignoreAbstractions).Pass? {
      PassMeansSound(registry, entries, types, ignoreAbstractions);
    }
    if SoundGraph(registry, entries, types, ignoreAbstractions.GetOr([])) {
      SoundMeansPass(registry, entries, types, ignoreAbstractions);
    }
  }
}
