/** The dead-registration audit (src/validateDependencyGraph/isLiveAbstraction.ts,
    and its older form src/throwIfDeadRegistrations.ts): a `Map` from every
    registered token to `false`, the ignored tokens set to `true`, then a
    depth first walk from each entry point that sets every dependency it
    meets to `true` and descends only into the ones it set itself. */
module Liveness {
  import opened Seqs
  import opened JsMaps
  import opened Types
  import opened Errors
  import opened Lookup
  import opened Graph

  /** `hasBeenIterated`; only the keys matter for the answer, and their order
      is the registry's (see `DeadAbstractions`). */
  type Flags = map<Token, bool>

  /** `hasBeenIterated.get(t)` is `true`. */
  predicate Marked(flags: Flags, t: Token) {
    t in flags && flags[t]
  }

  /** Registered tokens not yet marked: the measure of the walk. */
  ghost function Unmarked(registry: Registry, flags: Flags): set<Token> {
    set k | k in registry.m && !Marked(flags, k)
  }

  /** No mark is ever cleared. */
  ghost predicate MarksGrow(before: Flags, after: Flags) {
    forall t :: Marked(before, t) ==> Marked(after, t)
  }

  lemma UnmarkedShrinks(registry: Registry, before: Flags, after: Flags)
    requires MarksGrow(before, after)
    ensures Unmarked(registry, after) <= Unmarked(registry, before)
    ensures |Unmarked(registry, after)| <= |Unmarked(registry, before)|
  {
    SubsetCardinality(Unmarked(registry, after), Unmarked(registry, before));
  }

  lemma MarkShrinks(registry: Registry, flags: Flags, d: Token)
    requires d in registry.m && !Marked(flags, d)
    ensures |Unmarked(registry, flags[d := true])| < |Unmarked(registry, flags)|
  {
    assert Unmarked(registry, flags[d := true]) == Unmarked(registry, flags) - {d};
  }

  /** `recurse(x)`: look `x` up, check its arity, then visit its
      dependencies. */
  function Mark(registry: Registry, x: Token, flags: Flags): (r: Result<Flags>)
    requires registry.m.Keys <= flags.Keys
    ensures r.Ok? ==> r.value.Keys == flags.Keys && MarksGrow(flags, r.value)
    ensures r.Ok? ==> |Unmarked(registry, r.value)| <= |Unmarked(registry, flags)|
    ensures r.Err? ==> r.error.AbstractionNotRegistered? || r.error.InconsistentNumberOfDependencies?
    decreases |Unmarked(registry, flags)|, 1
  {
    match GetRegistrationStrictOf(registry, x)
    case Err(e) => Err(e)
    case Ok(reg) =>
      match ValidateNumberOfDependencies(reg.dependencies, reg.factory)
      case Fail(e) => Err(e)
      case Pass => MarkDeps(registry, reg.dependencies, 0, flags)
  }

  /** `dependencies.forEach(...)` from index `i` on: a marked dependency is
      skipped; any other is marked, then visited. */
  function MarkDeps(registry: Registry, deps: seq<Token>, i: nat, flags: Flags): (r: Result<Flags>)
    requires i <= |deps|
    requires registry.m.Keys <= flags.Keys
    ensures r.Ok? ==> r.value.Keys == flags.Keys && MarksGrow(flags, r.value)
    ensures r.Ok? ==> |Unmarked(registry, r.value)| <= |Unmarked(registry, flags)|
    ensures r.Ok? ==> forall j :: i <= j < |deps| ==> Marked(r.value, deps[j])
    ensures r.Err? ==> r.error.AbstractionNotRegistered? || r.error.InconsistentNumberOfDependencies?
    decreases |Unmarked(registry, flags)|, 0, |deps| - i
  {
    if i == |deps| then Ok(flags)
    else
      var d := deps[i];
      if Marked(flags, d) then MarkDeps(registry, deps, i + 1, flags)
      else
        var flags1 := flags[d := true];
        if d !in registry.m then
          // `recurse(d)` fails at its lookup
          Err(AbstractionNotRegistered(d))
        else
          MarkShrinks(registry, flags, d);
          match Mark(registry, d, flags1)
          case Err(e) => Err(e)
          case Ok(flags2) =>
            UnmarkedShrinks(registry, flags1, flags2);
            MarkDeps(registry, deps, i + 1, flags2)
  }

  /** The loop over the ignored tokens from index `k` on: each must be
      registered, and is marked. */
  function MarkIgnored(registry: Registry, ignore: seq<Token>, k: nat, flags: Flags): (r: Result<Flags>)
    requires k <= |ignore|
    requires registry.m.Keys <= flags.Keys
    ensures r.Ok? <==> forall j :: k <= j < |ignore| ==> ignore[j] in registry.m
    ensures r.Ok? ==> r.value.Keys == flags.Keys
    ensures r.Ok? ==> forall t :: Marked(r.value, t) <==> Marked(flags, t) || t in ignore[k..]
    ensures r.Err? ==>
              exists j :: k <= j < |ignore| && r.error == AbstractionNotRegistered(ignore[j])
                          && ignore[j] !in registry.m
                          && forall i :: k <= i < j ==> ignore[i] in registry.m
    decreases |ignore| - k
  {
    if k == |ignore| then Ok(flags)
    else
      match GetRegistrationStrictOf(registry, ignore[k])
      case Err(e) => Err(e)
      case Ok(_) =>
        var r := MarkIgnored(registry, ignore, k + 1, flags[ignore[k] := true]);
        assert ignore[k..] == [ignore[k]] + ignore[k + 1..];
        r
  }

  /** The loop over the entry points from index `k` on: each is marked,
      then visited. */
  function MarkEntries(registry: Registry, entries: seq<Token>, k: nat, flags: Flags): (r: Result<Flags>)
    requires k <= |entries|
    requires registry.m.Keys <= flags.Keys
    ensures r.Ok? ==> r.value.Keys == flags.Keys && MarksGrow(flags, r.value)
    ensures r.Ok? ==> forall j :: k <= j < |entries| ==> Marked(r.value, entries[j])
    ensures r.Err? ==> r.error.AbstractionNotRegistered? || r.error.InconsistentNumberOfDependencies?
    decreases |entries| - k
  {
    if k == |entries| then Ok(flags)
    else
      var e := entries[k];
      match Mark(registry, e, flags[e := true])
      case Err(err) => Err(err)
      case Ok(flags') =>
        assert flags'.Keys == flags.Keys by {
          assert e in registry.m;
        }
        MarkEntries(registry, entries, k + 1, flags')
  }

  /** Every registered token, not yet marked. */
  function InitialFlags(registry: Registry): (r: Flags)
    ensures r.Keys == registry.m.Keys
    ensures forall t :: !Marked(r, t)
  {
    map k | k in registry.m :: false
  }

  /** `isLiveAbstraction`. */
  function IsLiveAbstraction(registry: Registry, entries: seq<Token>, ignore: seq<Token>): (r: Result<Flags>)
    ensures r.Ok? ==> r.value.Keys == registry.m.Keys
    ensures r.Ok? ==> forall t :: t in ignore || t in entries ==> Marked(r.value, t)
  {
    match MarkIgnored(registry, ignore, 0, InitialFlags(registry))
    case Err(e) => Err(e)
    case Ok(flags) =>
      assert ignore[0..] == ignore;
      MarkEntries(registry, entries, 0, flags)
  }

  /** `keys` at the positions whose flag is still `false`, in order. */
  ghost predicate UnmarkedPositions(r: seq<Token>, keys: seq<Token>, flags: Flags) {
    exists idx :: Picks(r, keys, idx) && forall j :: 0 <= j < |keys| ==> (j in idx <==> !Marked(flags, keys[j]))
  }

  /** The tokens whose flag is still `false`, in the map's key order, which
      is the registry's. */
  function DeadAbstractions(keys: seq<Token>, flags: Flags): (r: seq<Token>)
    ensures UnmarkedPositions(r, keys, flags)
    ensures forall t :: t in r <==> t in keys && !Marked(flags, t)
    ensures Distinct(keys) ==> Distinct(r)
    ensures |r| <= |keys|
  {
    if |keys| == 0 then
      PicksNil(keys);
      []
    else
      var rest := DeadAbstractions(keys[1..], flags);
      assert forall t :: t in keys <==> t == keys[0] || t in keys[1..];
      DeadStep(keys, flags, rest);
      assert [keys[0]] + keys[1..] == keys;
      DistinctSubCons(keys[0], keys[1..], rest);
      if Marked(flags, keys[0]) then rest else [keys[0]] + rest
  }

  lemma DeadStep(keys: seq<Token>, flags: Flags, rest: seq<Token>)
    requires |keys| > 0 && UnmarkedPositions(rest, keys[1..], flags)
    ensures UnmarkedPositions(if Marked(flags, keys[0]) then rest else [keys[0]] + rest, keys, flags)
  {
    var keep := UnmarkedMask(keys, flags);
    assert keep[1..] == UnmarkedMask(keys[1..], flags);
    UnmarkedMasks(rest, keys[1..], flags);
    PicksWhereCons(keys, keep, rest);
    UnmarkedMasks(if Marked(flags, keys[0]) then rest else [keys[0]] + rest, keys, flags);
  }

  /** Which positions of `keys` hold an unmarked token. */
  function UnmarkedMask(keys: seq<Token>, flags: Flags): (keep: seq<bool>)
    ensures |keep| == |keys| && forall j :: 0 <= j < |keys| ==> (keep[j] <==> !Marked(flags, keys[j]))
  {
    if |keys| == 0 then [] else [!Marked(flags, keys[0])] + UnmarkedMask(keys[1..], flags)
  }

  lemma UnmarkedMasks(r: seq<Token>, keys: seq<Token>, flags: Flags)
    ensures UnmarkedPositions(r, keys, flags) <==> PicksWhere(r, keys, UnmarkedMask(keys, flags))
  {
  }

  // -----------------------------------------------------------------------
  // What the marks mean.

  /** A walk whose every token after the first is outside `ignore`: the
      walk never descends through an ignored token. */
  ghost predicate AvoidingWalk(registry: Registry, ignore: seq<Token>, w: seq<Token>) {
    && IsWalk(registry, w)
    && forall j :: 0 < j < |w| ==> w[j] !in ignore
  }

  /** `t` is reachable from an entry point without passing through an
      ignored token. */
  ghost predicate Used(registry: Registry, entries: seq<Token>, ignore: seq<Token>, t: Token) {
    exists w :: AvoidingWalk(registry, ignore, w) && w[0] in entries && w[|w| - 1] == t
  }

  /** The tokens the walk descends into: entry points, and used tokens that
      are not ignored. */
  ghost predicate Expanded(registry: Registry, entries: seq<Token>, ignore: seq<Token>, t: Token) {
    t in entries || (t !in ignore && Used(registry, entries, ignore, t))
  }

  /** `t` passed its own visit: registered, arity consistent, every
      dependency marked. */
  ghost predicate Closed(registry: Registry, flags: Flags, t: Token) {
    && t in registry.m
    && registry.m[t].factory.arity == |registry.m[t].dependencies|
    && forall d :: d in registry.m[t].dependencies ==> Marked(flags, d)
  }

  /** The walk's invariant: ignored tokens are marked; a marked token is
      ignored or used; and a marked token is ignored, still being visited
      (`pending`), or closed. */
  ghost predicate Inv(registry: Registry, entries: seq<Token>, ignore: seq<Token>, flags: Flags, pending: set<Token>) {
    && (forall t :: t in ignore ==> Marked(flags, t))
    && (forall t :: Marked(flags, t) ==> t in ignore || Used(registry, entries, ignore, t))
    && (forall t :: Marked(flags, t) ==> t in ignore || t in pending || Closed(registry, flags, t))
  }

  /** What an error of the walk points at: an unregistered token the walk
      had to visit, or the factory of an expanded token with the wrong
      arity. */
  ghost predicate Witnessed(registry: Registry, entries: seq<Token>, ignore: seq<Token>, e: Error) {
    && (e.AbstractionNotRegistered? ==>
          e.abstraction !in registry.m && Used(registry, entries, ignore, e.abstraction))
    && (e.InconsistentNumberOfDependencies? ==>
          exists t :: Expanded(registry, entries, ignore, t) && t in registry.m
                      && registry.m[t].factory == e.factory
                      && e.factory.arity != |registry.m[t].dependencies|)
  }

  lemma UsedStep(registry: Registry, entries: seq<Token>, ignore: seq<Token>, x: Token, d: Token)
    requires Expanded(registry, entries, ignore, x)
    requires x in registry.m && d in registry.m[x].dependencies && d !in ignore
    ensures Used(registry, entries, ignore, d)
  {
    if x in entries {
      assert AvoidingWalk(registry, ignore, [x, d]);
    } else {
      var w :| AvoidingWalk(registry, ignore, w) && w[0] in entries && w[|w| - 1] == x;
      WalkAppend(registry, w, d);
      assert AvoidingWalk(registry, ignore, w + [d]);
      assert (w + [d])[0] in entries;
    }
  }

  lemma ClosedGrows(registry: Registry, before: Flags, after: Flags, t: Token)
    requires Closed(registry, before, t) && MarksGrow(before, after)
    ensures Closed(registry, after, t)
  {
  }

  lemma {:induction false} MarkInv(registry: Registry, entries: seq<Token>, ignore: seq<Token>, x: Token, flags: Flags, pending: set<Token>)
    requires registry.m.Keys <= flags.Keys
    requires Marked(flags, x) && Expanded(registry, entries, ignore, x)
    requires Inv(registry, entries, ignore, flags, pending + {x})
    ensures Mark(registry, x, flags).Ok? ==>
              && Inv(registry, entries, ignore, Mark(registry, x, flags).value, pending)
              && Closed(registry, Mark(registry, x, flags).value, x)
    ensures Mark(registry, x, flags).Err? ==> Witnessed(registry, entries, ignore, Mark(registry, x, flags).error)
    decreases |Unmarked(registry, flags)|, 1
  {
    if x !in registry.m {
      assert AvoidingWalk(registry, ignore, [x]) || x !in entries;
      if x in entries {
        assert [x][0] in entries;
      }
      return;
    }
    var reg := registry.m[x];
    if reg.factory.arity != |reg.dependencies| {
      return;
    }
    MarkDepsInv(registry, entries, ignore, x, 0, flags, pending);
    var r := Mark(registry, x, flags);
    if r.Ok? {
      var f := r.value;
      forall t | Marked(f, t)
        ensures t in ignore || t in pending || Closed(registry, f, t)
      {
        if t == x {
          assert forall d :: d in reg.dependencies ==> d == reg.dependencies[IndexOf(reg.dependencies, d)];
        }
      }
    }
  }

  lemma {:induction false} MarkDepsInv(registry: Registry, entries: seq<Token>, ignore: seq<Token>, x: Token, i: nat,
                                       flags: Flags, pending: set<Token>)
    requires x in registry.m && Expanded(registry, entries, ignore, x)
    requires i <= |registry.m[x].dependencies|
    requires registry.m.Keys <= flags.Keys
    requires Inv(registry, entries, ignore, flags, pending + {x})
    ensures MarkDeps(registry, registry.m[x].dependencies, i, flags).Ok? ==>
              Inv(registry, entries, ignore, MarkDeps(registry, registry.m[x].dependencies, i, flags).value, pending + {x})
    ensures MarkDeps(registry, registry.m[x].dependencies, i, flags).Err? ==>
              Witnessed(registry, entries, ignore, MarkDeps(registry, registry.m[x].dependencies, i, flags).error)
    decreases |Unmarked(registry, flags)|, 0, |registry.m[x].dependencies| - i
  {
    var deps := registry.m[x].dependencies;
    if i == |deps| {
      return;
    }
    var d := deps[i];
    if Marked(flags, d) {
      MarkDepsInv(registry, entries, ignore, x, i + 1, flags, pending);
      return;
    }
    assert d !in ignore;
    UsedStep(registry, entries, ignore, x, d);
    if d !in registry.m {
      return;
    }
    var flags1 := flags[d := true];
    MarkShrinks(registry, flags, d);
    var pending' := pending + {x};
    forall t | Marked(flags1, t) && !(t in ignore) && t !in pending' + {d}
      ensures Closed(registry, flags1, t)
    {
      ClosedGrows(registry, flags, flags1, t);
    }
    assert Inv(registry, entries, ignore, flags1, pending' + {d});
    MarkInv(registry, entries, ignore, d, flags1, pending');
    var r1 := Mark(registry, d, flags1);
    if r1.Ok? {
      UnmarkedShrinks(registry, flags1, r1.value);
      MarkDepsInv(registry, entries, ignore, x, i + 1, r1.value, pending);
    }
  }

  lemma {:induction false} MarkEntriesInv(registry: Registry, entries: seq<Token>, ignore: seq<Token>, k: nat, flags: Flags)
    requires k <= |entries|
    requires registry.m.Keys <= flags.Keys
    requires Inv(registry, entries, ignore, flags, {})
    requires forall j :: 0 <= j < k ==> Closed(registry, flags, entries[j])
    ensures MarkEntries(registry, entries, k, flags).Ok? ==>
              && Inv(registry, entries, ignore, MarkEntries(registry, entries, k, flags).value, {})
              && forall j :: 0 <= j < |entries| ==> Closed(registry, MarkEntries(registry, entries, k, flags).value, entries[j])
    ensures MarkEntries(registry, entries, k, flags).Err? ==>
              Witnessed(registry, entries, ignore, MarkEntries(registry, entries, k, flags).error)
    decreases |entries| - k
  {
    if k == |entries| {
      return;
    }
    var e := entries[k];
    var flags1 := flags[e := true];
    assert AvoidingWalk(registry, ignore, [e]) && [e][0] in entries;
    forall t | Marked(flags1, t) && !(t in ignore) && t != e
      ensures Closed(registry, flags1, t)
    {
      ClosedGrows(registry, flags, flags1, t);
    }
    assert Inv(registry, entries, ignore, flags1, {} + {e});
    MarkInv(registry, entries, ignore, e, flags1, {});
    var r := Mark(registry, e, flags1);
    if r.Ok? {
      forall j | 0 <= j < k
        ensures Closed(registry, r.value, entries[j])
      {
        ClosedGrows(registry, flags, r.value, entries[j]);
      }
      assert r.value.Keys == flags.Keys;
      MarkEntriesInv(registry, entries, ignore, k + 1, r.value);
    }
  }

  /** On success the marks hold the invariant with nothing pending, and
      every entry point is closed. */
  lemma IsLiveInv(registry: Registry, entries: seq<Token>, ignore: seq<Token>)
    ensures IsLiveAbstraction(registry, entries, ignore).Ok? ==>
              && Inv(registry, entries, ignore, IsLiveAbstraction(registry, entries, ignore).value, {})
              && forall j :: 0 <= j < |entries| ==> Closed(registry, IsLiveAbstraction(registry, entries, ignore).value, entries[j])
    ensures IsLiveAbstraction(registry, entries, ignore).Err? ==>
              || (exists t :: t in ignore && t !in registry.m
                             && IsLiveAbstraction(registry, entries, ignore).error == AbstractionNotRegistered(t))
              || Witnessed(registry, entries, ignore, IsLiveAbstraction(registry, entries, ignore).error)
  {
    var r0 := MarkIgnored(registry, ignore, 0, InitialFlags(registry));
    if r0.Ok? {
      assert ignore[0..] == ignore;
      MarkEntriesInv(registry, entries, ignore, 0, r0.value);
    } else {
      var j :| 0 <= j < |ignore| && r0.error == AbstractionNotRegistered(ignore[j]) && ignore[j] !in registry.m;
      assert ignore[j] in ignore;
    }
  }

  /** Along a walk that avoids the ignored tokens, every token is marked. */
  lemma {:induction false} AvoidingWalkMarked(registry: Registry, entries: seq<Token>, ignore: seq<Token>, flags: Flags,
                                              w: seq<Token>, j: nat)
    requires Inv(registry, entries, ignore, flags, {})
    requires forall k :: 0 <= k < |entries| ==> Closed(registry, flags, entries[k]) && Marked(flags, entries[k])
    requires AvoidingWalk(registry, ignore, w) && w[0] in entries
    requires j < |w|
    ensures Marked(flags, w[j])
  {
    if j == 0 {
      assert entries[IndexOf(entries, w[0])] == w[0];
    } else {
      AvoidingWalkMarked(registry, entries, ignore, flags, w, j - 1);
      var p := w[j - 1];
      if j - 1 == 0 {
        var k := IndexOf(entries, p);
        assert Closed(registry, flags, entries[k]);
      } else {
        assert p !in ignore;
      }
      assert Closed(registry, flags, p);
      assert w[j] in registry.m[p].dependencies;
    }
  }

  /** `isLiveAbstraction` marks exactly the ignored tokens and the tokens
      used by the entry points. */
  lemma IsLiveAbstractionMarksUsed(registry: Registry, entries: seq<Token>, ignore: seq<Token>, t: Token)
    requires IsLiveAbstraction(registry, entries, ignore).Ok?
    ensures Marked(IsLiveAbstraction(registry, entries, ignore).value, t) <==>
              t in ignore || Used(registry, entries, ignore, t)
  {
    var flags := IsLiveAbstraction(registry, entries, ignore).value;
    IsLiveInv(registry, entries, ignore);
    if t !in ignore && Used(registry, entries, ignore, t) {
      var w :| AvoidingWalk(registry, ignore, w) && w[0] in entries && w[|w| - 1] == t;
      AvoidingWalkMarked(registry, entries, ignore, flags, w, |w| - 1);
    }
  }

  /** `isLiveAbstraction` succeeds exactly when every ignored token is
      registered and every token the walk descends into is registered with
      a factory of the right arity. */
  lemma IsLiveAbstractionSucceeds(registry: Registry, entries: seq<Token>, ignore: seq<Token>)
    ensures IsLiveAbstraction(registry, entries, ignore).Ok? <==>
              && (forall t :: t in ignore ==> t in registry.m)
              && (forall t :: Expanded(registry, entries, ignore, t) ==>
                               t in registry.m && registry.m[t].factory.arity == |registry.m[t].dependencies|)
  {
    var r := IsLiveAbstraction(registry, entries, ignore);
    IsLiveInv(registry, entries, ignore);
    var r0 := MarkIgnored(registry, ignore, 0, InitialFlags(registry));
    if r.Ok? {
      assert r0.Ok?;
      forall t | t in ignore
        ensures t in registry.m
      {
        assert ignore[IndexOf(ignore, t)] == t;
      }
      forall t | Expanded(registry, entries, ignore, t)
        ensures t in registry.m && registry.m[t].factory.arity == |registry.m[t].dependencies|
      {
        if t in entries {
          assert entries[IndexOf(entries, t)] == t;
        } else {
          IsLiveAbstractionMarksUsed(registry, entries, ignore, t);
        }
      }
    }
  }

  /** The dead list `validateDependencyGraph` reports after a successful
      walk: the registered tokens that are neither ignored nor used. */
  lemma DeadAreUnused(registry: Registry, entries: seq<Token>, ignore: seq<Token>, t: Token)
    requires registry.Valid()
    requires IsLiveAbstraction(registry, entries, ignore).Ok?
    ensures t in DeadAbstractions(registry.keys, IsLiveAbstraction(registry, entries, ignore).value) <==>
              t in registry.m && t !in ignore && !Used(registry, entries, ignore, t)
  {
    IsLiveAbstractionMarksUsed(registry, entries, ignore, t);
  }

  /** The registry's keys at the positions of the registered tokens that
      are neither ignored nor used, in registry order. */
  ghost predicate UnusedInOrder(r: seq<Token>, registry: Registry, entries: seq<Token>, ignore: seq<Token>) {
    exists idx :: Picks(r, registry.keys, idx)
                  && forall j :: 0 <= j < |registry.keys| ==>
                                   (j in idx <==> registry.keys[j] !in ignore && !Used(registry, entries, ignore, registry.keys[j]))
  }

  /** The dead list lists the unused registrations in registry order. */
  lemma DeadInRegistryOrder(registry: Registry, entries: seq<Token>, ignore: seq<Token>)
    requires registry.Valid()
    requires IsLiveAbstraction(registry, entries, ignore).Ok?
    ensures UnusedInOrder(DeadAbstractions(registry.keys, IsLiveAbstraction(registry, entries, ignore).value), registry, entries, ignore)
  {
    var flags := IsLiveAbstraction(registry, entries, ignore).value;
    var dead := DeadAbstractions(registry.keys, flags);
    var idx :| Picks(dead, registry.keys, idx)
               && forall j :: 0 <= j < |registry.keys| ==> (j in idx <==> !Marked(flags, registry.keys[j]));
    forall j | 0 <= j < |registry.keys|
      ensures j in idx <==> registry.keys[j] !in ignore && !Used(registry, entries, ignore, registry.keys[j])
    {
      IsLiveAbstractionMarksUsed(registry, entries, ignore, registry.keys[j]);
    }
  }

  // -----------------------------------------------------------------------
  // The older audit, src/throwIfDeadRegistrations.ts: the same walk with no
  // ignored tokens. It looks tokens up with `getRegistrationOf`, which
  // `Lookup.LookupsAgree` shows answers as the strict lookup used here.

  function ThrowIfDeadRegistrations(registry: Registry, entries: seq<Token>): (r: Outcome)
    ensures r.Fail? && r.error.AbstractionsAreNotUsed? ==>
              && |r.error.dead| > 0 && r.error.entryPoints == entries
              && IsLiveAbstraction(registry, entries, []).Ok?
              && r.error.dead == DeadAbstractions(registry.keys, IsLiveAbstraction(registry, entries, []).value)
    ensures r.Fail? && !r.error.AbstractionsAreNotUsed? ==>
              IsLiveAbstraction(registry, entries, []) == Err(r.error)
    ensures r.Fail? ==>
              || r.error.AbstractionsAreNotUsed?
              || r.error.AbstractionNotRegistered?
              || r.error.InconsistentNumberOfDependencies?
  {
    assert MarkIgnored(registry, [], 0, InitialFlags(registry)) == Ok(InitialFlags(registry));
    match MarkEntries(registry, entries, 0, InitialFlags(registry))
    case Err(e) => Fail(e)
    case Ok(flags) =>
      var dead := DeadAbstractions(registry.keys, flags);
      if |dead| != 0 then Fail(AbstractionsAreNotUsed(dead, entries)) else Pass
  }

  /** A dead list the older audit reports names the registrations no entry
      point reaches, in registry order. */
  lemma ThrowIfDeadRegistrationsReportsUnused(registry: Registry, entries: seq<Token>)
    requires registry.Valid()
    requires ThrowIfDeadRegistrations(registry, entries).Fail?
    requires ThrowIfDeadRegistrations(registry, entries).error.AbstractionsAreNotUsed?
    ensures UnusedInOrder(ThrowIfDeadRegistrations(registry, entries).error.dead, registry, entries, [])
  {
    DeadInRegistryOrder(registry, entries, []);
  }

  /** The older audit passes exactly when the walk succeeds and every
      registered token is reachable from an entry point. */
  lemma ThrowIfDeadRegistrationsPasses(registry: Registry, entries: seq<Token>)
    requires registry.Valid()
    ensures ThrowIfDeadRegistrations(registry, entries).Pass? <==>
              && (forall t :: Expanded(registry, entries, [], t) ==>
                               t in registry.m && registry.m[t].factory.arity == |registry.m[t].dependencies|)
              && (forall t :: t in registry.m ==> Used(registry, entries, [], t))
  {
    var r := IsLiveAbstraction(registry, entries, []);
    assert MarkIgnored(registry, [], 0, InitialFlags(registry)) == Ok(InitialFlags(registry));
    IsLiveAbstractionSucceeds(registry, entries, []);
    if r.Ok? {
      forall t | t in registry.m
        ensures t in DeadAbstractions(registry.keys, r.value) <==> !Used(registry, entries, [], t)
      {
        DeadAreUnused(registry, entries, [], t);
      }
      if |DeadAbstractions(registry.keys, r.value)| != 0 {
        var t := DeadAbstractions(registry.keys, r.value)[0];
        assert t in DeadAbstractions(registry.keys, r.value);
      }
    }
  }
}
