/** The audits that reconcile the `TYPES` object with the registry
    (src/validateDependencyGraph/throwIfMissingAbstractionsFromTypes.ts and
    throwIfExtraAbstractionsFromTypes.ts), and the reverse lookup from a
    token to its `TYPES` key (src/printDependencyTree/symbolToTypesKeyFactory.ts). */
module TypesAudit {
  import opened Seqs
  import opened JsMaps
  import opened Types
  import opened Errors

  // -----------------------------------------------------------------------
  // throwIfMissingAbstractionsFromTypes

  /** `s` at the positions whose token is not among `names`, in order. */
  ghost predicate PositionsNotAmong(r: seq<Token>, s: seq<Token>, names: seq<Token>) {
    exists idx :: Picks(r, s, idx) && forall j :: 0 <= j < |s| ==> (j in idx <==> s[j] !in names)
  }

  /** The `abstraction` of each registration stored under `keys`, in order,
      that is not among the `TYPES` values. */
  function MissingAmong(registry: Registry, keys: seq<Token>, values: seq<Token>): (r: seq<Token>)
    requires forall k :: k in keys ==> k in registry.m
    ensures forall t :: t in r <==> exists k :: k in keys && registry.m[k].abstraction == t && t !in values
    ensures (forall k :: k in keys ==> registry.m[k].abstraction == k) ==> PositionsNotAmong(r, keys, values)
    ensures |r| <= |keys|
  {
    if |keys| == 0 then
      PicksNil(keys);
      []
    else
      var rest := MissingAmong(registry, keys[1..], values);
      assert forall k :: k in keys <==> k == keys[0] || k in keys[1..];
      var a := registry.m[keys[0]].abstraction;
      MissingStep(registry, keys, values, rest);
      if a in values then rest else [a] + rest
  }

  lemma MissingStep(registry: Registry, keys: seq<Token>, values: seq<Token>, rest: seq<Token>)
    requires |keys| > 0 && forall k :: k in keys ==> k in registry.m
    requires (forall k :: k in keys[1..] ==> registry.m[k].abstraction == k) ==> PositionsNotAmong(rest, keys[1..], values)
    ensures var a := registry.m[keys[0]].abstraction;
            (forall k :: k in keys ==> registry.m[k].abstraction == k) ==>
              PositionsNotAmong(if a in values then rest else [a] + rest, keys, values)
  {
    if forall k :: k in keys ==> registry.m[k].abstraction == k {
      assert forall k :: k in keys[1..] ==> k in keys;
      assert registry.m[keys[0]].abstraction == keys[0];
      NotAmongStep(keys, values, rest);
    }
  }

  lemma NotAmongStep(s: seq<Token>, names: seq<Token>, rest: seq<Token>)
    requires |s| > 0 && PositionsNotAmong(rest, s[1..], names)
    ensures PositionsNotAmong(if s[0] in names then rest else [s[0]] + rest, s, names)
  {
    var keep := NotAmongMask(s, names);
    assert keep[1..] == NotAmongMask(s[1..], names);
    NotAmongMasks(rest, s[1..], names);
    PicksWhereCons(s, keep, rest);
    NotAmongMasks(if s[0] in names then rest else [s[0]] + rest, s, names);
  }

  /** Which positions of `s` hold a token not among `names`. */
  function NotAmongMask(s: seq<Token>, names: seq<Token>): (keep: seq<bool>)
    ensures |keep| == |s| && forall j :: 0 <= j < |s| ==> (keep[j] <==> s[j] !in names)
  {
    if |s| == 0 then [] else [s[0] !in names] + NotAmongMask(s[1..], names)
  }

  lemma NotAmongMasks(r: seq<Token>, s: seq<Token>, names: seq<Token>)
    ensures PositionsNotAmong(r, s, names) <==> PicksWhere(r, s, NotAmongMask(s, names))
  {
  }

  /** The registered abstractions `TYPES` does not name, in registration
      order. */
  function MissingFromTypes(registry: Registry, types: TypesTable): (r: seq<Token>)
    requires registry.Valid()
    ensures WellKeyed(registry) ==>
              forall t :: t in r <==> t in registry.m && t !in TypesValues(types)
    ensures WellKeyed(registry) ==> PositionsNotAmong(r, registry.keys, TypesValues(types))
  {
    MissingAmong(registry, registry.keys, TypesValues(types))
  }

  function ThrowIfMissingAbstractionsFromTypes(registry: Registry, types: TypesTable, entries: seq<Token>): (r: Outcome)
    requires registry.Valid()
    ensures WellKeyed(registry) ==>
              (r.Pass? <==> forall t :: t in registry.m ==> t in TypesValues(types))
    ensures r.Fail? ==> r.error == TypesIsMissingAbstractions(MissingFromTypes(registry, types), entries)
  {
    var missing := MissingFromTypes(registry, types);
    if |missing| != 0 then
      assert missing[0] in missing;
      Fail(TypesIsMissingAbstractions(missing, entries))
    else Pass
  }

  // -----------------------------------------------------------------------
  // throwIfExtraAbstractionsFromTypes

  /** `s` at the positions whose token has no registration, in order. */
  ghost predicate UnregisteredPositions(r: seq<Token>, s: seq<Token>, registry: Registry) {
    exists idx :: Picks(r, s, idx) && forall j :: 0 <= j < |s| ==> (j in idx <==> s[j] !in registry.m)
  }

  /** The values of `values`, in order, with no registration. */
  function UnregisteredAmong(registry: Registry, values: seq<Token>): (r: seq<Token>)
    ensures forall t :: t in r <==> t in values && t !in registry.m
    ensures UnregisteredPositions(r, values, registry)
    ensures |r| <= |values|
  {
    if |values| == 0 then
      PicksNil(values);
      []
    else
      var rest := UnregisteredAmong(registry, values[1..]);
      assert forall t :: t in values <==> t == values[0] || t in values[1..];
      UnregisteredStep(values, registry, rest);
      if values[0] in registry.m then rest else [values[0]] + rest
  }

  lemma UnregisteredStep(s: seq<Token>, registry: Registry, rest: seq<Token>)
    requires |s| > 0 && UnregisteredPositions(rest, s[1..], registry)
    ensures UnregisteredPositions(if s[0] in registry.m then rest else [s[0]] + rest, s, registry)
  {
    var keep := UnregisteredMask(s, registry);
    assert keep[1..] == UnregisteredMask(s[1..], registry);
    UnregisteredMasks(rest, s[1..], registry);
    PicksWhereCons(s, keep, rest);
    UnregisteredMasks(if s[0] in registry.m then rest else [s[0]] + rest, s, registry);
  }

  /** Which positions of `s` hold a token with no registration. */
  function UnregisteredMask(s: seq<Token>, registry: Registry): (keep: seq<bool>)
    ensures |keep| == |s| && forall j :: 0 <= j < |s| ==> (keep[j] <==> s[j] !in registry.m)
  {
    if |s| == 0 then [] else [s[0] !in registry.m] + UnregisteredMask(s[1..], registry)
  }

  lemma UnregisteredMasks(r: seq<Token>, s: seq<Token>, registry: Registry)
    ensures UnregisteredPositions(r, s, registry) <==> PicksWhere(r, s, UnregisteredMask(s, registry))
  {
  }

  /** The `TYPES` values that are not registered, in property order and
      once per property, so a token held by two properties is listed
      twice. */
  function ExtraInTypes(registry: Registry, types: TypesTable): (r: seq<Token>)
    ensures forall t :: t in r <==> t in TypesValues(types) && t !in registry.m
    ensures UnregisteredPositions(r, TypesValues(types), registry)
  {
    UnregisteredAmong(registry, TypesValues(types))
  }

  function ThrowIfExtraAbstractionsFromTypes(registry: Registry, types: TypesTable, entries: seq<Token>): (r: Outcome)
    ensures r.Pass? <==> forall t :: t in TypesValues(types) ==> t in registry.m
    ensures r.Fail? ==> r.error == TypesHasExtraAbstractions(ExtraInTypes(registry, types), entries)
  {
    var extra := ExtraInTypes(registry, types);
    if |extra| != 0 then
      assert extra[0] in extra;
      Fail(TypesHasExtraAbstractions(extra, entries))
    else Pass
  }

  /** Both audits pass exactly when `TYPES` names the registered tokens and
      nothing else. */
  lemma TypesMatchRegistry(registry: Registry, types: TypesTable, entries: seq<Token>)
    requires WellKeyed(registry)
    ensures (ThrowIfMissingAbstractionsFromTypes(registry, types, entries).Pass?
             && ThrowIfExtraAbstractionsFromTypes(registry, types, entries).Pass?)
            <==> (set t | t in TypesValues(types)) == registry.m.Keys
  {
    var named := set t | t in TypesValues(types);
    if named == registry.m.Keys {
      assert forall t :: t in registry.m ==> t in named;
    }
  }

  // -----------------------------------------------------------------------
  // symbolToTypesKeyFactory

  /** The key under which `TYPES` holds `s`. When two keys hold the same
      token, the later one wins, as `Map.set` overwrites
      (`SymbolToTypesKeyIsLast`). */
  function SymbolToTypesKey(types: TypesTable, s: Token): (r: Result<string>)
    ensures r.Ok? <==> s in TypesValues(types)
    ensures r.Err? ==> r.error == SymbolNotInTypes(s)
  {
    if |types| == 0 then Err(SymbolNotInTypes(s))
    else
      var last := types[|types| - 1];
      assert TypesValues(types) == TypesValues(types[..|types| - 1]) + [last.1];
      if last.1 == s then Ok(last.0) else SymbolToTypesKey(types[..|types| - 1], s)
  }

  /** The key found is the one at the last position holding `s`. */
  lemma {:induction false} SymbolToTypesKeyIsLast(types: TypesTable, s: Token, i: nat)
    requires i < |types| && types[i].1 == s
    requires forall j :: i < j < |types| ==> types[j].1 != s
    ensures SymbolToTypesKey(types, s) == Ok(types[i].0)
  {
    if i < |types| - 1 {
      var init := types[..|types| - 1];
      assert init[i] == types[i];
      SymbolToTypesKeyIsLast(init, s, i);
    }
  }

  /** Looking a token up in a table with one more entry at the end. */
  lemma SymbolToTypesKeySnoc(types: TypesTable, k: string, v: Token, s: Token)
    ensures SymbolToTypesKey(types + [(k, v)], s) == if v == s then Ok(k) else SymbolToTypesKey(types, s)
  {
    assert (types + [(k, v)])[..|types|] == types;
  }

  /** The factory's one pass over `Object.entries(TYPES)`, building the map
      its lookups read. */
  method SymbolIndex(types: TypesTable) returns (index: map<Token, string>)
    ensures forall s :: s in index <==> s in TypesValues(types)
    ensures forall s :: s in index ==> SymbolToTypesKey(types, s) == Ok(index[s])
  {
    index := map[];
    var i := 0;
    while i < |types|
      invariant 0 <= i <= |types|
      invariant forall s :: s in index <==> SymbolToTypesKey(types[..i], s).Ok?
      invariant forall s :: s in index ==> SymbolToTypesKey(types[..i], s) == Ok(index[s])
    {
      var (k, v) := types[i];
      assert types[..i + 1] == types[..i] + [(k, v)];
      forall s
        ensures SymbolToTypesKey(types[..i + 1], s) == if v == s then Ok(k) else SymbolToTypesKey(types[..i], s)
      {
        SymbolToTypesKeySnoc(types[..i], k, v, s);
      }
      index := index[v := k];
      i := i + 1;
    }
    assert types[..i] == types;
  }
}
