/** The dependency-injection container (src/Dic/Dic.ts): a registry of
    registrations and a memoization table of singleton concretions, with
    `register`, `unregister`, `get` and `clearMemoizationTable`.

    Operations are functions from the container's state to its next state.
    When `Dic` throws after having changed its maps (a `get` that
    stored some dependencies before a deeper one failed, a
    `clearMemoizationTable` that deleted some entries before meeting an
    unregistered one), the next state is returned together with the error. */
module Container {
  import opened Seqs
  import opened JsMaps
  import opened Types
  import opened Errors
  import opened Lookup

  datatype Dic = Dic(registry: Registry, memoizationTable: MemoizationTable)

  /** The shape every container keeps. */
  ghost predicate Valid(dic: Dic) {
    WellKeyed(dic.registry) && dic.memoizationTable.Valid()
  }

  /** `new Dic()`. */
  function NewDic(): (dic: Dic)
    ensures Valid(dic)
    ensures dic.registry.m == map[] && dic.memoizationTable.m == map[]
  {
    Dic(Empty(), Empty())
  }

  // -----------------------------------------------------------------------
  // register

  /** The checks `register` runs, in order, before it inserts. */
  function RegisterChecks(dic: Dic, abstraction: Token, dependencies: seq<Token>, factory: Factory): (r: Outcome)
    ensures r.Pass? <==>
              && abstraction.name != ""
              && factory.name != "factory"
              && abstraction !in dic.registry.m
              && factory.arity == |dependencies|
    ensures abstraction.name == "" ==> r == Fail(AbstractionHasNoName(abstraction))
    ensures abstraction.name != "" && factory.name == "factory" ==> r == Fail(BadFactoryName(factory))
    ensures abstraction.name != "" && factory.name != "factory" && abstraction in dic.registry.m ==>
              r == Fail(AbstractionAlreadyRegistered(abstraction))
    ensures abstraction.name != "" && factory.name != "factory" && abstraction !in dic.registry.m
            && factory.arity != |dependencies| ==>
              r == Fail(InconsistentNumberOfDependencies(factory))
  {
    if abstraction.name == "" then Fail(AbstractionHasNoName(abstraction))
    else if factory.name == "factory" then Fail(BadFactoryName(factory))
    else if ThrowIfAlreadyRegistered(abstraction, dic.registry).Fail? then
      ThrowIfAlreadyRegistered(abstraction, dic.registry)
    else ValidateNumberOfDependencies(dependencies, factory)
  }

  /** `register({abstraction, dependencies, factory, lifeCycle}, {intercept})`:
      the checks, then one insertion at the end of the registry's order. A
      failed check leaves the container as it was. */
  function Register(dic: Dic, abstraction: Token, dependencies: seq<Token>, factory: Factory,
                    lifeCycle: LifeCycle, intercept: Option<seq<Interceptor>>): (r: Result<Dic>)
    requires Valid(dic)
    ensures r.Ok? <==> RegisterChecks(dic, abstraction, dependencies, factory).Pass?
    ensures r.Err? ==> r.error == RegisterChecks(dic, abstraction, dependencies, factory).error
    ensures r.Ok? ==>
              && Valid(r.value)
              && r.value.registry.keys == dic.registry.keys + [abstraction]
              && r.value.registry.m == dic.registry.m[abstraction :=
                   Registration(abstraction, dependencies, factory, lifeCycle, intercept.GetOr([]))]
              && r.value.memoizationTable == dic.memoizationTable
  {
    var checks := RegisterChecks(dic, abstraction, dependencies, factory);
    if checks.Fail? then Err(checks.error)
    else
      var registration := Registration(abstraction, dependencies, factory, lifeCycle, intercept.GetOr([]));
      Ok(dic.(registry := dic.registry.Set(abstraction, registration)))
  }

  // -----------------------------------------------------------------------
  // unregister

  /** `unregister({abstraction})`: removes the key and reports whether it
      was there. The memoization table is left alone, so a memoized value
      of the removed key stays in it. */
  function Unregister(dic: Dic, abstraction: Token): (r: (Dic, bool))
    requires Valid(dic)
    ensures Valid(r.0)
    ensures r.1 <==> abstraction in dic.registry.m
    ensures r.0.registry.m == dic.registry.m - {abstraction}
    ensures r.0.registry.keys == Without(dic.registry.keys, abstraction)
    ensures r.0.memoizationTable == dic.memoizationTable
  {
    var (registry, found) := dic.registry.Delete(abstraction);
    (dic.(registry := registry), found)
  }

  lemma {:induction false} WithoutAbsent(s: seq<Token>, x: Token)
    requires x !in s
    ensures Without(s, x) == s
  {
    if |s| > 0 {
      WithoutAbsent(s[1..], x);
      assert s == [s[0]] + s[1..];
    }
  }

  /** Unregistering what was just registered gives the registry back, key
      order included. */
  lemma UnregisterUndoesRegister(dic: Dic, abstraction: Token, dependencies: seq<Token>, factory: Factory,
                                 lifeCycle: LifeCycle, intercept: Option<seq<Interceptor>>)
    requires Valid(dic)
    requires Register(dic, abstraction, dependencies, factory, lifeCycle, intercept).Ok?
    ensures Unregister(Register(dic, abstraction, dependencies, factory, lifeCycle, intercept).value, abstraction)
            == (dic, true)
  {
    var d := Register(dic, abstraction, dependencies, factory, lifeCycle, intercept).value;
    WithoutAbsent(dic.registry.keys, abstraction);
    assert Without(dic.registry.keys + [abstraction], abstraction) == dic.registry.keys by {
      WithoutAppend(dic.registry.keys, abstraction);
    }
    assert d.registry.m - {abstraction} == dic.registry.m;
  }

  lemma {:induction false} WithoutAppend(s: seq<Token>, x: Token)
    ensures Without(s + [x], x) == Without(s, x)
  {
    if |s| == 0 {
      assert s + [x] == [x];
    } else {
      assert (s + [x])[1..] == s[1..] + [x];
      WithoutAppend(s[1..], x);
    }
  }

  // -----------------------------------------------------------------------
  // get

  /** `intercept.reduceRight((a, c) => c({concretion: a, dic}), v)`. */
  function Intercept(chain: seq<Interceptor>, v: Value): Value
    decreases |chain|
  {
    if |chain| == 0 then v
    else Intercept(chain[..|chain| - 1], Wrapped(chain[|chain| - 1], v))
  }

  /** `I1(I2(... In(v)))` for `chain == [I1, ..., In]`: the first-listed
      interceptor is the outermost. */
  function Nest(chain: seq<Interceptor>, v: Value): Value {
    if |chain| == 0 then v else Wrapped(chain[0], Nest(chain[1..], v))
  }

  lemma {:induction false} NestSnoc(chain: seq<Interceptor>, i: Interceptor, v: Value)
    ensures Nest(chain + [i], v) == Nest(chain, Wrapped(i, v))
  {
    if |chain| > 0 {
      assert (chain + [i])[1..] == chain[1..] + [i];
      NestSnoc(chain[1..], i, v);
    }
  }

  /** The right-to-left fold applies the last-listed interceptor first. */
  lemma {:induction false} InterceptIsNest(chain: seq<Interceptor>, v: Value)
    ensures Intercept(chain, v) == Nest(chain, v)
    decreases |chain|
  {
    if |chain| > 0 {
      var init, last := chain[..|chain| - 1], chain[|chain| - 1];
      InterceptIsNest(init, Wrapped(last, v));
      NestSnoc(init, last, v);
      assert init + [last] == chain;
    }
  }

  /** Acyclicity, witnessed by a rank: every registered dependency of a
      registered token is ranked strictly below it. */
  ghost predicate Ranked(registry: Registry, rank: map<Token, nat>) {
    forall k :: k in registry.m ==>
      && k in rank
      && forall d :: d in registry.m[k].dependencies && d in registry.m ==> d in rank && rank[d] < rank[k]
  }

  /** Height used to prove that resolution terminates; unregistered tokens
      sit at the bottom, since resolving them fails at once. */
  ghost function Level(registry: Registry, rank: map<Token, nat>, a: Token): nat {
    if a in registry.m && a in rank then rank[a] + 1 else 0
  }

  /** The outcome of a (partial) resolution: the container afterwards, the
      value or error, and the tokens whose factories were called, in call
      order. */
  datatype Resolved<T> = Resolved(dic: Dic, result: Result<T>, calls: seq<Token>)

  /** `after` is `before` with possibly more memoized entries: the registry
      and every existing memo entry are unchanged. */
  ghost predicate Grows(before: Dic, after: Dic) {
    && after.registry == before.registry
    && after.memoizationTable.Valid()
    && forall k :: k in before.memoizationTable.m ==>
         k in after.memoizationTable.m && after.memoizationTable.m[k] == before.memoizationTable.m[k]
  }

  /** `get({abstraction, inject})`. An absent `inject` is the empty map. */
  function Get(dic: Dic, a: Token, inject: map<Token, Value>, ghost rank: map<Token, nat>): (res: Resolved<Value>)
    requires dic.memoizationTable.Valid() && Ranked(dic.registry, rank)
    ensures Grows(dic, res.dic)
    ensures forall k :: k in res.dic.memoizationTable.m && k !in dic.memoizationTable.m ==>
              k in dic.registry.m && Level(dic.registry, rank, k) <= Level(dic.registry, rank, a)
    ensures forall t :: t in res.calls ==> t == a || t !in inject
    ensures a !in dic.registry.m ==> res == Resolved(dic, Err(AbstractionNotRegistered(a)), [])
    ensures a in dic.registry.m && a in dic.memoizationTable.m ==>
              res == Resolved(dic, Ok(dic.memoizationTable.m[a]), [])
    ensures a in dic.registry.m && a !in dic.memoizationTable.m && res.result.Ok? ==>
              && |res.calls| > 0 && res.calls[|res.calls| - 1] == a
              && (dic.registry.m[a].lifeCycle == Singleton ==>
                    a in res.dic.memoizationTable.m && res.dic.memoizationTable.m[a] == res.result.value)
              && (dic.registry.m[a].lifeCycle == Transient ==> a !in res.dic.memoizationTable.m)
    decreases Level(dic.registry, rank, a), 1
  {
    match GetRegistrationStrictOf(dic.registry, a)
    case Err(e) => Resolved(dic, Err(e), [])
    case Ok(registration) =>
      if a in dic.memoizationTable.m then Resolved(dic, Ok(dic.memoizationTable.m[a]), [])
      else
        var deps := ResolveDependencies(dic, registration.dependencies, inject, rank, Level(dic.registry, rank, a));
        if deps.result.Err? then Resolved(deps.dic, Err(deps.result.error), deps.calls)
        else
          var v := Intercept(registration.intercept, Made(registration.factory, deps.result.value));
          var after :=
            if registration.lifeCycle == Singleton
            then deps.dic.(memoizationTable := deps.dic.memoizationTable.Set(a, v))
            else deps.dic;
          Resolved(after, Ok(v), deps.calls + [a])
  }

  /** `dependencies.map(...)` inside `get`: each dependency in declared
      order, taken from `inject` when it is there and resolved otherwise;
      the first failure aborts. */
  function ResolveDependencies(dic: Dic, deps: seq<Token>, inject: map<Token, Value>,
                               ghost rank: map<Token, nat>, ghost bound: nat): (res: Resolved<seq<Value>>)
    requires dic.memoizationTable.Valid() && Ranked(dic.registry, rank)
    requires forall d :: d in deps ==> Level(dic.registry, rank, d) < bound
    ensures Grows(dic, res.dic)
    ensures forall k :: k in res.dic.memoizationTable.m && k !in dic.memoizationTable.m ==>
              k in dic.registry.m && Level(dic.registry, rank, k) < bound
    ensures forall t :: t in res.calls ==> t !in inject
    ensures res.result.Ok? ==>
              && |res.result.value| == |deps|
              && forall j :: 0 <= j < |deps| && deps[j] in inject ==> res.result.value[j] == inject[deps[j]]
    decreases bound, 0, |deps|
  {
    if |deps| == 0 then Resolved(dic, Ok([]), [])
    else
      var d := deps[0];
      var first :=
        if d in inject then Resolved(dic, Ok(inject[d]), [])
        else Get(dic, d, inject, rank);
      if first.result.Err? then Resolved(first.dic, Err(first.result.error), first.calls)
      else
        var rest := ResolveDependencies(first.dic, deps[1..], inject, rank, bound);
        if rest.result.Err? then Resolved(rest.dic, Err(rest.result.error), first.calls + rest.calls)
        else Resolved(rest.dic, Ok([first.result.value] + rest.result.value), first.calls + rest.calls)
  }

  // -----------------------------------------------------------------------
  // What `get` computes, without the memoization table

  /** The concretion of `a` built from scratch: each dependency injected or
      built in turn, the factory applied, the interceptors nested. */
  ghost function Denote(registry: Registry, a: Token, inject: map<Token, Value>, rank: map<Token, nat>): Result<Value>
    requires Ranked(registry, rank)
    decreases Level(registry, rank, a), 1
  {
    if a !in registry.m then Err(AbstractionNotRegistered(a))
    else
      var registration := registry.m[a];
      match DenoteAll(registry, registration.dependencies, inject, rank, Level(registry, rank, a))
      case Err(e) => Err(e)
      case Ok(args) => Ok(Nest(registration.intercept, Made(registration.factory, args)))
  }

  ghost function DenoteAll(registry: Registry, deps: seq<Token>, inject: map<Token, Value>,
                           rank: map<Token, nat>, bound: nat): Result<seq<Value>>
    requires Ranked(registry, rank)
    requires forall d :: d in deps ==> Level(registry, rank, d) < bound
    decreases bound, 0, |deps|
  {
    if |deps| == 0 then Ok([])
    else
      var first := if deps[0] in inject then Ok(inject[deps[0]]) else Denote(registry, deps[0], inject, rank);
      match first
      case Err(e) => Err(e)
      case Ok(v) =>
        match DenoteAll(registry, deps[1..], inject, rank, bound)
        case Err(e) => Err(e)
        case Ok(vs) => Ok([v] + vs)
  }

  /** Every memoized value of a registered token is what building it from
      scratch with `inject` gives. */
  ghost predicate Coherent(dic: Dic, inject: map<Token, Value>, rank: map<Token, nat>)
    requires Ranked(dic.registry, rank)
  {
    forall k :: k in dic.memoizationTable.m && k in dic.registry.m ==>
      Denote(dic.registry, k, inject, rank) == Ok(dic.memoizationTable.m[k])
  }

  /** Memoization is transparent: from a coherent table, `get` returns what
      building from scratch returns, and leaves the table coherent. */
  lemma {:induction false} GetIsDenote(dic: Dic, a: Token, inject: map<Token, Value>, rank: map<Token, nat>)
    requires dic.memoizationTable.Valid() && Ranked(dic.registry, rank)
    requires Coherent(dic, inject, rank)
    ensures Get(dic, a, inject, rank).result == Denote(dic.registry, a, inject, rank)
    ensures Coherent(Get(dic, a, inject, rank).dic, inject, rank)
    decreases Level(dic.registry, rank, a), 1
  {
    if a in dic.registry.m && a !in dic.memoizationTable.m {
      var registration := dic.registry.m[a];
      var bound := Level(dic.registry, rank, a);
      ResolveIsDenoteAll(dic, registration.dependencies, inject, rank, bound);
      var deps := ResolveDependencies(dic, registration.dependencies, inject, rank, bound);
      if deps.result.Ok? {
        var raw := Made(registration.factory, deps.result.value);
        InterceptIsNest(registration.intercept, raw);
        var res := Get(dic, a, inject, rank);
        assert res.result == Ok(Nest(registration.intercept, raw));
        forall k | k in res.dic.memoizationTable.m && k in res.dic.registry.m
          ensures Denote(res.dic.registry, k, inject, rank) == Ok(res.dic.memoizationTable.m[k])
        {
          if k != a {
            assert k in deps.dic.memoizationTable.m;
          }
        }
      }
    }
  }

  lemma {:induction false} ResolveIsDenoteAll(dic: Dic, deps: seq<Token>, inject: map<Token, Value>,
                                              rank: map<Token, nat>, bound: nat)
    requires dic.memoizationTable.Valid() && Ranked(dic.registry, rank)
    requires forall d :: d in deps ==> Level(dic.registry, rank, d) < bound
    requires Coherent(dic, inject, rank)
    ensures ResolveDependencies(dic, deps, inject, rank, bound).result == DenoteAll(dic.registry, deps, inject, rank, bound)
    ensures Coherent(ResolveDependencies(dic, deps, inject, rank, bound).dic, inject, rank)
    decreases bound, 0, |deps|
  {
    if |deps| > 0 {
      var d := deps[0];
      if d !in inject {
        GetIsDenote(dic, d, inject, rank);
      }
      var first := if d in inject then Resolved(dic, Ok(inject[d]), []) else Get(dic, d, inject, rank);
      if first.result.Ok? {
        ResolveIsDenoteAll(first.dic, deps[1..], inject, rank, bound);
      }
    }
  }

  // -----------------------------------------------------------------------
  // clearMemoizationTable

  /** Deletes the memo entries listed in `pending` (the table's remaining
      keys, in order), looking each one up in the registry first. */
  function ClearFrom(dic: Dic, pending: seq<Token>): (r: (Dic, Outcome))
    requires Valid(dic) && pending == dic.memoizationTable.keys
    ensures Valid(r.0) && r.0.registry == dic.registry
    ensures r.1.Pass? <==> FirstUnregistered(pending, dic.registry) == |pending|
    ensures r.1.Pass? ==> r.0.memoizationTable.keys == []
    ensures r.1.Fail? ==>
              var i := FirstUnregistered(pending, dic.registry);
              && i < |pending|
              && r.1.error == AbstractionNotRegistered(pending[i])
              && r.0.memoizationTable.keys == pending[i..]
    ensures forall k :: k in r.0.memoizationTable.m ==>
              k in dic.memoizationTable.m && r.0.memoizationTable.m[k] == dic.memoizationTable.m[k]
    decreases |pending|
  {
    if |pending| == 0 then (dic, Pass)
    else
      match GetRegistrationStrictOf(dic.registry, pending[0])
      case Err(e) => (dic, Fail(e))
      case Ok(registration) =>
        StrictLookupFindsOwnRegistration(dic.registry, pending[0]);
        var (memo, _) := dic.memoizationTable.Delete(registration.abstraction);
        WithoutHead(pending);
        ClearFrom(dic.(memoizationTable := memo), pending[1..])
  }

  lemma WithoutHead(s: seq<Token>)
    requires |s| > 0 && Distinct(s)
    ensures Without(s, s[0]) == s[1..]
  {
    assert s[0] !in s[1..];
    WithoutAbsent(s[1..], s[0]);
  }

  /** `clearMemoizationTable()`: visits the table in insertion order,
      deleting each entry after looking its key up in the registry; the
      first key no longer registered stops it with AbstractionNotRegistered,
      the entries from that key on staying in the table. */
  function ClearMemoizationTable(dic: Dic): (r: (Dic, Outcome))
    requires Valid(dic)
    ensures Valid(r.0) && r.0.registry == dic.registry
    ensures r.1.Pass? <==> forall k :: k in dic.memoizationTable.m ==> k in dic.registry.m
    ensures r.1.Pass? ==> r.0.memoizationTable.m == map[] && r.0.memoizationTable.keys == []
    ensures r.1.Fail? ==>
              var keys := dic.memoizationTable.keys;
              exists i :: 0 <= i < |keys|
                && keys[i] !in dic.registry.m
                && (forall j :: 0 <= j < i ==> keys[j] in dic.registry.m)
                && r.1.error == AbstractionNotRegistered(keys[i])
                && r.0.memoizationTable.keys == keys[i..]
    ensures forall k :: k in r.0.memoizationTable.m ==> r.0.memoizationTable.m[k] == dic.memoizationTable.m[k]
  {
    var r := ClearFrom(dic, dic.memoizationTable.keys);
    var i := FirstUnregistered(dic.memoizationTable.keys, dic.registry);
    assert r.1.Pass? ==> forall k :: k in dic.memoizationTable.m ==> k in dic.registry.m;
    assert r.1.Pass? ==> r.0.memoizationTable.m == map[];
    r
  }
}
