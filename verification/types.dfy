/** The data model of the container (src/types.ts): abstraction tokens,
    factories, interceptors, the concretions they produce, registrations
    and the registry. */
module Types {
  import opened JsMaps

  /** An abstraction: a JavaScript `Symbol`. `id` stands for the symbol's
      identity; `name` is its description, used only for diagnostics. */
  datatype Token = Token(id: nat, name: string)

  /** A factory function. Its body is foreign code; the container only uses
      its `name` and its declared parameter count `arity` (`factory.length`). */
  datatype Factory = Factory(id: nat, name: string, arity: nat)

  /** An interceptor function, applied to a concretion after construction. */
  datatype Interceptor = Interceptor(id: nat)

  /** A concretion, as a term over the foreign callbacks: `Made(f, args)` is
      the value of calling factory `f` on `args`, `Wrapped(i, v)` the value
      interceptor `i` returns for `v`, and `Supplied(id)` a value the caller
      hands in (through `inject`). Nothing is assumed about what the
      callbacks compute, so every fact proved about these terms holds for
      any interpretation of them. */
  datatype Value =
    | Made(factory: Factory, args: seq<Value>)
    | Wrapped(interceptor: Interceptor, inner: Value)
    | Supplied(id: nat)

  datatype LifeCycle = Singleton | Transient

  /** A registry entry. */
  datatype Registration = Registration(
    abstraction: Token,
    dependencies: seq<Token>,
    factory: Factory,
    lifeCycle: LifeCycle,
    intercept: seq<Interceptor>)

  /** `Map<abstraction, registration>`, in insertion order. */
  type Registry = JsMap<Token, Registration>

  /** `Map<abstraction, concretion>`, in insertion order. */
  type MemoizationTable = JsMap<Token, Value>

  /** The registry's shape as the container maintains it: every key maps to
      a registration of that same key. */
  ghost predicate WellKeyed(registry: Registry) {
    && registry.Valid()
    && forall k :: k in registry.m ==> registry.m[k].abstraction == k
  }

  /** The dependencies of a registered token. */
  function DependenciesOf(registry: Registry, a: Token): seq<Token>
    requires a in registry.m
  {
    registry.m[a].dependencies
  }

  /** `TYPES`: the object literal naming every abstraction, as the list of
      its `Object.entries`, in property order. */
  type TypesTable = seq<(string, Token)>

  /** `Object.values(TYPES)`. */
  function TypesValues(types: TypesTable): (r: seq<Token>)
    ensures |r| == |types|
    ensures forall i :: 0 <= i < |types| ==> r[i] == types[i].1
  {
    if |types| == 0 then [] else [types[0].1] + TypesValues(types[1..])
  }
}
