/** The guards the container and every traversal run against the registry:
    src/Dic/getRegistrationStrictOf.ts, src/Dic/getRegistrationOf.ts,
    src/Dic/throwIfAlreadyRegistered.ts and
    src/Dic/validateNumberOfDependencies.ts. */
module Lookup {
  import opened JsMaps
  import opened Types
  import opened Errors

  /** The registration of `a`, or AbstractionNotRegistered. */
  function GetRegistrationStrictOf(registry: Registry, a: Token): (r: Result<Registration>)
    ensures r.Ok? <==> a in registry.m
    ensures r.Ok? ==> r.value == registry.m[a]
    ensures r.Err? ==> r.error == AbstractionNotRegistered(a)
  {
    match registry.Get(a)
    case Some(registration) => Ok(registration)
    case None => Err(AbstractionNotRegistered(a))
  }

  /** In a registry kept by the container, the registration found for `a`
      is the registration of `a`. */
  lemma StrictLookupFindsOwnRegistration(registry: Registry, a: Token)
    requires WellKeyed(registry)
    ensures GetRegistrationStrictOf(registry, a).Ok? ==> GetRegistrationStrictOf(registry, a).value.abstraction == a
  {
  }

  /** The older lookup: an `undefined` registration goes to `logAndError`,
      which logs and then always throws; the log line is not modelled. */
  function GetRegistrationOf(registry: Registry, a: Token): (r: Result<Registration>)
    ensures r.Ok? <==> a in registry.m
    ensures r.Ok? ==> r.value == registry.m[a]
    ensures r.Err? ==> r.error == AbstractionNotRegistered(a)
  {
    var registration := registry.Get(a);
    if registration == None then LogAndError(AbstractionNotRegistered(a))
    else Ok(registration.value)
  }

  /** `logAndError`: never returns a value. */
  function LogAndError<T>(e: Error): (r: Result<T>) {
    Err(e)
  }

  /** The two lookups, defined apart, answer alike on every input. */
  lemma LookupsAgree(registry: Registry, a: Token)
    ensures GetRegistrationOf(registry, a) == GetRegistrationStrictOf(registry, a)
  {
  }

  /** Fails exactly when `a` already has a registration. */
  function ThrowIfAlreadyRegistered(a: Token, registry: Registry): (r: Outcome)
    ensures r.Fail? <==> a in registry.m
    ensures r.Fail? ==> r.error == AbstractionAlreadyRegistered(a)
  {
    if GetRegistrationStrictOf(registry, a).Ok? then Fail(AbstractionAlreadyRegistered(a)) else Pass
  }

  /** Fails exactly when the factory's declared parameter count differs
      from the number of dependencies. */
  function ValidateNumberOfDependencies(dependencies: seq<Token>, factory: Factory): (r: Outcome)
    ensures r.Pass? <==> factory.arity == |dependencies|
    ensures r.Fail? ==> r.error == InconsistentNumberOfDependencies(factory)
  {
    if factory.arity != |dependencies| then Fail(InconsistentNumberOfDependencies(factory)) else Pass
  }

  /** The index of the first token of `s` that is not registered, or `|s|`
      when all are. */
  function FirstUnregistered(s: seq<Token>, registry: Registry): (i: nat)
    ensures i <= |s|
    ensures forall j :: 0 <= j < i ==> s[j] in registry.m
    ensures i < |s| ==> s[i] !in registry.m
  {
    if |s| == 0 || s[0] !in registry.m then 0 else 1 + FirstUnregistered(s[1..], registry)
  }
}
