/** Registrations as the test suites write them: a factory named after
    its token and taking one parameter per dependency, a singleton life
    cycle, and no interceptors. */
module Fixtures {
  import opened Types

  function Reg(a: Token, deps: seq<Token>): (r: Registration)
    ensures r.abstraction == a && r.dependencies == deps
    ensures r.factory.arity == |deps|
  {
    Registration(a, deps, Factory(a.id, a.name, |deps|), Singleton, [])
  }
}
