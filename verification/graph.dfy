/** The dependency graph a registry describes: an edge from a registered
    token to each of its dependencies. Walks are the vocabulary the
    traversal audits state their results in. */
module Graph {
  import opened Seqs
  import opened JsMaps
  import opened Types

  /** `w` follows registry edges: every token but the last is registered
      and lists the next one among its dependencies. */
  ghost predicate IsWalk(registry: Registry, w: seq<Token>) {
    && |w| > 0
    && forall j :: 0 <= j < |w| - 1 ==> w[j] in registry.m && w[j + 1] in registry.m[w[j]].dependencies
  }

  /** A dependency cycle: a walk through distinct tokens whose last token
      depends on its first. */
  ghost predicate IsCycle(registry: Registry, c: seq<Token>) {
    && IsWalk(registry, c)
    && Distinct(c)
    && c[|c| - 1] in registry.m
    && c[0] in registry.m[c[|c| - 1]].dependencies
  }

  /** There is a walk from `a` to `b`. */
  ghost predicate Reaches(registry: Registry, a: Token, b: Token) {
    exists w :: IsWalk(registry, w) && w[0] == a && w[|w| - 1] == b
  }

  lemma WalkAppend(registry: Registry, w: seq<Token>, d: Token)
    requires IsWalk(registry, w)
    requires w[|w| - 1] in registry.m && d in registry.m[w[|w| - 1]].dependencies
    ensures IsWalk(registry, w + [d])
  {
  }

  lemma WalkTail(registry: Registry, w: seq<Token>)
    requires IsWalk(registry, w) && |w| > 1
    ensures IsWalk(registry, w[1..])
  {
  }

  lemma WalkSlice(registry: Registry, w: seq<Token>, i: nat, j: nat)
    requires IsWalk(registry, w) && i < j <= |w|
    ensures IsWalk(registry, w[i..j])
  {
  }

  lemma ReachesRefl(registry: Registry, a: Token)
    ensures Reaches(registry, a, a)
  {
    assert IsWalk(registry, [a]);
  }

  lemma ReachesStep(registry: Registry, a: Token, x: Token, d: Token)
    requires Reaches(registry, a, x)
    requires x in registry.m && d in registry.m[x].dependencies
    ensures Reaches(registry, a, d)
  {
    var w :| IsWalk(registry, w) && w[0] == a && w[|w| - 1] == x;
    WalkAppend(registry, w, d);
    assert (w + [d])[0] == a;
  }
}
