/** `detectCycles` on the two graphs of the "detects circular loops"
    cases of src/validateDependencyGraph/validateDependencyGraph.test.ts,
    evaluated step by step. */
module CycleExamples {
  import opened JsMaps
  import opened Types
  import opened Errors
  import opened Fixtures
  import opened CycleDetection

  const A := Token(1, "a")
  const B := Token(2, "b")
  const C := Token(3, "c")
  const D := Token(4, "d")
  const E := Token(5, "e")
  const F := Token(6, "f")
  const AC := Token(7, "ac")

  // -----------------------------------------------------------------------
  // A token that depends on itself.

  function SelfLoop(): Registry {
    JsMap([A], map[A := Reg(A, [A])])
  }

  /** The report is the one-token path `[a]`. */
  lemma SelfLoopReported()
    ensures DetectCycles(SelfLoop(), [A]) == Fail(GraphHasCycle(A, [A]))
  {
    assert Explore(SelfLoop(), [A], 0, {}) == Err(GraphHasCycle(A, [A]));
  }

  // -----------------------------------------------------------------------
  // a → b, c;  c → d, ac;  d → e;  ac → a;  entry points f, d, e, a.

  function Loop(): Registry {
    JsMap([A, B, C, D, E, F, AC],
          map[A := Reg(A, [B, C]), B := Reg(B, []), C := Reg(C, [D, AC]), D := Reg(D, [E]),
              E := Reg(E, []), F := Reg(F, []), AC := Reg(AC, [A])])
  }

  const Leaves0: set<Token> := {F, E, B}

  lemma LoopLeaves()
    ensures Leaves(Loop(), Leaves0)
  {
  }

  lemma AcClosesLoop()
    ensures SimplePath(Loop(), [A, C, AC])
    ensures Explore(Loop(), [A, C, AC], 0, Leaves0) == Err(GraphHasCycle(A, [A, C, AC]))
  {
  }

  lemma DBelowC()
    ensures SimplePath(Loop(), [A, C, D])
    ensures Explore(Loop(), [A, C, D], 0, Leaves0) == Ok(Leaves0)
  {
    ExploreSkipsLeaf(Loop(), [A, C, D], 0, Leaves0);
    assert Leaves0 + {E} == Leaves0;
  }

  lemma PathThroughC()
    ensures SimplePath(Loop(), [A, C])
  {
  }

  lemma CLastDependency()
    ensures Explore(Loop(), [A, C], 1, Leaves0) == Err(GraphHasCycle(A, [A, C, AC]))
  {
    LoopLeaves();
    PathThroughC();
    AcClosesLoop();
    ExploreDescends(Loop(), [A, C], 1, Leaves0);
    assert [A, C] + [AC] == [A, C, AC];
  }

  lemma CFirstDependency()
    ensures Explore(Loop(), [A, C], 0, Leaves0) == Explore(Loop(), [A, C], 1, Leaves0)
  {
    LoopLeaves();
    PathThroughC();
    DBelowC();
    ExploreDescends(Loop(), [A, C], 0, Leaves0);
    assert [A, C] + [D] == [A, C, D];
  }

  lemma ALastDependency()
    ensures Explore(Loop(), [A], 1, Leaves0) == Err(GraphHasCycle(A, [A, C, AC]))
  {
    LoopLeaves();
    PathThroughC();
    CFirstDependency();
    CLastDependency();
    assert [A] + [C] == [A, C];
    assert Loop().m[A].dependencies == [B, C];
    ExploreDescends(Loop(), [A], 1, Leaves0);
  }

  lemma AFirstDependency()
    ensures Explore(Loop(), [A], 0, {F, E}) == Explore(Loop(), [A], 1, Leaves0)
  {
    ExploreSkipsLeaf(Loop(), [A], 0, {F, E});
    assert {F, E} + {B} == Leaves0;
  }

  lemma FromD()
    ensures Explore(Loop(), [D], 0, {F}) == Ok({F, E})
  {
    ExploreSkipsLeaf(Loop(), [D], 0, {F});
    assert {F} + {E} == {F, E};
  }

  lemma EntriesFromD()
    ensures DetectFrom(Loop(), [F, D, E, A], 1, {F}) == DetectFrom(Loop(), [F, D, E, A], 3, {F, E})
  {
    FromD();
  }

  lemma EntryA()
    ensures DetectFrom(Loop(), [F, D, E, A], 3, {F, E}) == Err(GraphHasCycle(A, [A, C, AC]))
  {
    AFirstDependency();
    ALastDependency();
  }

  /** The report is the active path `a, c, ac` that `ac`'s dependency on
      `a` closes. */
  lemma LoopReported()
    ensures DetectCycles(Loop(), [F, D, E, A]) == Fail(GraphHasCycle(A, [A, C, AC]))
  {
    assert DetectFrom(Loop(), [F, D, E, A], 0, {}) == DetectFrom(Loop(), [F, D, E, A], 1, {F}) by {
      assert {} + {F} == {F};
    }
    EntriesFromD();
    EntryA();
  }
}
