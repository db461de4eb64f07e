/** The depth-first layout of `Printer.LaysOut` on two small graphs.

    In the first, a depends on b and c and b depends on d: d's line sits
    directly under b's line, and printing the siblings b and c first is
    not a layout.

    In the second, a depends on b, c and x, b on d, c on e and x on b: b is
    expanded at its first line only, its second line under x carries the
    marker, and c, reached for the first time, is expanded rather than
    marked. */
module LayoutExamples {
  import opened JsMaps
  import opened Types
  import opened Errors
  import opened Printer
  import opened TypesAudit
  import opened Fixtures

  const A := Token(1, "a")
  const B := Token(2, "b")
  const C := Token(3, "c")
  const D := Token(4, "d")
  const E := Token(5, "e")
  const X := Token(6, "x")

  function Fork(): Registry {
    JsMap([A, B, C, D], map[A := Reg(A, [B, C]), B := Reg(B, [D]), C := Reg(C, []), D := Reg(D, [])])
  }

  const ForkTypes: TypesTable := [("a", A), ("b", B), ("c", C), ("d", D)]

  const EdgeB := Edge([], B, "b", false)
  const EdgeC := Edge([], C, "c", false)
  const EdgeD := Edge([false], D, "d", false)

  lemma Names()
    ensures SymbolToTypesKey(ForkTypes, B) == Ok("b")
    ensures SymbolToTypesKey(ForkTypes, C) == Ok("c")
    ensures SymbolToTypesKey(ForkTypes, D) == Ok("d")
  {
    SymbolToTypesKeyIsLast(ForkTypes, B, 1);
    SymbolToTypesKeyIsLast(ForkTypes, C, 2);
    SymbolToTypesKeyIsLast(ForkTypes, D, 3);
  }

  /** A token with no dependencies, met for the first time: its edge is
      unmarked and nothing is printed under it. */
  lemma LeafSubtree(registry: Registry, types: TypesTable, t: Token, flags: seq<bool>, seen: set<Token>)
    requires t in registry.m && registry.m[t].dependencies == [] && t !in seen
    ensures Subtree(registry, types, t, flags, seen, false, [])
  {
    LaysOutNil(registry, types, [], flags, seen + {t});
  }

  /** A token with dependencies, met again: its edge is marked and
      nothing is printed under it. */
  lemma RepeatSubtree(registry: Registry, types: TypesTable, t: Token, flags: seq<bool>, seen: set<Token>)
    requires t in registry.m && |registry.m[t].dependencies| > 0 && t in seen
    ensures Subtree(registry, types, t, flags, seen, true, [])
  {
  }

  /** A token with a single dependency, met for the first time: the edge
      to that dependency, then that dependency's subtree. */
  lemma OnlyChild(registry: Registry, types: TypesTable, t: Token, flags: seq<bool>, seen: set<Token>,
                  e: Edge, below: seq<Edge>)
    requires t in registry.m && registry.m[t].dependencies == [e.child] && t !in seen
    requires e.indent == flags && SymbolToTypesKey(types, e.child) == Ok(e.name)
    requires Subtree(registry, types, e.child, flags + [true], seen + {t}, e.marked, below)
    ensures Subtree(registry, types, t, flags, seen, false, [e] + below)
  {
    var deps := registry.m[t].dependencies;
    LaysOutNil(registry, types, deps, flags, seen + {t} + {e.child} + Targets(below));
    LaysOutCons(registry, types, deps, 0, flags, seen + {t}, e, below, seen + {t} + {e.child} + Targets(below), []);
    assert [e] + below + [] == [e] + below;
  }

  /** d's line is b's whole subtree. */
  lemma DUnderB(reg: Registry, types: TypesTable)
    requires B in reg.m && D in reg.m && reg.m[B].dependencies == [D] && reg.m[D].dependencies == []
    requires SymbolToTypesKey(types, D) == Ok("d")
    ensures Subtree(reg, types, B, [] + [false], {A}, false, [EdgeD])
  {
    LeafSubtree(reg, types, D, [false] + [true], {A} + {B});
    OnlyChild(reg, types, B, [false], {A}, EdgeD, []);
    assert [EdgeD] + [] == [EdgeD];
  }

  /** c, the last dependency, has nothing printed under it. */
  lemma CLast(reg: Registry, types: TypesTable, seen: set<Token>)
    requires C in reg.m && reg.m[C].dependencies == [] && SymbolToTypesKey(types, C) == Ok("c") && C !in seen
    ensures LaysOut(reg, types, [B, C], 1, [], seen, [EdgeC])
  {
    LeafSubtree(reg, types, C, [] + [true], seen);
    LaysOutNil(reg, types, [B, C], [], seen + {C} + Targets([]));
    LaysOutCons(reg, types, [B, C], 1, [], seen, EdgeC, [], seen + {C} + Targets([]), []);
    assert [EdgeC] + [] + [] == [EdgeC];
  }

  lemma ForkLayout(reg: Registry, types: TypesTable)
    requires B in reg.m && C in reg.m && D in reg.m
    requires reg.m[B].dependencies == [D] && reg.m[C].dependencies == [] && reg.m[D].dependencies == []
    requires SymbolToTypesKey(types, B) == Ok("b") && SymbolToTypesKey(types, C) == Ok("c")
    requires SymbolToTypesKey(types, D) == Ok("d")
    ensures LaysOut(reg, types, [B, C], 0, [], {A}, [EdgeB] + [EdgeD] + [EdgeC])
  {
    DUnderB(reg, types);
    assert Targets([EdgeD]) == {D};
    CLast(reg, types, {A} + {B} + Targets([EdgeD]));
    ForkJoin(reg, types);
  }

  /** b's branch followed by c's line. */
  lemma ForkJoin(reg: Registry, types: TypesTable)
    requires SymbolToTypesKey(types, B) == Ok("b")
    requires Subtree(reg, types, B, [] + [false], {A}, false, [EdgeD])
    requires LaysOut(reg, types, [B, C], 1, [], {A} + {B} + Targets([EdgeD]), [EdgeC])
    ensures LaysOut(reg, types, [B, C], 0, [], {A}, [EdgeB] + [EdgeD] + [EdgeC])
  {
    LaysOutCons(reg, types, [B, C], 0, [], {A}, EdgeB, [EdgeD], {A} + {B} + Targets([EdgeD]), [EdgeC]);
  }

  /** b's line, d's line under it, then c's line. */
  lemma DepthFirstLaysOut()
    ensures LaysOut(Fork(), ForkTypes, [B, C], 0, [], {A}, [EdgeB, EdgeD, EdgeC])
  {
    Names();
    ForkLayout(Fork(), ForkTypes);
    assert [EdgeB] + [EdgeD] + [EdgeC] == [EdgeB, EdgeD, EdgeC];
  }

  /** Printing c's line before d's leaves b's line with nothing under it
      and unmarked, which a token met for the first time never is. */
  lemma SiblingFirstIsNotLaidOut()
    ensures !LaysOut(Fork(), ForkTypes, [B, C], 0, [], {A}, [EdgeB, EdgeC, EdgeD])
  {
    var es := [EdgeB, EdgeC, EdgeD];
    assert es[1..] == [EdgeC, EdgeD];
    assert Extent(es[1..], 0) == 0;
    assert es[1..1] == [];
    assert !Subtree(Fork(), ForkTypes, B, [] + [false], {A}, false, []);
  }

  /** a depends on b, c and x; b on d; c on e; x on b. */
  function Shared(): Registry {
    JsMap([A, B, C, D, E, X],
          map[A := Reg(A, [B, C, X]), B := Reg(B, [D]), C := Reg(C, [E]), D := Reg(D, []), E := Reg(E, []),
              X := Reg(X, [B])])
  }

  const SharedTypes: TypesTable := [("a", A), ("b", B), ("c", C), ("d", D), ("e", E), ("x", X)]

  const FirstB := Edge([], B, "b", false)
  const DUnderFirstB := Edge([false], D, "d", false)
  const EdgeToC := Edge([], C, "c", false)
  const EUnderC := Edge([false], E, "e", false)
  const EdgeToX := Edge([], X, "x", false)
  const SecondB := Edge([true], B, "b", true)

  lemma SharedNames()
    ensures SymbolToTypesKey(SharedTypes, B) == Ok("b")
    ensures SymbolToTypesKey(SharedTypes, C) == Ok("c")
    ensures SymbolToTypesKey(SharedTypes, D) == Ok("d")
    ensures SymbolToTypesKey(SharedTypes, E) == Ok("e")
    ensures SymbolToTypesKey(SharedTypes, X) == Ok("x")
  {
    SharedNamesBC();
    SharedNamesDEX();
  }

  lemma SharedNamesDEX()
    ensures SymbolToTypesKey(SharedTypes, D) == Ok("d")
    ensures SymbolToTypesKey(SharedTypes, E) == Ok("e")
    ensures SymbolToTypesKey(SharedTypes, X) == Ok("x")
  {
    SymbolToTypesKeyIsLast(SharedTypes, D, 3);
    SymbolToTypesKeyIsLast(SharedTypes, E, 4);
    SymbolToTypesKeyIsLast(SharedTypes, X, 5);
  }

  lemma SharedNamesBC()
    ensures SymbolToTypesKey(SharedTypes, B) == Ok("b")
    ensures SymbolToTypesKey(SharedTypes, C) == Ok("c")
  {
    SymbolToTypesKeyIsLast(SharedTypes, B, 1);
    SymbolToTypesKeyIsLast(SharedTypes, C, 2);
  }

  /** What the examples on `Shared` read of it and of its `TYPES`. */
  ghost predicate SharedShape(reg: Registry, types: TypesTable) {
    && B in reg.m && C in reg.m && D in reg.m && E in reg.m && X in reg.m
    && reg.m[B].dependencies == [D] && reg.m[C].dependencies == [E] && reg.m[D].dependencies == []
    && reg.m[E].dependencies == [] && reg.m[X].dependencies == [B]
    && SymbolToTypesKey(types, B) == Ok("b") && SymbolToTypesKey(types, C) == Ok("c")
    && SymbolToTypesKey(types, D) == Ok("d") && SymbolToTypesKey(types, E) == Ok("e")
    && SymbolToTypesKey(types, X) == Ok("x")
  }

  lemma SharedHasShape()
    ensures SharedShape(Shared(), SharedTypes)
  {
    SharedNames();
    SharedEntries();
  }

  lemma SharedEntries()
    ensures B in Shared().m && C in Shared().m && D in Shared().m && E in Shared().m && X in Shared().m
    ensures Shared().m[B].dependencies == [D] && Shared().m[C].dependencies == [E]
    ensures Shared().m[D].dependencies == [] && Shared().m[E].dependencies == []
    ensures Shared().m[X].dependencies == [B]
  {
  }

  /** The first b is expanded: d under it. */
  lemma SharedFirstB(reg: Registry, types: TypesTable, seen: set<Token>)
    requires B in reg.m && D in reg.m && reg.m[B].dependencies == [D] && reg.m[D].dependencies == []
    requires SymbolToTypesKey(types, D) == Ok("d") && B !in seen && D !in seen
    ensures Subtree(reg, types, B, [] + [false], seen, false, [DUnderFirstB])
  {
    LeafSubtree(reg, types, D, [false] + [true], seen + {B});
    OnlyChild(reg, types, B, [false], seen, DUnderFirstB, []);
    assert [DUnderFirstB] + [] == [DUnderFirstB];
  }

  /** c, met for the first time, is expanded: e under it. */
  lemma SharedC(reg: Registry, types: TypesTable, seen: set<Token>)
    requires C in reg.m && E in reg.m && reg.m[C].dependencies == [E] && reg.m[E].dependencies == []
    requires SymbolToTypesKey(types, E) == Ok("e") && C !in seen && E !in seen
    ensures Subtree(reg, types, C, [] + [false], seen, false, [EUnderC])
  {
    LeafSubtree(reg, types, E, [false] + [true], seen + {C});
    OnlyChild(reg, types, C, [false], seen, EUnderC, []);
    assert [EUnderC] + [] == [EUnderC];
  }

  /** Under x, b is printed again, not expanded, and marked. */
  lemma SharedX(reg: Registry, types: TypesTable, seen: set<Token>)
    requires B in reg.m && X in reg.m && reg.m[B].dependencies == [D] && reg.m[X].dependencies == [B]
    requires SymbolToTypesKey(types, B) == Ok("b") && SymbolToTypesKey(types, X) == Ok("x")
    requires X !in seen && B in seen
    ensures LaysOut(reg, types, [B, C, X], 2, [], seen, [EdgeToX, SecondB])
  {
    RepeatSubtree(reg, types, B, [true] + [true], seen + {X});
    OnlyChild(reg, types, X, [true], seen, SecondB, []);
    assert [SecondB] + [] == [SecondB];
    LaysOutNil(reg, types, [B, C, X], [], seen + {X} + Targets([SecondB]));
    LaysOutCons(reg, types, [B, C, X], 2, [], seen, EdgeToX, [SecondB], seen + {X} + Targets([SecondB]), []);
    assert [EdgeToX] + [SecondB] + [] == [EdgeToX, SecondB];
  }

  /** c's line with e under it, then x's line with the second b. */
  const FromC := [EdgeToC, EUnderC, EdgeToX, SecondB]

  lemma SharedFromC(reg: Registry, types: TypesTable, seen: set<Token>)
    requires SharedShape(reg, types)
    requires C !in seen && E !in seen && X !in seen && B in seen
    ensures LaysOut(reg, types, [B, C, X], 1, [], seen, FromC)
  {
    SharedC(reg, types, seen);
    assert Targets([EUnderC]) == {E};
    SharedX(reg, types, seen + {C} + Targets([EUnderC]));
    SharedCJoin(reg, types, seen);
    FromCSplits();
  }

  lemma FromCSplits()
    ensures [EdgeToC] + [EUnderC] + [EdgeToX, SecondB] == FromC
  {
  }

  /** c's branch followed by x's lines. */
  lemma SharedCJoin(reg: Registry, types: TypesTable, seen: set<Token>)
    requires SymbolToTypesKey(types, C) == Ok("c")
    requires Subtree(reg, types, C, [] + [false], seen, false, [EUnderC])
    requires LaysOut(reg, types, [B, C, X], 2, [], seen + {C} + Targets([EUnderC]), [EdgeToX, SecondB])
    ensures LaysOut(reg, types, [B, C, X], 1, [], seen, [EdgeToC] + [EUnderC] + [EdgeToX, SecondB])
  {
    LaysOutCons(reg, types, [B, C, X], 1, [], seen, EdgeToC, [EUnderC], seen + {C} + Targets([EUnderC]), [EdgeToX, SecondB]);
  }

  /** The first b's branch followed by the lines from c on. */
  lemma SharedJoin(reg: Registry, types: TypesTable, seen: set<Token>)
    requires SymbolToTypesKey(types, B) == Ok("b")
    requires Subtree(reg, types, B, [] + [false], seen, false, [DUnderFirstB])
    requires LaysOut(reg, types, [B, C, X], 1, [], seen + {B} + Targets([DUnderFirstB]), FromC)
    ensures LaysOut(reg, types, [B, C, X], 0, [], seen, [FirstB] + [DUnderFirstB] + FromC)
  {
    LaysOutCons(reg, types, [B, C, X], 0, [], seen, FirstB, [DUnderFirstB], seen + {B} + Targets([DUnderFirstB]), FromC);
  }

  lemma SharedLayout(reg: Registry, types: TypesTable, seen: set<Token>)
    requires SharedShape(reg, types)
    requires B !in seen && C !in seen && D !in seen && E !in seen && X !in seen
    ensures LaysOut(reg, types, [B, C, X], 0, [], seen, [FirstB] + [DUnderFirstB] + FromC)
  {
    SharedFirstB(reg, types, seen);
    assert Targets([DUnderFirstB]) == {D};
    SharedFromC(reg, types, seen + {B} + Targets([DUnderFirstB]));
    SharedJoin(reg, types, seen);
  }

  /** What the walk from a prints under a's line. */
  const SharedPrint := [FirstB, DUnderFirstB, EdgeToC, EUnderC, EdgeToX, SecondB]

  lemma SharedPrintSplits()
    ensures [FirstB] + [DUnderFirstB] + FromC == SharedPrint
  {
  }

  /** b, d, c, e, x, then b again with the marker. */
  lemma SharedLaysOut()
    ensures LaysOut(Shared(), SharedTypes, [B, C, X], 0, [], {A}, SharedPrint)
  {
    SharedHasShape();
    SharedLayout(Shared(), SharedTypes, {A});
    SharedPrintSplits();
  }

  const MarkedC := Edge([], C, "c", true)
  const BAgain := Edge([true], B, "b", false)
  const DAgain := Edge([true, true], D, "d", false)

  /** From c's line on: c marked with nothing under it, then x with b
      expanded a second time. */
  lemma MarkedCRest(reg: Registry, types: TypesTable, seen: set<Token>)
    requires C in reg.m && reg.m[C].dependencies == [E] && C !in seen
    ensures !LaysOut(reg, types, [B, C, X], 1, [], seen, MarkedRest)
  {
    var es := MarkedRest;
    assert es[1..] == [EdgeToX, BAgain, DAgain];
    assert Extent(es[1..], 0) == 0;
    assert es[1..1] == [];
    assert !Subtree(reg, types, C, [] + [false], seen, true, []);
  }

  /** A print of the same length that marks c instead of expanding it and
      expands b a second time under x. */
  const MarkedRest := [MarkedC, EdgeToX, BAgain, DAgain]
  const MarkedPrint := [FirstB, DUnderFirstB, MarkedC, EdgeToX, BAgain, DAgain]

  lemma MarkedPrintSplits()
    ensures MarkedPrint == [FirstB, DUnderFirstB] + MarkedRest
    ensures MarkedPrint[1..] == [DUnderFirstB] + MarkedRest
    ensures MarkedPrint[1..2] == [DUnderFirstB] && MarkedPrint[2..] == MarkedRest
  {
  }

  lemma MarkedCNotLaidOut(reg: Registry, types: TypesTable, seen: set<Token>)
    requires C in reg.m && reg.m[C].dependencies == [E] && C !in seen
    ensures !LaysOut(reg, types, [B, C, X], 0, [], seen, MarkedPrint)
  {
    MarkedPrintSplits();
    assert Extent(MarkedRest, 0) == 0;
    assert Extent(MarkedPrint[1..], 0) == 1;
    assert Targets([DUnderFirstB]) == {D};
    MarkedCRest(reg, types, seen + {B} + Targets([DUnderFirstB]));
    assert !Branch(reg, types, [B, C, X], 0, [], seen, FirstB, [DUnderFirstB], MarkedRest);
  }

  /** Marking c instead of expanding it, and expanding b again under x,
      keeps the number of lines but is not a layout: e is never printed. */
  lemma MarkedCIsNotLaidOut()
    ensures !LaysOut(Shared(), SharedTypes, [B, C, X], 0, [], {A}, MarkedPrint)
  {
    SharedHasShape();
    MarkedCNotLaidOut(Shared(), SharedTypes, {A});
  }
}
