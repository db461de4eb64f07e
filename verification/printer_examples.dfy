/** The legacy printer on the "does not repeat common trees" example of
    src/printDependencyTree/printDependencyTree.test.ts, evaluated step by step. */
module PrinterExamples {
  import opened JsMaps
  import opened Types
  import opened Errors
  import opened Printer
  import opened Seqs
  import opened TypesAudit
  import opened JsStrings
  import opened Fixtures

  const F1 := Token(1, "fact1")
  const F21 := Token(2, "fact2_1")
  const F31 := Token(3, "fact3_1")
  const F41 := Token(4, "fact4_1")
  const F42 := Token(5, "fact4_2")

  function CommonTrees(): Registry {
    JsMap([F1, F21, F31, F41, F42],
          map[F1 := Reg(F1, [F21, F31]), F21 := Reg(F21, [F31]), F31 := Reg(F31, [F41, F42]),
              F41 := Reg(F41, []), F42 := Reg(F42, [])])
  }

  const CommonTypes: TypesTable := [("fact1", F1), ("fact2_1", F21), ("fact4_1", F41), ("fact4_2", F42), ("fact3_1", F31)]

  const N := "|  "
  const L := "   "

  lemma NameOf(t: Token, k: nat)
    requires k < |CommonTypes| && CommonTypes[k].1 == t
    ensures SymbolToTypesKey(CommonTypes, t) == Ok(CommonTypes[k].0)
  {
    SymbolToTypesKeyIsLast(CommonTypes, t, k);
  }

  lemma Name1()
    ensures SymbolToTypesKey(CommonTypes, F1) == Ok("fact1")
  {
    NameOf(F1, 0);
  }

  lemma Name21()
    ensures SymbolToTypesKey(CommonTypes, F21) == Ok("fact2_1")
  {
    NameOf(F21, 1);
  }

  lemma Name31()
    ensures SymbolToTypesKey(CommonTypes, F31) == Ok("fact3_1")
  {
    NameOf(F31, 4);
  }

  lemma Name41()
    ensures SymbolToTypesKey(CommonTypes, F41) == Ok("fact4_1")
  {
    NameOf(F41, 2);
  }

  lemma Name42()
    ensures SymbolToTypesKey(CommonTypes, F42) == Ok("fact4_2")
  {
    NameOf(F42, 3);
  }

  lemma SegmentTexts()
    ensures SegmentFor(LegacyGlyphs, false) == N && SegmentFor(LegacyGlyphs, true) == L
  {
    assert Spaces(1) == " ";
    assert Spaces(2) == "  ";
  }

  const E1 := Edge([], F21, "fact2_1", false)
  const E2 := Edge([false], F31, "fact3_1", false)
  const E3 := Edge([false, true], F41, "fact4_1", false)
  const E4 := Edge([false, true], F42, "fact4_2", false)
  const E5 := Edge([], F31, "fact3_1", false)

  // The walk's states, in order.
  const S0 := State([], {}, 0)
  const S1 := State([], {F1}, 1)
  const S1e := State([E1], {F1}, 1)
  const S2 := State([E1], {F1, F21}, 2)
  const S2e := State([E1, E2], {F1, F21}, 2)
  const S3 := State([E1, E2], {F1, F21, F31}, 3)
  const S3e := State([E1, E2, E3], {F1, F21, F31}, 3)
  const S4 := State([E1, E2, E3], {F1, F21, F31, F41}, 4)
  const S4e := State([E1, E2, E3, E4], {F1, F21, F31, F41}, 4)
  const S5 := State([E1, E2, E3, E4], {F1, F21, F31, F41, F42}, 5)
  const S5e := State([E1, E2, E3, E4, E5], {F1, F21, F31, F41, F42}, 5)
  const S6 := State([E1, E2, E3, E4, E5.(marked := true)], {F1, F21, F31, F41, F42}, 5)

  lemma ChildrenEnd(R: Registry, T: TypesTable, deps: seq<Token>, indent: seq<bool>, st: State)
    ensures Children(R, T, deps, |deps|, indent, st) == Ok(st)
  {
  }

  lemma VisitLeaf(R: Registry, T: TypesTable, t: Token, indent: seq<bool>, st: State, st2: State)
    requires R == CommonTrees() && T == CommonTypes
    requires t == F41 || t == F42
    requires t !in st.common
    requires st2 == State(st.edges, st.common + {t}, st.count + 1)
    ensures Visit(R, T, t, indent, st) == Ok(st2)
  {
    VisitUnfold(R, T, t, indent, st);
  }

  lemma Leaf41(R: Registry, T: TypesTable)
    requires R == CommonTrees() && T == CommonTypes
    ensures Visit(R, T, F41, [false, true, false], S3e) == Ok(S4)
  {
    VisitLeaf(R, T, F41, [false, true, false], S3e, S4);
  }

  lemma Leaf42(R: Registry, T: TypesTable)
    requires R == CommonTrees() && T == CommonTypes
    ensures Visit(R, T, F42, [false, true, true], S4e) == Ok(S5)
  {
    VisitLeaf(R, T, F42, [false, true, true], S4e, S5);
  }

  lemma PushS3e()
    ensures S3e == S3.(edges := S3.edges + [Edge([false, true], F41, "fact4_1", false)])
  {
  }

  lemma Fact31Step0(R: Registry, T: TypesTable)
    requires SymbolToTypesKey(T, F41) == Ok("fact4_1")
    requires Visit(R, T, F41, [false, true, false], S3e) == Ok(S4)
    ensures Children(R, T, [F41, F42], 0, [false, true], S3) == Children(R, T, [F41, F42], 1, [false, true], S4)
  {
    PushS3e();
    ChildStep(R, T, [F41, F42], 0, [false, true], S3, F41, "fact4_1", [false, true, false], S3e, S4);
  }

  lemma PushS4e()
    ensures S4e == S4.(edges := S4.edges + [Edge([false, true], F42, "fact4_2", false)])
  {
  }

  lemma Fact31Step1(R: Registry, T: TypesTable)
    requires SymbolToTypesKey(T, F42) == Ok("fact4_2")
    requires Visit(R, T, F42, [false, true, true], S4e) == Ok(S5)
    ensures Children(R, T, [F41, F42], 1, [false, true], S4) == Children(R, T, [F41, F42], 2, [false, true], S5)
  {
    PushS4e();
    ChildStep(R, T, [F41, F42], 1, [false, true], S4, F42, "fact4_2", [false, true, true], S4e, S5);
  }

  lemma Fact31Children(R: Registry, T: TypesTable)
    requires R == CommonTrees() && T == CommonTypes
    ensures Children(R, T, [F41, F42], 0, [false, true], S3) == Ok(S5)
  {
    Name41();
    Leaf41(R, T);
    Fact31Step0(R, T);
    Name42();
    Leaf42(R, T);
    Fact31Step1(R, T);
    ChildrenEnd(R, T, [F41, F42], [false, true], S5);
  }

  lemma VisitFact31(R: Registry, T: TypesTable)
    requires R == CommonTrees() && T == CommonTypes
    ensures Visit(R, T, F31, [false, true], S2e) == Ok(S5)
  {
    VisitUnfold(R, T, F31, [false, true], S2e);
    assert R.m[F31].dependencies == [F41, F42];
    assert State(S2e.edges, S2e.common + {F31}, S2e.count + 1) == S3;
    Fact31Children(R, T);
  }

  lemma PushS2e()
    ensures S2e == S2.(edges := S2.edges + [Edge([false], F31, "fact3_1", false)])
  {
  }

  lemma Fact21Step0(R: Registry, T: TypesTable)
    requires SymbolToTypesKey(T, F31) == Ok("fact3_1")
    requires Visit(R, T, F31, [false, true], S2e) == Ok(S5)
    ensures Children(R, T, [F31], 0, [false], S2) == Children(R, T, [F31], 1, [false], S5)
  {
    PushS2e();
    ChildStep(R, T, [F31], 0, [false], S2, F31, "fact3_1", [false, true], S2e, S5);
  }

  lemma Fact21Unfold(R: Registry, T: TypesTable)
    requires R == CommonTrees() && T == CommonTypes
    ensures Visit(R, T, F21, [false], S1e) == Children(R, T, [F31], 0, [false], S2)
  {
    VisitUnfold(R, T, F21, [false], S1e);
    assert R.m[F21].dependencies == [F31];
    assert State(S1e.edges, S1e.common + {F21}, S1e.count + 1) == S2;
  }

  lemma VisitFact21(R: Registry, T: TypesTable)
    requires R == CommonTrees() && T == CommonTypes
    ensures Visit(R, T, F21, [false], S1e) == Ok(S5)
  {
    Fact21Unfold(R, T);
    Name31();
    VisitFact31(R, T);
    Fact21Step0(R, T);
    ChildrenEnd(R, T, [F31], [false], S5);
  }

  /** The second visit of `fact3_1` only marks its edge. */
  lemma RevisitFact31(R: Registry, T: TypesTable)
    requires R == CommonTrees() && T == CommonTypes
    ensures Visit(R, T, F31, [true], S5e) == Ok(S6)
  {
    assert R.m[F31].dependencies == [F41, F42];
    assert MarkedLast(S5e) == S6;
  }

  lemma PushS1e()
    ensures S1e == S1.(edges := S1.edges + [Edge([], F21, "fact2_1", false)])
  {
  }

  lemma RootStep0(R: Registry, T: TypesTable)
    requires SymbolToTypesKey(T, F21) == Ok("fact2_1")
    requires Visit(R, T, F21, [false], S1e) == Ok(S5)
    ensures Children(R, T, [F21, F31], 0, [], S1) == Children(R, T, [F21, F31], 1, [], S5)
  {
    PushS1e();
    ChildStep(R, T, [F21, F31], 0, [], S1, F21, "fact2_1", [false], S1e, S5);
  }

  lemma PushS5e()
    ensures S5e == S5.(edges := S5.edges + [Edge([], F31, "fact3_1", false)])
  {
  }

  lemma RootStep1(R: Registry, T: TypesTable)
    requires SymbolToTypesKey(T, F31) == Ok("fact3_1")
    requires Visit(R, T, F31, [true], S5e) == Ok(S6)
    ensures Children(R, T, [F21, F31], 1, [], S5) == Children(R, T, [F21, F31], 2, [], S6)
  {
    PushS5e();
    ChildStep(R, T, [F21, F31], 1, [], S5, F31, "fact3_1", [true], S5e, S6);
  }

  lemma RootUnfold(R: Registry, T: TypesTable)
    requires R == CommonTrees() && T == CommonTypes
    ensures Visit(R, T, F1, [], S0) == Children(R, T, [F21, F31], 0, [], S1)
  {
    VisitUnfold(R, T, F1, [], S0);
    assert R.m[F1].dependencies == [F21, F31];
    assert State(S0.edges, S0.common + {F1}, S0.count + 1) == S1;
  }

  lemma WalkCommonTrees(R: Registry, T: TypesTable)
    requires R == CommonTrees() && T == CommonTypes
    ensures Walk(R, T, F1) == Ok(S6)
  {
    RootUnfold(R, T);
    Name21();
    VisitFact21(R, T);
    RootStep0(R, T);
    Name31();
    RevisitFact31(R, T);
    RootStep1(R, T);
    ChildrenEnd(R, T, [F21, F31], [], S6);
  }

  lemma IndentTexts()
    ensures Concat(Segments(LegacyGlyphs, [])) == ""
    ensures Concat(Segments(LegacyGlyphs, [false])) == N
    ensures Concat(Segments(LegacyGlyphs, [false, true])) == "|     "
  {
    SegmentTexts();
    assert Segments(LegacyGlyphs, [false]) == [N];
    assert Segments(LegacyGlyphs, [false, true]) == [N, L];
    assert Concat([N]) == N;
    assert Concat([N, L]) == "|     ";
  }

  lemma EdgeText1()
    ensures RenderEdge(LegacyGlyphs, E1) == "|_ fact2_1"
  {
    IndentTexts();
  }

  lemma EdgeText2()
    ensures RenderEdge(LegacyGlyphs, E2) == "|  |_ fact3_1"
  {
    IndentTexts();
  }

  lemma EdgeText3()
    ensures RenderEdge(LegacyGlyphs, E3) == "|     |_ fact4_1"
  {
    IndentTexts();
  }

  lemma EdgeText4()
    ensures RenderEdge(LegacyGlyphs, E4) == "|     |_ fact4_2"
  {
    IndentTexts();
  }

  lemma EdgeText5()
    ensures RenderEdge(LegacyGlyphs, E5.(marked := true)) == "|_ fact3_1 <*>"
  {
    IndentTexts();
  }

  lemma EdgeLines()
    ensures RenderEdges(LegacyGlyphs, S6.edges)
         == ["|_ fact2_1", "|  |_ fact3_1", "|     |_ fact4_1", "|     |_ fact4_2", "|_ fact3_1 <*>"]
  {
    EdgeText1();
    EdgeText2();
    EdgeText3();
    EdgeText4();
    EdgeText5();
  }

  const Tree := "fact1" + "\n" + "|_ fact2_1" + "\n" + "|  |_ fact3_1" + "\n" + "|     |_ fact4_1"
                + "\n" + "|     |_ fact4_2" + "\n" + "|_ fact3_1 <*>"
  const Expected := "total number of unique components : 5\n\n" + Tree

  /** Appending a line to a non-empty list of lines. */
  lemma JoinSnoc(lines: seq<string>, last: string)
    requires |lines| > 0
    ensures JoinLines(lines + [last]) == JoinLines(lines) + "\n" + last
  {
    assert (lines + [last])[..|lines|] == lines;
  }

  /** Six lines joined. */
  lemma JoinSix(a: string, b: string, c: string, d: string, e: string, f: string)
    ensures JoinLines([a, b, c, d, e, f]) == a + "\n" + b + "\n" + c + "\n" + d + "\n" + e + "\n" + f
  {
    JoinSnoc([a], b);
    assert [a] + [b] == [a, b];
    JoinSnoc([a, b], c);
    assert [a, b] + [c] == [a, b, c];
    JoinSnoc([a, b, c], d);
    assert [a, b, c] + [d] == [a, b, c, d];
    JoinSnoc([a, b, c, d], e);
    assert [a, b, c, d] + [e] == [a, b, c, d, e];
    JoinSnoc([a, b, c, d, e], f);
    assert [a, b, c, d, e] + [f] == [a, b, c, d, e, f];
  }

  lemma TreeText()
    ensures JoinLines(["fact1"] + RenderEdges(LegacyGlyphs, S6.edges)) == Tree
  {
    EdgeLines();
    JoinSix("fact1", "|_ fact2_1", "|  |_ fact3_1", "|     |_ fact4_1", "|     |_ fact4_2", "|_ fact3_1 <*>");
    assert ["fact1"] + RenderEdges(LegacyGlyphs, S6.edges)
        == ["fact1", "|_ fact2_1", "|  |_ fact3_1", "|     |_ fact4_1", "|     |_ fact4_2", "|_ fact3_1 <*>"];
  }

  lemma FullText()
    ensures Trim("total number of unique components : " + NatToString(5) + "\n" + "\n"
                 + JoinLines(["fact1"] + RenderEdges(LegacyGlyphs, S6.edges))) == Expected
  {
    TreeText();
    assert NatToString(5) == "5";
    var text := "total number of unique components : " + NatToString(5) + "\n" + "\n"
                + JoinLines(["fact1"] + RenderEdges(LegacyGlyphs, S6.edges));
    assert "total number of unique components : " + "5" + "\n" + "\n" == "total number of unique components : 5\n\n";
    assert text == Expected;
    assert Expected[0] == 't' && Expected[|Expected| - 1] == Tree[|Tree| - 1] == '>';
    TrimUnchanged(text);
  }

  /** The second fixture of the legacy printer's tests: `fact3_1` is
      reached twice and expanded once; its second edge carries the marker. */
  lemma PrintsCommonTreeOnce()
    ensures PrintDependencyTree(CommonTrees(), CommonTypes, F1) == Ok(Expected)
  {
    Name1();
    WalkCommonTrees(CommonTrees(), CommonTypes);
    FullText();
  }
}
