/** The dependency tree printer (src/printDependencyTree/printDependencyGraph.ts,
    and its older twin src/printDependencyTree/printDependencyTree.ts): a depth
    first walk from a root that prints one line per dependency edge, indents
    a child by one segment per level, and prints a token that has
    dependencies and was already expanded once more with a marker instead of
    expanding it again. */
module Printer {
  import opened Seqs
  import opened JsMaps
  import opened Types
  import opened Errors
  import opened Lookup
  import opened Graph
  import opened TypesAudit
  import opened JsStrings

  /** The glyphs: the branch before a child's name, the vertical line that
      continues an earlier sibling's column, and the already-printed
      marker. */
  datatype Glyphs = Glyphs(twig: string, stem: string, marker: string)

  /** One printed edge: the indentation in force, the child token and its
      `TYPES` name, and whether the marker follows it. The indentation is
      kept as the sequence of `i === lastI` flags of the enclosing loops,
      outermost first; the segment each flag stands for is `SegmentFor`. */
  datatype Edge = Edge(indent: seq<bool>, child: Token, name: string, marked: bool)

  /** The walk's state: the edges printed so far, the `isCommon` set, and
      `totalNumberOfComponents`. */
  datatype State = State(edges: seq<Edge>, common: set<Token>, count: nat)

  /** The segment a loop pushes onto `intend`: blanks under the last child,
      the stem under an earlier one. */
  function SegmentFor(g: Glyphs, last: bool): (s: string)
    requires |g.stem| <= |g.twig|
    ensures |s| == |g.twig| + 1
  {
    if last then Spaces(|g.twig|) + " " else g.stem + Spaces(|g.twig| - |g.stem|) + " "
  }

  /** The `intend` array for a sequence of flags. */
  function Segments(g: Glyphs, indent: seq<bool>): (r: seq<string>)
    requires |g.stem| <= |g.twig|
    ensures |r| == |indent|
    ensures forall k :: 0 <= k < |indent| ==> r[k] == SegmentFor(g, indent[k])
  {
    if |indent| == 0 then [] else [SegmentFor(g, indent[0])] + Segments(g, indent[1..])
  }

  /** The text of an edge line:
      `intend.join("") + twig + " " + name`, then `" " + marker` when marked. */
  function RenderEdge(g: Glyphs, e: Edge): string
    requires |g.stem| <= |g.twig|
  {
    Concat(Segments(g, e.indent)) + g.twig + " " + e.name + (if e.marked then " " + g.marker else "")
  }

  function RenderEdges(g: Glyphs, edges: seq<Edge>): (r: seq<string>)
    requires |g.stem| <= |g.twig|
    ensures |r| == |edges|
    ensures forall k :: 0 <= k < |edges| ==> r[k] == RenderEdge(g, edges[k])
  {
    if |edges| == 0 then [] else [RenderEdge(g, edges[0])] + RenderEdges(g, edges[1..])
  }

  /** Registered tokens not yet expanded: the measure of the walk. */
  ghost function Unexpanded(registry: Registry, st: State): set<Token> {
    set k | k in registry.m && k !in st.common
  }

  /** The edges printed before stay, except that the last one may gain the
      marker. */
  ghost predicate Extends(before: seq<Edge>, after: seq<Edge>) {
    && |before| <= |after|
    && (forall k :: 0 <= k < |before| - 1 ==> after[k] == before[k])
    && (|before| > 0 ==> after[|before| - 1] == before[|before| - 1].(marked := after[|before| - 1].marked))
  }

  /** What every step of the walk keeps: the expanded set only grows, the
      count grows by as many tokens as it gains, and the printed lines are
      only extended. */
  ghost predicate Steps(st: State, r: State) {
    && st.common <= r.common
    && r.count == st.count + |r.common - st.common|
    && Extends(st.edges, r.edges)
  }

  lemma StepsCompose(a: State, b: State, c: State)
    requires Steps(a, b) && Steps(b, c)
    ensures Steps(a, c)
  {
    assert c.common - a.common == (c.common - b.common) + (b.common - a.common);
  }

  /** Printing an edge, visiting the child, then the later siblings is a
      step. */
  lemma ChildSteps(st: State, e: Edge, st2: State, r: State)
    requires Steps(st.(edges := st.edges + [e]), st2) && Steps(st2, r)
    ensures Steps(st, r)
  {
    var st1 := st.(edges := st.edges + [e]);
    assert st1.common - st.common == {};
    StepsCompose(st, st1, st2);
    StepsCompose(st, st2, r);
  }

  lemma PushEdge(registry: Registry, st: State, e: Edge)
    ensures Steps(st, st.(edges := st.edges + [e]))
    ensures Unexpanded(registry, st.(edges := st.edges + [e])) == Unexpanded(registry, st)
  {
    var st1 := st.(edges := st.edges + [e]);
    assert st1.common - st.common == {};
  }

  /** The state with the marker after the last edge. */
  function MarkedLast(st: State): (r: State)
    requires |st.edges| > 0
    ensures |r.edges| == |st.edges| && r.edges[|st.edges| - 1].marked
    ensures r.common == st.common && r.count == st.count
  {
    var n := |st.edges|;
    st.(edges := st.edges[..n - 1] + [st.edges[n - 1].(marked := true)])
  }

  lemma MarkLast(st: State)
    requires |st.edges| > 0
    ensures Steps(st, MarkedLast(st))
  {
    assert MarkedLast(st).common - st.common == {};
  }

  /** Expanding more leaves fewer tokens to expand. */
  lemma UnexpandedShrinks(registry: Registry, st: State, r: State)
    requires st.common <= r.common
    ensures |Unexpanded(registry, r)| <= |Unexpanded(registry, st)|
  {
    SubsetCardinality(Unexpanded(registry, r), Unexpanded(registry, st));
  }

  lemma StepsRefl(st: State)
    ensures Steps(st, st)
  {
    assert st.common - st.common == {};
  }

  lemma AddCommon(registry: Registry, st: State, x: Token)
    requires x in registry.m && x !in st.common
    ensures Steps(st, State(st.edges, st.common + {x}, st.count + 1))
    ensures |Unexpanded(registry, State(st.edges, st.common + {x}, st.count + 1))| < |Unexpanded(registry, st)|
  {
    var st1 := State(st.edges, st.common + {x}, st.count + 1);
    assert Unexpanded(registry, st1) == Unexpanded(registry, st) - {x};
    assert st1.common - st.common == {x};
  }

  /** `recurse(x)`, where the edge to `x` (if any) is the last one printed. */
  function Visit(registry: Registry, types: TypesTable, x: Token, indent: seq<bool>, st: State): (r: Result<State>)
    requires x in st.common ==> |st.edges| > 0
    ensures r.Ok? ==> Steps(st, r.value) && x in r.value.common && x in registry.m
    ensures r.Ok? && x in st.common ==> r.value.common == st.common && |r.value.edges| == |st.edges|
    ensures r.Ok? && x in st.common ==>
              (r.value.edges[|st.edges| - 1].marked <==>
                 st.edges[|st.edges| - 1].marked || |registry.m[x].dependencies| > 0)
    ensures r.Err? ==> r.error.AbstractionNotRegistered? || r.error.SymbolNotInTypes?
    decreases |Unexpanded(registry, st)|, 0
  {
    match GetRegistrationStrictOf(registry, x)
    case Err(e) => Err(e)
    case Ok(reg) =>
      if x in st.common then
        if |reg.dependencies| != 0 then
          MarkLast(st);
          Ok(MarkedLast(st))
        else
          StepsRefl(st);
          Ok(st)
      else
        var st1 := State(st.edges, st.common + {x}, st.count + 1);
        AddCommon(registry, st, x);
        match Children(registry, types, reg.dependencies, 0, indent, st1)
        case Err(e) => Err(e)
        case Ok(r) =>
          StepsCompose(st, st1, r);
          Ok(r)
  }

  /** The loop over `dependencies` from index `i` on: print the edge line,
      push the segment, visit the child, pop the segment. */
  function Children(registry: Registry, types: TypesTable, deps: seq<Token>, i: nat,
                    indent: seq<bool>, st: State): (r: Result<State>)
    requires i <= |deps|
    ensures r.Ok? ==> Steps(st, r.value)
    ensures r.Ok? ==> forall j :: i <= j < |deps| ==> deps[j] in r.value.common
    ensures r.Err? ==> r.error.AbstractionNotRegistered? || r.error.SymbolNotInTypes?
    decreases |Unexpanded(registry, st)|, 1, |deps| - i
  {
    if i == |deps| then
      StepsRefl(st);
      Ok(st)
    else
      var d := deps[i];
      match SymbolToTypesKey(types, d)
      case Err(e) => Err(e)
      case Ok(name) =>
        var st1 := st.(edges := st.edges + [Edge(indent, d, name, false)]);
        PushEdge(registry, st, Edge(indent, d, name, false));
        match Visit(registry, types, d, indent + [i == |deps| - 1], st1)
        case Err(e) => Err(e)
        case Ok(st2) =>
          UnexpandedShrinks(registry, st, st2);
          match Children(registry, types, deps, i + 1, indent, st2)
          case Err(e) => Err(e)
          case Ok(r) =>
            ChildSteps(st, Edge(indent, d, name, false), st2, r);
            SuffixExpanded(deps, i, st2.common, r.common);
            Ok(r)
  }

  /** The dependencies from `i` on are expanded once `deps[i]` is and
      the later ones are. */
  lemma SuffixExpanded(deps: seq<Token>, i: nat, mid: set<Token>, after: set<Token>)
    requires i < |deps| && deps[i] in mid && mid <= after
    requires forall j :: i + 1 <= j < |deps| ==> deps[j] in after
    ensures forall j :: i <= j < |deps| ==> deps[j] in after
  {
  }

  /** The walk from `root` with nothing printed or counted yet. */
  function Walk(registry: Registry, types: TypesTable, root: Token): (r: Result<State>)
    ensures r.Ok? ==> r.value.count == |r.value.common| && root in r.value.common
  {
    var st0 := State([], {}, 0);
    var r := Visit(registry, types, root, [], st0);
    assert r.Ok? ==> r.value.common - st0.common == r.value.common;
    r
  }

  /** The walk from `root`, then the header, then `trim`. */
  function Render(registry: Registry, types: TypesTable, root: Token, g: Glyphs, heading: string): (r: Result<string>)
    ensures r.Err? ==>
              || r.error == SymbolNotInTypes(root)
              || r.error == TwigShorterThanStem
              || r.error.AbstractionNotRegistered?
              || r.error.SymbolNotInTypes?
    ensures root !in TypesValues(types) ==> r == Err(SymbolNotInTypes(root))
    ensures root in TypesValues(types) && |g.twig| < |g.stem| ==> r == Err(TwigShorterThanStem)
  {
    match SymbolToTypesKey(types, root)
    case Err(e) => Err(e)
    case Ok(rootName) =>
      if |g.twig| < |g.stem| then Err(TwigShorterThanStem)
      else
        match Walk(registry, types, root)
        case Err(e) => Err(e)
        case Ok(st) =>
          Ok(Trim(heading + NatToString(st.count) + "\n" + "\n" + JoinLines([rootName] + RenderEdges(g, st.edges))))
  }

  /** `printDependencyGraph`, with the glyphs of `constants` as a parameter. */
  function PrintDependencyGraph(registry: Registry, types: TypesTable, root: Token, g: Glyphs): (r: Result<string>)
    ensures root !in TypesValues(types) ==> r == Err(SymbolNotInTypes(root))
    ensures root in TypesValues(types) && |g.twig| < |g.stem| ==> r == Err(TwigShorterThanStem)
  {
    Render(registry, types, root, g, "total number of unique components: ")
  }

  /** The older `printDependencyTree`: fixed glyphs, a space before the
      header's colon, and `getRegistrationOf` for lookups (which
      `Lookup.LookupsAgree` shows behaves as the strict lookup). */
  const LegacyGlyphs := Glyphs("|_", "|", "<*>")

  function PrintDependencyTree(registry: Registry, types: TypesTable, root: Token): (r: Result<string>)
    ensures root !in TypesValues(types) ==> r == Err(SymbolNotInTypes(root))
    ensures r.Err? ==> r.error != TwigShorterThanStem
  {
    Render(registry, types, root, LegacyGlyphs, "total number of unique components : ")
  }

  // -----------------------------------------------------------------------
  // What the walk prints.

  /** `t`'s dependencies are all expanded and named in `TYPES`. */
  ghost predicate Done(registry: Registry, types: TypesTable, common: set<Token>, t: Token) {
    && t in registry.m
    && forall d :: d in registry.m[t].dependencies ==> d in common && d in TypesValues(types)
  }

  /** Expanded tokens are reachable from the root, and each is done or
      still on the walk's stack (`pending`). */
  ghost predicate PrintInv(registry: Registry, types: TypesTable, root: Token, common: set<Token>, pending: set<Token>) {
    && (forall t :: t in common ==> Reaches(registry, root, t))
    && (forall t :: t in common ==> t in pending || Done(registry, types, common, t))
  }

  /** An error of the walk names a token reachable from the root that is
      unregistered, or that `TYPES` does not name. */
  ghost predicate PrintWitnessed(registry: Registry, types: TypesTable, root: Token, e: Error) {
    && (e.AbstractionNotRegistered? ==> e.abstraction !in registry.m && Reaches(registry, root, e.abstraction))
    && (e.SymbolNotInTypes? ==> e.symbol !in TypesValues(types) && Reaches(registry, root, e.symbol))
  }

  /** Expanding `x`, reachable from the root, keeps the invariant with `x`
      on the stack. */
  lemma PrintInvPush(registry: Registry, types: TypesTable, root: Token, common: set<Token>,
                     pending: set<Token>, x: Token)
    requires PrintInv(registry, types, root, common, pending) && Reaches(registry, root, x)
    ensures PrintInv(registry, types, root, common + {x}, pending + {x})
  {
    forall t | t in common && t !in pending + {x}
      ensures Done(registry, types, common + {x}, t)
    {
      assert Done(registry, types, common, t);
    }
  }

  /** Once every dependency of `x` is expanded and named, `x` leaves the
      stack. */
  lemma PrintInvPop(registry: Registry, types: TypesTable, root: Token, common: set<Token>,
                    pending: set<Token>, x: Token)
    requires PrintInv(registry, types, root, common, pending + {x}) && x in registry.m
    requires forall j :: 0 <= j < |registry.m[x].dependencies| ==>
               registry.m[x].dependencies[j] in common && registry.m[x].dependencies[j] in TypesValues(types)
    ensures PrintInv(registry, types, root, common, pending)
  {
    var deps := registry.m[x].dependencies;
    assert forall d :: d in deps ==> deps[IndexOf(deps, d)] == d;
    assert Done(registry, types, common, x);
  }

  /** A walk that succeeds keeps the invariant; one that fails is
      witnessed. */
  ghost predicate WalkKeeps(registry: Registry, types: TypesTable, root: Token, pending: set<Token>, r: Result<State>) {
    && (r.Ok? ==> PrintInv(registry, types, root, r.value.common, pending))
    && (r.Err? ==> PrintWitnessed(registry, types, root, r.error))
  }

  /** One step of `Visit` on a token it has not expanded yet. */
  lemma VisitUnfold(registry: Registry, types: TypesTable, x: Token, indent: seq<bool>, st: State)
    requires x !in st.common
    ensures x !in registry.m ==> Visit(registry, types, x, indent, st) == Err(AbstractionNotRegistered(x))
    ensures x in registry.m ==>
              Visit(registry, types, x, indent, st)
              == Children(registry, types, registry.m[x].dependencies, 0, indent, State(st.edges, st.common + {x}, st.count + 1))
  {
    var found := GetRegistrationStrictOf(registry, x);
    assert found.Ok? ==> found.value == registry.m[x];
  }

  /** One step of `Children` at a dependency it has not passed yet. */
  lemma ChildrenUnfold(registry: Registry, types: TypesTable, deps: seq<Token>, i: nat,
                       indent: seq<bool>, st: State)
    requires i < |deps|
    ensures var r := Children(registry, types, deps, i, indent, st);
            var name := SymbolToTypesKey(types, deps[i]);
            && (name.Err? ==> r == Err(SymbolNotInTypes(deps[i])))
            && (name.Ok? ==>
                  var st1 := st.(edges := st.edges + [Edge(indent, deps[i], name.value, false)]);
                  var r2 := Visit(registry, types, deps[i], indent + [i == |deps| - 1], st1);
                  && (r2.Err? ==> r == Err(r2.error))
                  && (r2.Ok? ==> r == Children(registry, types, deps, i + 1, indent, r2.value)))
  {
  }

  /** `Children` moving past a dependency whose visit succeeds. */
  lemma ChildStep(registry: Registry, types: TypesTable, deps: seq<Token>, i: nat, indent: seq<bool>,
                  st: State, d: Token, name: string, flags: seq<bool>, st1: State, st2: State)
    requires i < |deps| && d == deps[i] && flags == indent + [i == |deps| - 1]
    requires SymbolToTypesKey(types, d) == Ok(name)
    requires st1 == st.(edges := st.edges + [Edge(indent, d, name, false)])
    requires Visit(registry, types, d, flags, st1) == Ok(st2)
    ensures Children(registry, types, deps, i, indent, st) == Children(registry, types, deps, i + 1, indent, st2)
  {
    ChildrenUnfold(registry, types, deps, i, indent, st);
  }

  /** The dependencies before `i + 1` are expanded and named. */
  lemma PrefixExpanded(deps: seq<Token>, i: nat, before: set<Token>, after: set<Token>, types: TypesTable)
    requires i < |deps| && before <= after && deps[i] in after && deps[i] in TypesValues(types)
    requires forall j :: 0 <= j < i ==> deps[j] in before && deps[j] in TypesValues(types)
    ensures forall j :: 0 <= j < i + 1 ==> deps[j] in after && deps[j] in TypesValues(types)
  {
  }

  lemma {:induction false} VisitInv(registry: Registry, types: TypesTable, root: Token, x: Token,
                                    indent: seq<bool>, st: State, pending: set<Token>)
    requires x in st.common ==> |st.edges| > 0
    requires Reaches(registry, root, x)
    requires PrintInv(registry, types, root, st.common, pending)
    ensures WalkKeeps(registry, types, root, pending, Visit(registry, types, x, indent, st))
    decreases |Unexpanded(registry, st)|, 0
  {
    if x in st.common {
      return;
    }
    VisitUnfold(registry, types, x, indent, st);
    if x !in registry.m {
      return;
    }
    var st1 := State(st.edges, st.common + {x}, st.count + 1);
    AddCommon(registry, st, x);
    PrintInvPush(registry, types, root, st.common, pending, x);
    ChildrenInv(registry, types, root, x, 0, indent, st1, pending);
  }

  lemma {:induction false} ChildrenInv(registry: Registry, types: TypesTable, root: Token, x: Token, i: nat,
                                       indent: seq<bool>, st: State, pending: set<Token>)
    requires x in registry.m && x in st.common && Reaches(registry, root, x)
    requires i <= |registry.m[x].dependencies|
    requires forall j :: 0 <= j < i ==> registry.m[x].dependencies[j] in st.common
                                        && registry.m[x].dependencies[j] in TypesValues(types)
    requires PrintInv(registry, types, root, st.common, pending + {x})
    ensures WalkKeeps(registry, types, root, pending, Children(registry, types, registry.m[x].dependencies, i, indent, st))
    decreases |Unexpanded(registry, st)|, 1, |registry.m[x].dependencies| - i, 1
  {
    var deps := registry.m[x].dependencies;
    if i == |deps| {
      PrintInvPop(registry, types, root, st.common, pending, x);
      return;
    }
    var d := deps[i];
    ReachesStep(registry, root, x, d);
    ChildrenUnfold(registry, types, deps, i, indent, st);
    var name := SymbolToTypesKey(types, d);
    if name.Err? {
      return;
    }
    var e := Edge(indent, d, name.value, false);
    var st1 := st.(edges := st.edges + [e]);
    var flags := indent + [i == |deps| - 1];
    PushEdge(registry, st, e);
    VisitInv(registry, types, root, d, flags, st1, pending + {x});
    var r2 := Visit(registry, types, d, flags, st1);
    if r2.Ok? {
      ChildrenInvNext(registry, types, root, x, i, indent, st, r2.value, pending);
    }
  }

  /** After the visit of dependency `i` succeeds, the rest of the
      dependencies keep the invariant. */
  lemma {:induction false} ChildrenInvNext(registry: Registry, types: TypesTable, root: Token, x: Token, i: nat,
                                           indent: seq<bool>, st: State, st2: State, pending: set<Token>)
    requires x in registry.m && x in st.common && Reaches(registry, root, x)
    requires i < |registry.m[x].dependencies|
    requires forall j :: 0 <= j < i ==> registry.m[x].dependencies[j] in st.common
                                        && registry.m[x].dependencies[j] in TypesValues(types)
    requires st.common <= st2.common
    requires registry.m[x].dependencies[i] in st2.common && registry.m[x].dependencies[i] in TypesValues(types)
    requires PrintInv(registry, types, root, st2.common, pending + {x})
    ensures WalkKeeps(registry, types, root, pending, Children(registry, types, registry.m[x].dependencies, i + 1, indent, st2))
    decreases |Unexpanded(registry, st)|, 1, |registry.m[x].dependencies| - i, 0
  {
    UnexpandedShrinks(registry, st, st2);
    PrefixExpanded(registry.m[x].dependencies, i, st.common, st2.common, types);
    ChildrenInv(registry, types, root, x, i + 1, indent, st2, pending);
  }

  /** Along any walk from the root, every token is expanded. */
  lemma {:induction false} WalkExpanded(registry: Registry, types: TypesTable, root: Token, common: set<Token>,
                                        w: seq<Token>, j: nat)
    requires PrintInv(registry, types, root, common, {}) && root in common
    requires IsWalk(registry, w) && w[0] == root && j < |w|
    ensures w[j] in common
    ensures w[j] in TypesValues(types) || j == 0
  {
    if j > 0 {
      WalkExpanded(registry, types, root, common, w, j - 1);
      assert w[j] in registry.m[w[j - 1]].dependencies;
    }
  }

  /** A successful walk expands exactly the tokens reachable from the
      root, so the header's count is the number of those tokens. */
  lemma WalkCountsReachable(registry: Registry, types: TypesTable, root: Token, t: Token)
    requires Walk(registry, types, root).Ok?
    ensures var st := Walk(registry, types, root).value;
            && st.count == |st.common|
            && (t in st.common <==> Reaches(registry, root, t))
  {
    var st := Walk(registry, types, root).value;
    ReachesRefl(registry, root);
    VisitInv(registry, types, root, root, [], State([], {}, 0), {});
    if Reaches(registry, root, t) {
      var w :| IsWalk(registry, w) && w[0] == root && w[|w| - 1] == t;
      WalkExpanded(registry, types, root, st.common, w, |w| - 1);
    }
  }

  /** A walk from a named root that succeeds has covered everything
      reachable from the root. */
  lemma WalkOkCovers(registry: Registry, types: TypesTable, root: Token)
    requires root in TypesValues(types) && Walk(registry, types, root).Ok?
    ensures forall t :: Reaches(registry, root, t) ==> t in registry.m && t in TypesValues(types)
  {
    ReachesRefl(registry, root);
    VisitInv(registry, types, root, root, [], State([], {}, 0), {});
    var common := Walk(registry, types, root).value.common;
    forall t | Reaches(registry, root, t)
      ensures t in registry.m && t in TypesValues(types)
    {
      var w :| IsWalk(registry, w) && w[0] == root && w[|w| - 1] == t;
      WalkExpanded(registry, types, root, common, w, |w| - 1);
    }
  }

  /** A walk that fails names a reachable token that is unregistered or
      missing from `TYPES`. */
  lemma WalkErrWitnessed(registry: Registry, types: TypesTable, root: Token)
    requires Walk(registry, types, root).Err?
    ensures PrintWitnessed(registry, types, root, Walk(registry, types, root).error)
  {
    ReachesRefl(registry, root);
    VisitInv(registry, types, root, root, [], State([], {}, 0), {});
  }

  /** From a root named in `TYPES`, the walk succeeds exactly when every
      token reachable from the root is registered and named in `TYPES`. */
  lemma WalkSucceeds(registry: Registry, types: TypesTable, root: Token)
    requires root in TypesValues(types)
    ensures Walk(registry, types, root).Ok? <==>
              forall t :: Reaches(registry, root, t) ==> t in registry.m && t in TypesValues(types)
  {
    if Walk(registry, types, root).Ok? {
      WalkOkCovers(registry, types, root);
    } else {
      WalkErrWitnessed(registry, types, root);
    }
  }

  /** The printer succeeds exactly when the root is named, the twig is at
      least as long as the stem, and every token reachable from the root
      is registered and named in `TYPES`. */
  lemma RenderSucceeds(registry: Registry, types: TypesTable, root: Token, g: Glyphs, heading: string)
    ensures Render(registry, types, root, g, heading).Ok? <==>
              && root in TypesValues(types)
              && |g.stem| <= |g.twig|
              && forall t :: Reaches(registry, root, t) ==> t in registry.m && t in TypesValues(types)
  {
    if root in TypesValues(types) {
      WalkSucceeds(registry, types, root);
    }
  }

  /** Every segment is one column wider than the twig, so an edge line at
      depth `k` puts its twig at column `k * (|twig| + 1)`. */
  lemma EdgeColumn(g: Glyphs, e: Edge)
    requires |g.stem| <= |g.twig|
    ensures |Concat(Segments(g, e.indent))| == |e.indent| * (|g.twig| + 1)
    ensures RenderEdge(g, e)[|e.indent| * (|g.twig| + 1)..][..|g.twig|] == g.twig
  {
    ConcatLength(Segments(g, e.indent), |g.twig| + 1);
  }

  // -----------------------------------------------------------------------
  // The shape of the printed edges.

  /** The edges at depth `n` (indentation of `n` segments), in order. */
  function AtDepth(es: seq<Edge>, n: nat): (r: seq<Edge>)
    ensures |r| <= |es|
    ensures forall k :: 0 <= k < |r| ==> |r[k].indent| == n
  {
    if |es| == 0 then []
    else (if |es[0].indent| == n then [es[0]] else []) + AtDepth(es[1..], n)
  }

  lemma {:induction false} AtDepthAppend(a: seq<Edge>, b: seq<Edge>, n: nat)
    ensures AtDepth(a + b, n) == AtDepth(a, n) + AtDepth(b, n)
  {
    if |a| == 0 {
      assert a + b == b;
    } else {
      assert (a + b)[0] == a[0];
      assert (a + b)[1..] == a[1..] + b;
      AtDepthAppend(a[1..], b, n);
    }
  }

  /** Every edge of `es` is indented at least by `indent`. */
  ghost predicate Under(indent: seq<bool>, es: seq<Edge>) {
    forall k :: 0 <= k < |es| ==> indent <= es[k].indent
  }

  lemma UnderAppend(indent: seq<bool>, a: seq<Edge>, b: seq<Edge>)
    requires Under(indent, a) && Under(indent, b)
    ensures Under(indent, a + b)
  {
    forall k | 0 <= k < |a + b|
      ensures indent <= (a + b)[k].indent
    {
      if k >= |a| {
        assert (a + b)[k] == b[k - |a|];
      }
    }
  }

  /** Edges under a longer indentation lie under `indent` and deeper. */
  lemma UnderDeeper(indent: seq<bool>, flag: bool, es: seq<Edge>)
    requires Under(indent + [flag], es)
    ensures Under(indent, es) && AtDepth(es, |indent|) == []
  {
    forall k | 0 <= k < |es|
      ensures indent <= es[k].indent && |es[k].indent| > |indent|
    {
      assert indent <= indent + [flag];
    }
    NoneAtDepth(es, |indent|);
  }

  lemma {:induction false} NoneAtDepth(es: seq<Edge>, n: nat)
    requires forall k :: 0 <= k < |es| ==> |es[k].indent| > n
    ensures AtDepth(es, n) == []
  {
    if |es| > 0 {
      NoneAtDepth(es[1..], n);
    }
  }

  /** `e` is the edge printed for `deps[j]` under `indent`. */
  ghost predicate EdgeFor(types: TypesTable, deps: seq<Token>, j: nat, indent: seq<bool>, e: Edge)
    requires j < |deps|
  {
    e.indent == indent && e.child == deps[j] && SymbolToTypesKey(types, deps[j]) == Ok(e.name)
  }

  /** `top` is one edge per dependency `deps[i..]`, in order, each at
      `indent` and named by its `TYPES` key. */
  ghost predicate OnePerDependency(types: TypesTable, deps: seq<Token>, i: nat, indent: seq<bool>, top: seq<Edge>)
    requires i <= |deps|
  {
    && |top| == |deps| - i
    && forall k :: 0 <= k < |top| ==> EdgeFor(types, deps, i + k, indent, top[k])
  }

  lemma OnePerDependencyCons(types: TypesTable, deps: seq<Token>, i: nat, indent: seq<bool>, e: Edge, top: seq<Edge>)
    requires i < |deps| && EdgeFor(types, deps, i, indent, e)
    requires OnePerDependency(types, deps, i + 1, indent, top)
    ensures OnePerDependency(types, deps, i, indent, [e] + top)
  {
    forall k | 0 <= k < |top| + 1
      ensures EdgeFor(types, deps, i + k, indent, ([e] + top)[k])
    {
      if k > 0 {
        assert ([e] + top)[k] == top[k - 1];
        assert EdgeFor(types, deps, (i + 1) + (k - 1), indent, top[k - 1]);
      }
    }
  }

  /** How many edges at the front of `es` sit deeper than `depth`: the
      lines printed under the edge just before them. */
  function Extent(es: seq<Edge>, depth: nat): (n: nat)
    ensures n <= |es|
    ensures forall k :: 0 <= k < n ==> |es[k].indent| > depth
    ensures n < |es| ==> |es[n].indent| <= depth
  {
    if |es| == 0 || |es[0].indent| <= depth then 0 else 1 + Extent(es[1..], depth)
  }

  lemma {:induction false} ExtentAppend(a: seq<Edge>, b: seq<Edge>, depth: nat)
    requires forall k :: 0 <= k < |a| ==> |a[k].indent| > depth
    requires |b| == 0 || |b[0].indent| <= depth
    ensures Extent(a + b, depth) == |a|
  {
    if |a| == 0 {
      assert a + b == b;
    } else {
      assert (a + b)[0] == a[0];
      assert (a + b)[1..] == a[1..] + b;
      ExtentAppend(a[1..], b, depth);
    }
  }

  /** The edges a `Children` call from index `i` prints under `indent`
      when the tokens `seen` have been expanded already, in depth-first
      order: for each dependency `deps[j]`, `j >= i`, its edge, then
      directly below it the lines of its visit, then the later siblings.
      A token is expanded at its first line in that order and at no other. */
  ghost predicate LaysOut(registry: Registry, types: TypesTable, deps: seq<Token>, i: nat, indent: seq<bool>,
                          seen: set<Token>, es: seq<Edge>)
    requires i <= |deps|
    decreases |es|, 1
  {
    if i == |deps| then es == []
    else
      && |es| > 0
      && var n := 1 + Extent(es[1..], |indent|);
         Branch(registry, types, deps, i, indent, seen, es[0], es[1..n], es[n..])
  }

  /** The edge `e` to `deps[i]`, the lines `below` it, which are the visit
      of `deps[i]` under `indent` and its last-child flag, and the later
      siblings' lines `rest`, laid out once `deps[i]` and every token
      printed below it count as printed too. */
  ghost predicate Branch(registry: Registry, types: TypesTable, deps: seq<Token>, i: nat, indent: seq<bool>,
                         seen: set<Token>, e: Edge, below: seq<Edge>, rest: seq<Edge>)
    requires i < |deps|
    decreases |below| + |rest| + 1, 0
  {
    && EdgeFor(types, deps, i, indent, e)
    && Subtree(registry, types, deps[i], indent + [i == |deps| - 1], seen, e.marked, below)
    && LaysOut(registry, types, deps, i + 1, indent, seen + {deps[i]} + Targets(below), rest)
  }

  /** What the visit of `t` prints under its edge, with `flags` pushed,
      when the tokens `seen` have been expanded already: nothing when `t`
      is one of them, the edge then carrying the marker exactly when `t`
      has dependencies; otherwise the layout of `t`'s dependencies with
      `t` counted as expanded, the edge unmarked. */
  ghost predicate Subtree(registry: Registry, types: TypesTable, t: Token, flags: seq<bool>, seen: set<Token>,
                          marked: bool, below: seq<Edge>)
    decreases |below|, 2
  {
    && t in registry.m
    && if t in seen then below == [] && marked == (|registry.m[t].dependencies| > 0)
       else !marked && LaysOut(registry, types, registry.m[t].dependencies, 0, flags, seen + {t}, below)
  }

  /** The tokens the edges `es` lead to. */
  function Targets(es: seq<Edge>): set<Token> {
    if es == [] then {} else {es[0].child} + Targets(es[1..])
  }

  lemma {:induction false} TargetsAppend(a: seq<Edge>, b: seq<Edge>)
    ensures Targets(a + b) == Targets(a) + Targets(b)
    decreases |a|
  {
    if a == [] {
      assert a + b == b;
    } else {
      assert (a + b)[1..] == a[1..] + b;
      TargetsAppend(a[1..], b);
    }
  }

  /** A layout of at least one dependency splits into the first edge, the
      lines below it and the later siblings' lines. */
  lemma LaysOutSplit(registry: Registry, types: TypesTable, deps: seq<Token>, i: nat, indent: seq<bool>,
                     seen: set<Token>, es: seq<Edge>) returns (e: Edge, below: seq<Edge>, rest: seq<Edge>)
    requires i < |deps| && LaysOut(registry, types, deps, i, indent, seen, es)
    ensures es == [e] + below + rest && |below| < |es| && |rest| < |es|
    ensures Branch(registry, types, deps, i, indent, seen, e, below, rest)
  {
    var n := 1 + Extent(es[1..], |indent|);
    e, below, rest := es[0], es[1..n], es[n..];
    assert es == [e] + below + rest;
  }

  /** An edge at `indent` followed by lines under `indent` lies under it. */
  lemma UnderCons(indent: seq<bool>, e: Edge, below: seq<Edge>, rest: seq<Edge>)
    requires e.indent == indent && Under(indent, below) && Under(indent, rest)
    ensures Under(indent, [e] + below + rest)
  {
    assert Under(indent, [e]);
    UnderAppend(indent, [e], below);
    UnderAppend(indent, [e] + below, rest);
  }

  /** Lines under `indent + [flag]` lie under `indent`. */
  lemma UnderShorter(indent: seq<bool>, flag: bool, es: seq<Edge>)
    requires Under(indent + [flag], es)
    ensures Under(indent, es)
  {
    forall k | 0 <= k < |es|
      ensures indent <= es[k].indent
    {
      assert indent <= indent + [flag];
    }
  }

  /** A layout lies under its loop's indentation. */
  lemma {:induction false} LaysOutUnder(registry: Registry, types: TypesTable, deps: seq<Token>, i: nat,
                                        indent: seq<bool>, seen: set<Token>, es: seq<Edge>)
    requires i <= |deps| && LaysOut(registry, types, deps, i, indent, seen, es)
    ensures Under(indent, es)
    decreases |es|, 1
  {
    if i < |deps| {
      var e, below, rest := LaysOutSplit(registry, types, deps, i, indent, seen, es);
      SubtreeUnder(registry, types, deps[i], indent + [i == |deps| - 1], seen, e.marked, below);
      UnderShorter(indent, i == |deps| - 1, below);
      LaysOutUnder(registry, types, deps, i + 1, indent, seen + {deps[i]} + Targets(below), rest);
      UnderCons(indent, e, below, rest);
    }
  }

  lemma {:induction false} SubtreeUnder(registry: Registry, types: TypesTable, t: Token, flags: seq<bool>,
                                        seen: set<Token>, marked: bool, below: seq<Edge>)
    requires Subtree(registry, types, t, flags, seen, marked, below)
    ensures Under(flags, below)
    decreases |below|, 2
  {
    if t !in seen {
      LaysOutUnder(registry, types, registry.m[t].dependencies, 0, flags, seen + {t}, below);
    }
  }

  /** The lines at a layout's own depth are one edge per dependency
      `deps[i..]`, in order, each named by its `TYPES` key. */
  lemma {:induction false} LaysOutTop(registry: Registry, types: TypesTable, deps: seq<Token>, i: nat,
                                      indent: seq<bool>, seen: set<Token>, es: seq<Edge>)
    requires i <= |deps| && LaysOut(registry, types, deps, i, indent, seen, es)
    ensures OnePerDependency(types, deps, i, indent, AtDepth(es, |indent|))
    decreases |es|
  {
    if i < |deps| {
      var e, below, rest := LaysOutSplit(registry, types, deps, i, indent, seen, es);
      SubtreeUnder(registry, types, deps[i], indent + [i == |deps| - 1], seen, e.marked, below);
      UnderDeeper(indent, i == |deps| - 1, below);
      LaysOutTop(registry, types, deps, i + 1, indent, seen + {deps[i]} + Targets(below), rest);
      AtDepthAppend([e] + below, rest, |indent|);
      AtDepthAppend([e], below, |indent|);
      assert AtDepth([e], |indent|) == [e];
      OnePerDependencyCons(types, deps, i, indent, e, AtDepth(rest, |indent|));
    }
  }

  /** There is at most one layout: given the tokens expanded already,
      every line, its indentation, its marker and the expansion of each
      token are determined. */
  lemma {:induction false} LaysOutUnique(registry: Registry, types: TypesTable, deps: seq<Token>, i: nat,
                                         indent: seq<bool>, seen: set<Token>, es1: seq<Edge>, es2: seq<Edge>)
    requires i <= |deps|
    requires LaysOut(registry, types, deps, i, indent, seen, es1) && LaysOut(registry, types, deps, i, indent, seen, es2)
    ensures es1 == es2
    decreases |es1|, 1
  {
    if i < |deps| {
      var e1, below1, rest1 := LaysOutSplit(registry, types, deps, i, indent, seen, es1);
      var e2, below2, rest2 := LaysOutSplit(registry, types, deps, i, indent, seen, es2);
      SubtreeUnique(registry, types, deps[i], indent + [i == |deps| - 1], seen, e1.marked, below1, e2.marked, below2);
      LaysOutUnique(registry, types, deps, i + 1, indent, seen + {deps[i]} + Targets(below1), rest1, rest2);
    }
  }

  lemma {:induction false} SubtreeUnique(registry: Registry, types: TypesTable, t: Token, flags: seq<bool>,
                                         seen: set<Token>, marked1: bool, below1: seq<Edge>,
                                         marked2: bool, below2: seq<Edge>)
    requires Subtree(registry, types, t, flags, seen, marked1, below1)
    requires Subtree(registry, types, t, flags, seen, marked2, below2)
    ensures marked1 == marked2 && below1 == below2
    decreases |below1|, 2
  {
    if t !in seen {
      LaysOutUnique(registry, types, registry.m[t].dependencies, 0, flags, seen + {t}, below1, below2);
    }
  }

  lemma LaysOutNil(registry: Registry, types: TypesTable, deps: seq<Token>, indent: seq<bool>, seen: set<Token>)
    ensures LaysOut(registry, types, deps, |deps|, indent, seen, [])
  {
  }

  /** The edge to `deps[i]`, the lines of its visit, then the edges of the
      later siblings. */
  lemma LaysOutCons(registry: Registry, types: TypesTable, deps: seq<Token>, i: nat, indent: seq<bool>,
                    seen: set<Token>, e: Edge, below: seq<Edge>, after: set<Token>, rest: seq<Edge>)
    requires i < |deps| && EdgeFor(types, deps, i, indent, e)
    requires Subtree(registry, types, deps[i], indent + [i == |deps| - 1], seen, e.marked, below)
    requires after == seen + {deps[i]} + Targets(below)
    requires LaysOut(registry, types, deps, i + 1, indent, after, rest)
    ensures LaysOut(registry, types, deps, i, indent, seen, [e] + below + rest)
  {
    var es := [e] + below + rest;
    var flags := indent + [i == |deps| - 1];
    SubtreeUnder(registry, types, deps[i], flags, seen, e.marked, below);
    forall k | 0 <= k < |below|
      ensures |below[k].indent| > |indent|
    {
      assert flags <= below[k].indent;
    }
    assert es[0] == e;
    assert es[1..] == below + rest;
    ExtentAppend(below, rest, |indent|);
    assert es[1..1 + |below|] == below;
    assert es[1 + |below|..] == rest;
    assert Branch(registry, types, deps, i, indent, seen, e, below, rest);
  }

  /** Regrouping a run's lines around the edge at `n`. */
  lemma Regroup<T>(r: seq<T>, s2: seq<T>, n: nat)
    requires n < |s2| <= |r| && r[..|s2|] == s2
    ensures r[..n] == s2[..n]
    ensures r[n..] == [s2[n]] + s2[n + 1..] + r[|s2|..]
  {
    assert r == s2 + r[|s2|..];
  }

  /** The number of edges expanding the tokens of `s` prints: one per
      dependency of each. */
  ghost function DepCount(registry: Registry, s: set<Token>): nat
    decreases s
  {
    if s == {} then 0
    else
      var t :| t in s;
      Degree(registry, t) + DepCount(registry, s - {t})
  }

  function Degree(registry: Registry, t: Token): nat {
    if t in registry.m then |registry.m[t].dependencies| else 0
  }

  lemma {:induction false} DepCountRemove(registry: Registry, s: set<Token>, t: Token)
    requires t in s
    ensures DepCount(registry, s) == Degree(registry, t) + DepCount(registry, s - {t})
    decreases s
  {
    var u :| u in s && DepCount(registry, s) == Degree(registry, u) + DepCount(registry, s - {u});
    if u != t {
      DepCountRemove(registry, s - {u}, t);
      DepCountRemove(registry, s - {t}, u);
      assert s - {u} - {t} == s - {t} - {u};
    }
  }

  lemma {:induction false} DepCountUnion(registry: Registry, a: set<Token>, b: set<Token>)
    requires a !! b
    ensures DepCount(registry, a + b) == DepCount(registry, a) + DepCount(registry, b)
    decreases a
  {
    if a == {} {
      assert a + b == b;
    } else {
      var t :| t in a;
      DepCountRemove(registry, a, t);
      DepCountRemove(registry, a + b, t);
      assert a + b - {t} == (a - {t}) + b;
      DepCountUnion(registry, a - {t}, b);
    }
  }

  /** Counting what a run adds in two stretches. */
  lemma DepCountSplit(registry: Registry, a: set<Token>, b: set<Token>, c: set<Token>)
    requires a <= b <= c
    ensures DepCount(registry, c - a) == DepCount(registry, c - b) + DepCount(registry, b - a)
  {
    assert c - a == (c - b) + (b - a);
    DepCountUnion(registry, c - b, b - a);
  }

  lemma DepCountOne(registry: Registry, t: Token)
    ensures DepCount(registry, {t}) == Degree(registry, t)
  {
    DepCountRemove(registry, {t}, t);
    assert {t} - {t} == {};
  }

  /** A visit that succeeds prints one edge per dependency of each token
      it expands; when it expands `x`, it keeps the lines before, appends
      the layout of `x`'s dependencies under `indent` with the tokens
      already expanded and `x` counted as printed, and expands exactly `x`
      and the tokens the new edges lead to. */
  lemma {:induction false} VisitShape(registry: Registry, types: TypesTable, x: Token, indent: seq<bool>, st: State)
    requires x in st.common ==> |st.edges| > 0
    ensures var r := Visit(registry, types, x, indent, st);
            r.Ok? ==>
              && |r.value.edges| == |st.edges| + DepCount(registry, r.value.common - st.common)
              && (x !in st.common ==>
                    && r.value.edges[..|st.edges|] == st.edges
                    && LaysOut(registry, types, registry.m[x].dependencies, 0, indent, st.common + {x},
                               r.value.edges[|st.edges|..])
                    && r.value.common == st.common + {x} + Targets(r.value.edges[|st.edges|..]))
    decreases |Unexpanded(registry, st)|, 0, 0
  {
    var r := Visit(registry, types, x, indent, st);
    if r.Err? {
      return;
    }
    if x in st.common {
      assert r.value.common - st.common == {};
      return;
    }
    VisitUnfold(registry, types, x, indent, st);
    var st1 := State(st.edges, st.common + {x}, st.count + 1);
    AddCommon(registry, st, x);
    ChildrenShape(registry, types, registry.m[x].dependencies, 0, indent, st1);
    DepCountSplit(registry, st.common, st1.common, r.value.common);
    assert st1.common - st.common == {x};
    DepCountOne(registry, x);
  }

  /** A `Children` call that succeeds keeps the lines before, appends the
      layout of the dependencies from `i` on at depth `|indent|` given the
      tokens already expanded, expands exactly the tokens the new edges
      lead to that were not expanded yet, and prints one edge per
      dependency of each token it expands on the way. */
  lemma {:induction false} ChildrenShape(registry: Registry, types: TypesTable, deps: seq<Token>, i: nat,
                                         indent: seq<bool>, st: State)
    requires i <= |deps|
    ensures var r := Children(registry, types, deps, i, indent, st);
            r.Ok? ==>
              && r.value.edges[..|st.edges|] == st.edges
              && LaysOut(registry, types, deps, i, indent, st.common, r.value.edges[|st.edges|..])
              && r.value.common == st.common + Targets(r.value.edges[|st.edges|..])
              && |r.value.edges| == |st.edges| + (|deps| - i) + DepCount(registry, r.value.common - st.common)
    decreases |Unexpanded(registry, st)|, 1, |deps| - i
  {
    var r := Children(registry, types, deps, i, indent, st);
    if r.Err? {
      return;
    }
    if i == |deps| {
      assert r.value == st;
      assert st.edges[|st.edges|..] == [];
      LaysOutNil(registry, types, deps, indent, st.common);
      assert r.value.common - st.common == {};
      return;
    }
    var d := deps[i];
    ChildrenUnfold(registry, types, deps, i, indent, st);
    var name := SymbolToTypesKey(types, d).value;
    var e := Edge(indent, d, name, false);
    var st1 := st.(edges := st.edges + [e]);
    var flags := indent + [i == |deps| - 1];
    var st2 := Visit(registry, types, d, flags, st1).value;
    ChildrenNext(registry, types, deps, i, indent, st, e, st2);
  }

  /** What a visit right after printing an unmarked edge leaves: the
      lines before the edge, the edge, then the visit's subtree. */
  lemma {:induction false} VisitBelow(registry: Registry, types: TypesTable, d: Token, flags: seq<bool>,
                                      st1: State, st2: State)
    requires |st1.edges| > 0 && !st1.edges[|st1.edges| - 1].marked
    requires Visit(registry, types, d, flags, st1) == Ok(st2)
    ensures var n := |st1.edges| - 1;
            && n < |st2.edges|
            && st2.edges[..n] == st1.edges[..n]
            && st2.edges[n] == st1.edges[n].(marked := st2.edges[n].marked)
            && Subtree(registry, types, d, flags, st1.common, st2.edges[n].marked, st2.edges[n + 1..])
            && st2.common == st1.common + {d} + Targets(st2.edges[n + 1..])
            && |st2.edges| == |st1.edges| + DepCount(registry, st2.common - st1.common)
    decreases |Unexpanded(registry, st1)|, 0, 1
  {
    var n := |st1.edges| - 1;
    if d in st1.common {
      VisitBelowAgain(registry, types, d, flags, st1, st2);
    } else {
      VisitShape(registry, types, d, flags, st1);
      assert n + 1 == |st1.edges|;
      assert st2.edges[n + 1..] == st2.edges[|st1.edges|..];
      assert st2.edges[n] == st1.edges[n];
    }
  }

  /** `VisitBelow` for a token expanded already: the edge just printed
      is the last line, marked exactly when the token has dependencies. */
  lemma VisitBelowAgain(registry: Registry, types: TypesTable, d: Token, flags: seq<bool>, st1: State, st2: State)
    requires |st1.edges| > 0 && !st1.edges[|st1.edges| - 1].marked && d in st1.common
    requires Visit(registry, types, d, flags, st1) == Ok(st2)
    ensures var n := |st1.edges| - 1;
            && n < |st2.edges|
            && st2.edges[..n] == st1.edges[..n]
            && st2.edges[n] == st1.edges[n].(marked := st2.edges[n].marked)
            && Subtree(registry, types, d, flags, st1.common, st2.edges[n].marked, st2.edges[n + 1..])
            && st2.common == st1.common + {d} + Targets(st2.edges[n + 1..])
            && |st2.edges| == |st1.edges| + DepCount(registry, st2.common - st1.common)
  {
    var n := |st1.edges| - 1;
    assert st2.edges[n + 1..] == [];
    assert st1.common + {d} == st1.common;
    assert st2.common - st1.common == {};
  }

  /** `ChildrenShape` once the visit of `deps[i]` has succeeded. */
  lemma {:induction false} ChildrenNext(registry: Registry, types: TypesTable, deps: seq<Token>, i: nat,
                                        indent: seq<bool>, st: State, e: Edge, st2: State)
    requires i < |deps| && e == Edge(indent, deps[i], e.name, false)
    requires SymbolToTypesKey(types, deps[i]) == Ok(e.name)
    requires Visit(registry, types, deps[i], indent + [i == |deps| - 1], st.(edges := st.edges + [e])) == Ok(st2)
    ensures var r := Children(registry, types, deps, i + 1, indent, st2);
            r.Ok? ==>
              && r.value.edges[..|st.edges|] == st.edges
              && LaysOut(registry, types, deps, i, indent, st.common, r.value.edges[|st.edges|..])
              && r.value.common == st.common + Targets(r.value.edges[|st.edges|..])
              && |r.value.edges| == |st.edges| + (|deps| - i) + DepCount(registry, r.value.common - st.common)
    decreases |Unexpanded(registry, st)|, 1, |deps| - i, 0
  {
    var st1 := st.(edges := st.edges + [e]);
    var n := |st.edges|;
    PushEdge(registry, st, e);
    VisitBelow(registry, types, deps[i], indent + [i == |deps| - 1], st1, st2);
    UnexpandedShrinks(registry, st, st2);
    var r := Children(registry, types, deps, i + 1, indent, st2);
    ChildrenShape(registry, types, deps, i + 1, indent, st2);
    if r.Err? {
      return;
    }
    assert st1.edges[..n] == st.edges;
    Regroup(r.value.edges, st2.edges, n);
    var below, rest := st2.edges[n + 1..], r.value.edges[|st2.edges|..];
    LaysOutCons(registry, types, deps, i, indent, st.common, st2.edges[n], below, st2.common, rest);
    TargetsCons(st.common, st2.common, r.value.common, st2.edges[n], below, rest);
    DepCountSplit(registry, st.common, st2.common, r.value.common);
  }

  /** The tokens expanded once an edge, the lines of its visit and the
      later siblings' lines are printed. */
  lemma TargetsCons(seen: set<Token>, mid: set<Token>, after: set<Token>, e: Edge, below: seq<Edge>,
                    rest: seq<Edge>)
    requires mid == seen + {e.child} + Targets(below) && after == mid + Targets(rest)
    ensures after == seen + Targets([e] + below + rest)
  {
    TargetsAppend([e] + below, rest);
    TargetsAppend([e], below);
    assert Targets([e]) == {e.child};
  }

  /** The tokens reachable from `root`. */
  ghost function ReachableFrom(registry: Registry, root: Token): set<Token> {
    set t | t in registry.m && Reaches(registry, root, t)
  }

  /** What a successful print is: the header with the number of tokens
      reachable from the root, a blank line, the root's name, then one
      line per edge, where the edges at depth 0 are one per dependency of
      the root, in order, and there is one edge per dependency of each
      reachable token; all of it trimmed. */
  lemma RenderText(registry: Registry, types: TypesTable, root: Token, g: Glyphs, heading: string)
    requires Render(registry, types, root, g, heading).Ok?
    ensures |g.stem| <= |g.twig| && root in registry.m && SymbolToTypesKey(types, root).Ok?
    ensures exists es: seq<Edge> ::
              && Render(registry, types, root, g, heading).value
                 == Trim(heading + NatToString(|ReachableFrom(registry, root)|) + "\n" + "\n"
                         + JoinLines([SymbolToTypesKey(types, root).value] + RenderEdges(g, es)))
              && LaysOut(registry, types, registry.m[root].dependencies, 0, [], {root}, es)
              && |es| == DepCount(registry, ReachableFrom(registry, root))
  {
    var st := Walk(registry, types, root).value;
    WalkShape(registry, types, root);
    WalkCommonIsReachable(registry, types, root);
  }

  /** The walk from the root prints the root's layout, one edge per
      dependency of each expanded token. */
  lemma WalkShape(registry: Registry, types: TypesTable, root: Token)
    requires Walk(registry, types, root).Ok?
    ensures var st := Walk(registry, types, root).value;
            && root in registry.m
            && LaysOut(registry, types, registry.m[root].dependencies, 0, [], {root}, st.edges)
            && |st.edges| == DepCount(registry, st.common)
  {
    var st0 := State([], {}, 0);
    var st := Walk(registry, types, root).value;
    VisitShape(registry, types, root, [], st0);
    assert st.edges[0..] == st.edges;
    assert st.common - st0.common == st.common;
    assert st0.common + {root} == {root};
  }

  /** A successful walk expands exactly the registered tokens reachable
      from the root. */
  lemma WalkCommonIsReachable(registry: Registry, types: TypesTable, root: Token)
    requires Walk(registry, types, root).Ok?
    ensures Walk(registry, types, root).value.common == ReachableFrom(registry, root)
  {
    var st := Walk(registry, types, root).value;
    forall t
      ensures t in st.common <==> t in ReachableFrom(registry, root)
    {
      WalkCountsReachable(registry, types, root, t);
      if t in st.common {
        WalkRegistered(registry, types, root, t);
      }
    }
  }

  /** Every expanded token is registered. */
  lemma WalkRegistered(registry: Registry, types: TypesTable, root: Token, t: Token)
    requires Walk(registry, types, root).Ok? && t in Walk(registry, types, root).value.common
    ensures t in registry.m
  {
    ReachesRefl(registry, root);
    VisitInv(registry, types, root, root, [], State([], {}, 0), {});
    assert Done(registry, types, Walk(registry, types, root).value.common, t);
  }

  /** `printDependencyGraph`'s text, as `RenderText` describes it. */
  lemma PrintDependencyGraphText(registry: Registry, types: TypesTable, root: Token, g: Glyphs)
    requires PrintDependencyGraph(registry, types, root, g).Ok?
    ensures exists es: seq<Edge> ::
              && PrintDependencyGraph(registry, types, root, g).value
                 == Trim("total number of unique components: " + NatToString(|ReachableFrom(registry, root)|) + "\n" + "\n"
                         + JoinLines([SymbolToTypesKey(types, root).value] + RenderEdges(g, es)))
              && LaysOut(registry, types, registry.m[root].dependencies, 0, [], {root}, es)
              && |es| == DepCount(registry, ReachableFrom(registry, root))
  {
    RenderText(registry, types, root, g, "total number of unique components: ");
  }

  /** `printDependencyTree`'s text, with the fixed glyphs. */
  lemma PrintDependencyTreeText(registry: Registry, types: TypesTable, root: Token)
    requires PrintDependencyTree(registry, types, root).Ok?
    ensures exists es: seq<Edge> ::
              && PrintDependencyTree(registry, types, root).value
                 == Trim("total number of unique components : " + NatToString(|ReachableFrom(registry, root)|) + "\n" + "\n"
                         + JoinLines([SymbolToTypesKey(types, root).value] + RenderEdges(LegacyGlyphs, es)))
              && LaysOut(registry, types, registry.m[root].dependencies, 0, [], {root}, es)
              && |es| == DepCount(registry, ReachableFrom(registry, root))
  {
    RenderText(registry, types, root, LegacyGlyphs, "total number of unique components : ");
  }
}
