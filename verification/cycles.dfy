/** The cycle audit (src/validateDependencyGraph/detectCycles.ts): a depth
    first walk from each entry point that keeps the current path and the set
    of tokens already known to be leaves, and fails on the first dependency
    that is already on the path. */
module CycleDetection {
  import opened Seqs
  import opened JsMaps
  import opened Types
  import opened Errors
  import opened Lookup
  import opened Graph

  /** Registered tokens the walk has not yet put on its path: the measure
      that shrinks on every descent. */
  ghost function Unvisited(registry: Registry, path: seq<Token>): set<Token> {
    set k | k in registry.m && k !in path
  }

  /** The `hasNoCycles` set only ever holds registered leaves. */
  ghost predicate Leaves(registry: Registry, confirmed: set<Token>) {
    forall t :: t in confirmed ==> t in registry.m && |registry.m[t].dependencies| == 0
  }

  /** The path the walk keeps: a simple walk of registered tokens. */
  ghost predicate SimplePath(registry: Registry, path: seq<Token>) {
    && IsWalk(registry, path)
    && Distinct(path)
    && forall t :: t in path ==> t in registry.m
  }

  /** A cycle report names a real cycle, starting at the dependency that
      closed it. */
  ghost predicate CycleReport(registry: Registry, e: Error) {
    e.GraphHasCycle? ==> IsCycle(registry, e.cycle) && e.cycle[0] == e.root
  }

  /** What `dependencyGraphHasCycle(path, root)` prints: `p` is a simple
      path whose last token depends on `root`, a token already on it, and
      `cycle` is `p` from `root`'s first occurrence on. */
  ghost predicate ActiveSuffix(registry: Registry, p: seq<Token>, root: Token, cycle: seq<Token>) {
    && SimplePath(registry, p)
    && root in registry.m[p[|p| - 1]].dependencies
    && root in p
    && cycle == p[IndexOf(p, root)..]
  }

  /** A cycle error raised below `path`: the active path at the time
      extends `path`. */
  ghost predicate CycleBelow(registry: Registry, path: seq<Token>, e: Error) {
    e.GraphHasCycle? ==>
      exists p :: path <= p && ActiveSuffix(registry, p, e.root, e.cycle)
  }

  /** A path extending `path + [d]` extends `path`. */
  lemma CycleBelowParent(registry: Registry, path: seq<Token>, d: Token, e: Error)
    requires CycleBelow(registry, path + [d], e)
    ensures CycleBelow(registry, path, e)
  {
    if e.GraphHasCycle? {
      var p :| path + [d] <= p && ActiveSuffix(registry, p, e.root, e.cycle);
      assert path <= path + [d];
    }
  }

  /** `recurse(path[|path| - 1])` from dependency index `i` on: the new
      `hasNoCycles` set, or the error that stopped the walk. */
  function Explore(registry: Registry, path: seq<Token>, i: nat, confirmed: set<Token>): (r: Result<set<Token>>)
    requires SimplePath(registry, path)
    requires i <= |registry.m[path[|path| - 1]].dependencies|
    requires Leaves(registry, confirmed)
    ensures r.Ok? ==> confirmed <= r.value && Leaves(registry, r.value)
    ensures r.Err? ==> r.error.AbstractionNotRegistered? || r.error.GraphHasCycle?
    ensures r.Err? ==> CycleReport(registry, r.error)
    ensures r.Err? ==> CycleBelow(registry, path, r.error)
    ensures r.Err? && r.error.GraphHasCycle? ==> Reaches(registry, path[0], r.error.root)
    ensures r.Err? && r.error.AbstractionNotRegistered? ==>
              r.error.abstraction !in registry.m && Reaches(registry, path[0], r.error.abstraction)
    decreases |Unvisited(registry, path)|, |registry.m[path[|path| - 1]].dependencies| - i
  {
    var deps := registry.m[path[|path| - 1]].dependencies;
    if i == |deps| then Ok(confirmed)
    else
      var d := deps[i];
      if d in path then
        ClosingDependency(registry, path, i);
        Err(GraphHasCycle(d, path[IndexOf(path, d)..]))
      else if d in confirmed then Explore(registry, path, i + 1, confirmed)
      else
        match GetRegistrationStrictOf(registry, d)
        case Err(e) =>
          WalkAppend(registry, path, d);
          assert (path + [d])[0] == path[0];
          Err(e)
        case Ok(reg) =>
          if |reg.dependencies| == 0 then Explore(registry, path, i + 1, confirmed + {d})
          else
            var path' := path + [d];
            assert SimplePath(registry, path') by {
              WalkAppend(registry, path, d);
            }
            UnvisitedShrinks(registry, path, d);
            match Explore(registry, path', 0, confirmed)
            case Err(e) =>
              CycleBelowParent(registry, path, d, e);
              Err(e)
            case Ok(confirmed') => Explore(registry, path, i + 1, confirmed')
  }

  /** Dependency `i` of the path's last token is already on the path: the
      error the walk raises reports the path from that token on, a cycle
      reachable from the path's start. */
  lemma ClosingDependency(registry: Registry, path: seq<Token>, i: nat)
    requires SimplePath(registry, path)
    requires i < |registry.m[path[|path| - 1]].dependencies|
    requires registry.m[path[|path| - 1]].dependencies[i] in path
    ensures var d := registry.m[path[|path| - 1]].dependencies[i];
            var e := GraphHasCycle(d, path[IndexOf(path, d)..]);
            && CycleReport(registry, e)
            && CycleBelow(registry, path, e)
            && Reaches(registry, path[0], d)
  {
    var d := registry.m[path[|path| - 1]].dependencies[i];
    var j := IndexOf(path, d);
    ClosingIsCycle(registry, path, d, j);
    assert Reaches(registry, path[0], d) by {
      WalkSlice(registry, path, 0, j + 1);
      assert path[..j + 1][0] == path[0] && path[..j + 1][j] == d;
    }
    assert CycleBelow(registry, path, GraphHasCycle(d, path[j..])) by {
      assert ActiveSuffix(registry, path, d, path[j..]) && path <= path;
    }
  }

  lemma ClosingIsCycle(registry: Registry, path: seq<Token>, d: Token, j: nat)
    requires SimplePath(registry, path)
    requires d in registry.m[path[|path| - 1]].dependencies
    requires j < |path| && path[j] == d
    ensures IsCycle(registry, path[j..])
  {
    WalkSlice(registry, path, j, |path|);
    DistinctSuffix(path, j);
    assert path[j..][0] == d && path[j..][|path[j..]| - 1] == path[|path| - 1];
  }

  /** One step of `Explore` at a dependency that is new, registered and
      not a leaf: descend, then carry on with the leaves found below. */
  lemma ExploreDescends(registry: Registry, path: seq<Token>, i: nat, confirmed: set<Token>)
    requires SimplePath(registry, path) && Leaves(registry, confirmed)
    requires i < |registry.m[path[|path| - 1]].dependencies|
    requires var d := registry.m[path[|path| - 1]].dependencies[i];
             d !in path && d !in confirmed && d in registry.m && |registry.m[d].dependencies| > 0
    ensures SimplePath(registry, path + [registry.m[path[|path| - 1]].dependencies[i]])
    ensures var d := registry.m[path[|path| - 1]].dependencies[i];
            var inner := Explore(registry, path + [d], 0, confirmed);
            var r := Explore(registry, path, i, confirmed);
            && (inner.Err? ==> r == inner)
            && (inner.Ok? ==> r == Explore(registry, path, i + 1, inner.value))
  {
    WalkAppend(registry, path, registry.m[path[|path| - 1]].dependencies[i]);
  }

  /** One step of `Explore` at a dependency that is a known or new leaf. */
  lemma ExploreSkipsLeaf(registry: Registry, path: seq<Token>, i: nat, confirmed: set<Token>)
    requires SimplePath(registry, path) && Leaves(registry, confirmed)
    requires i < |registry.m[path[|path| - 1]].dependencies|
    requires var d := registry.m[path[|path| - 1]].dependencies[i];
             d !in path && (d in confirmed || (d in registry.m && |registry.m[d].dependencies| == 0))
    ensures var d := registry.m[path[|path| - 1]].dependencies[i];
            Explore(registry, path, i, confirmed) == Explore(registry, path, i + 1, confirmed + {d})
  {
    var d := registry.m[path[|path| - 1]].dependencies[i];
    if d in confirmed {
      assert confirmed + {d} == confirmed;
    }
  }

  lemma UnvisitedShrinks(registry: Registry, path: seq<Token>, d: Token)
    requires d in registry.m && d !in path
    ensures |Unvisited(registry, path + [d])| < |Unvisited(registry, path)|
  {
    assert Unvisited(registry, path + [d]) == Unvisited(registry, path) - {d};
  }

  /** The entry loop from entry index `k` on. */
  function DetectFrom(registry: Registry, entries: seq<Token>, k: nat, confirmed: set<Token>): (r: Result<set<Token>>)
    requires k <= |entries|
    requires Leaves(registry, confirmed)
    ensures r.Ok? ==> confirmed <= r.value && Leaves(registry, r.value)
    ensures r.Err? ==> r.error.AbstractionNotRegistered? || r.error.GraphHasCycle?
    ensures r.Err? ==> CycleReport(registry, r.error)
    ensures r.Err? && r.error.GraphHasCycle? ==>
              exists e :: e in entries[k..] && Reaches(registry, e, r.error.root)
    ensures r.Err? && r.error.GraphHasCycle? ==>
              exists p :: ActiveSuffix(registry, p, r.error.root, r.error.cycle) && p[0] in entries[k..]
    ensures r.Err? && r.error.AbstractionNotRegistered? ==>
              r.error.abstraction !in registry.m
              && exists e :: e in entries[k..] && Reaches(registry, e, r.error.abstraction)
    decreases |entries| - k
  {
    if k == |entries| then Ok(confirmed)
    else
      var e := entries[k];
      if e in confirmed then DetectFrom(registry, entries, k + 1, confirmed)
      else
        match GetRegistrationStrictOf(registry, e)
        case Err(err) =>
          assert IsWalk(registry, [e]) && e in entries[k..];
          Err(err)
        case Ok(reg) =>
          if |reg.dependencies| == 0 then DetectFrom(registry, entries, k + 1, confirmed + {e})
          else
            assert SimplePath(registry, [e]);
            match Explore(registry, [e], 0, confirmed)
            case Err(err) =>
              assert e in entries[k..];
              ActiveFromEntry(registry, entries, k, err);
              Err(err)
            case Ok(confirmed') =>
              var r := DetectFrom(registry, entries, k + 1, confirmed');
              assert forall x :: x in entries[k + 1..] ==> x in entries[k..];
              r
  }

  lemma ActiveFromEntry(registry: Registry, entries: seq<Token>, k: nat, err: Error)
    requires k < |entries| && CycleBelow(registry, [entries[k]], err)
    ensures err.GraphHasCycle? ==> exists p :: ActiveSuffix(registry, p, err.root, err.cycle) && p[0] in entries[k..]
  {
    if !err.GraphHasCycle? {
      return;
    }
    var p :| [entries[k]] <= p && ActiveSuffix(registry, p, err.root, err.cycle);
    assert p[0] == [entries[k]][0];
    assert entries[k] in entries[k..];
  }

  /** `detectCycles`: passes, or fails with the first cycle met or the first
      unregistered token met. */
  function DetectCycles(registry: Registry, entries: seq<Token>): (r: Outcome)
    ensures r.Fail? ==> r.error.AbstractionNotRegistered? || r.error.GraphHasCycle?
    ensures r.Fail? ==> CycleReport(registry, r.error)
    ensures r.Fail? && r.error.GraphHasCycle? ==>
              exists e :: e in entries && Reaches(registry, e, r.error.root)
    ensures r.Fail? && r.error.GraphHasCycle? ==>
              exists p :: ActiveSuffix(registry, p, r.error.root, r.error.cycle) && p[0] in entries
    ensures r.Fail? && r.error.AbstractionNotRegistered? ==>
              r.error.abstraction !in registry.m
              && exists e :: e in entries && Reaches(registry, e, r.error.abstraction)
  {
    match DetectFrom(registry, entries, 0, {})
    case Ok(_) => Pass
    case Err(e) =>
      assert entries[0..] == entries;
      Fail(e)
  }

  // -----------------------------------------------------------------------
  // Completeness: a pass means no cycle and no unregistered token can be
  // reached from an entry point.

  /** The walk `w` leaves the path's last token through one of the
      dependencies from index `i` on. */
  ghost predicate LeavesThrough(registry: Registry, path: seq<Token>, i: nat, w: seq<Token>)
    requires SimplePath(registry, path)
  {
    var deps := registry.m[path[|path| - 1]].dependencies;
    && IsWalk(registry, w) && |w| >= 2
    && w[0] == path[|path| - 1]
    && exists j :: i <= j < |deps| && deps[j] == w[1]
  }

  lemma {:induction false} ExploreComplete(registry: Registry, path: seq<Token>, i: nat, confirmed: set<Token>, w: seq<Token>)
    requires SimplePath(registry, path)
    requires i <= |registry.m[path[|path| - 1]].dependencies|
    requires Leaves(registry, confirmed)
    requires Explore(registry, path, i, confirmed).Ok?
    requires LeavesThrough(registry, path, i, w)
    ensures Distinct(path + w[1..])
    ensures forall t :: t in w ==> t in registry.m
    decreases |Unvisited(registry, path)|, |registry.m[path[|path| - 1]].dependencies| - i, 1
  {
    var deps := registry.m[path[|path| - 1]].dependencies;
    var j :| i <= j < |deps| && deps[j] == w[1];
    if j > i {
      ExploreCompleteLater(registry, path, i, confirmed, w, j);
    } else {
      ExploreCompleteHere(registry, path, i, confirmed, w);
    }
  }

  /** The walk leaves through a later dependency: move past `deps[i]`. */
  lemma {:induction false} ExploreCompleteLater(registry: Registry, path: seq<Token>, i: nat, confirmed: set<Token>,
                                                w: seq<Token>, j: nat)
    requires SimplePath(registry, path)
    requires i < j < |registry.m[path[|path| - 1]].dependencies|
    requires LeavesThrough(registry, path, i, w)
    requires registry.m[path[|path| - 1]].dependencies[j] == w[1]
    requires Leaves(registry, confirmed)
    requires Explore(registry, path, i, confirmed).Ok?
    ensures Distinct(path + w[1..])
    ensures forall t :: t in w ==> t in registry.m
    decreases |Unvisited(registry, path)|, |registry.m[path[|path| - 1]].dependencies| - i, 0
  {
    var deps := registry.m[path[|path| - 1]].dependencies;
    var d := deps[i];
    assert LeavesThrough(registry, path, i + 1, w);
    if d in path {
    } else if d in confirmed {
      ExploreSkipsLeaf(registry, path, i, confirmed);
      assert confirmed + {d} == confirmed;
      ExploreComplete(registry, path, i + 1, confirmed, w);
    } else if d in registry.m && |registry.m[d].dependencies| == 0 {
      ExploreSkipsLeaf(registry, path, i, confirmed);
      ExploreComplete(registry, path, i + 1, confirmed + {d}, w);
    } else if d in registry.m {
      ExploreDescends(registry, path, i, confirmed);
      UnvisitedShrinks(registry, path, d);
      var confirmed' := Explore(registry, path + [d], 0, confirmed).value;
      ExploreComplete(registry, path, i + 1, confirmed', w);
    }
  }

  /** The walk leaves through `deps[i]` itself: follow it one level down. */
  lemma {:induction false} ExploreCompleteHere(registry: Registry, path: seq<Token>, i: nat, confirmed: set<Token>,
                                               w: seq<Token>)
    requires SimplePath(registry, path)
    requires i < |registry.m[path[|path| - 1]].dependencies|
    requires LeavesThrough(registry, path, i, w)
    requires registry.m[path[|path| - 1]].dependencies[i] == w[1]
    requires Leaves(registry, confirmed)
    requires Explore(registry, path, i, confirmed).Ok?
    ensures Distinct(path + w[1..])
    ensures forall t :: t in w ==> t in registry.m
    decreases |Unvisited(registry, path)|, |registry.m[path[|path| - 1]].dependencies| - i, 0
  {
    var d := w[1];
    assert d !in path;
    var reg := registry.m[d];
    if |w| == 2 {
      assert path + w[1..] == path + [d];
      DistinctSnoc(path, d);
      forall t | t in w ensures t in registry.m {
        assert t == w[0] || t == w[1];
      }
    } else {
      assert |reg.dependencies| > 0 && d !in confirmed by {
        assert w[2] in registry.m[w[1]].dependencies;
      }
      var path' := path + [d];
      ExploreDescends(registry, path, i, confirmed);
      DistinctSnoc(path, d);
      UnvisitedShrinks(registry, path, d);
      var w' := w[1..];
      WalkTail(registry, w);
      assert w'[1] == reg.dependencies[0 + IndexOf(reg.dependencies, w'[1])] by {
        assert w[2] in registry.m[w[1]].dependencies;
      }
      assert LeavesThrough(registry, path', 0, w');
      ExploreComplete(registry, path', 0, confirmed, w');
      assert path' + w'[1..] == path + w[1..];
      forall t | t in w ensures t in registry.m {
        if t != w[0] {
          assert t in w';
        }
      }
    }
  }

  lemma {:induction false} DetectFromComplete(registry: Registry, entries: seq<Token>, k: nat, confirmed: set<Token>, e: Token, w: seq<Token>)
    requires k <= |entries|
    requires Leaves(registry, confirmed)
    requires DetectFrom(registry, entries, k, confirmed).Ok?
    requires e in entries[k..] || e in confirmed
    requires IsWalk(registry, w) && w[0] == e
    ensures Distinct(w) && forall t :: t in w ==> t in registry.m
    decreases |entries| - k
  {
    if e in confirmed {
      if |w| > 1 {
        assert false;
      }
      return;
    }
    var x := entries[k];
    if x in confirmed {
      assert e == x || e in entries[k + 1..];
      DetectFromComplete(registry, entries, k + 1, confirmed, e, w);
    } else {
      var reg := registry.m[x];
      if |reg.dependencies| == 0 {
        assert e == x || e in entries[k + 1..];
        DetectFromComplete(registry, entries, k + 1, confirmed + {x}, e, w);
      } else {
        assert SimplePath(registry, [x]);
        var confirmed' := Explore(registry, [x], 0, confirmed).value;
        if e == x {
          if |w| == 1 {
          } else {
            assert w[1] == reg.dependencies[IndexOf(reg.dependencies, w[1])];
            assert LeavesThrough(registry, [x], 0, w);
            ExploreComplete(registry, [x], 0, confirmed, w);
            assert [x] + w[1..] == w;
          }
        } else {
          assert e in entries[k + 1..];
          DetectFromComplete(registry, entries, k + 1, confirmed', e, w);
        }
      }
    }
  }

  /** Every walk from an entry point of a registry that passes the audit
      runs through distinct registered tokens. */
  lemma DetectCyclesComplete(registry: Registry, entries: seq<Token>, w: seq<Token>)
    requires DetectCycles(registry, entries).Pass?
    requires IsWalk(registry, w) && w[0] in entries
    ensures Distinct(w)
    ensures forall t :: t in w ==> t in registry.m
  {
    assert entries[0..] == entries;
    DetectFromComplete(registry, entries, 0, {}, w[0], w);
  }

  /** A cycle reachable from `e` yields a walk from `e` that repeats a
      token: the path to the cycle, once around it, and back to its start. */
  lemma CycleGivesRepeatingWalk(registry: Registry, e: Token, c: seq<Token>) returns (w: seq<Token>)
    requires IsCycle(registry, c) && Reaches(registry, e, c[0])
    ensures IsWalk(registry, w) && w[0] == e && !Distinct(w)
  {
    var p :| IsWalk(registry, p) && p[0] == e && p[|p| - 1] == c[0];
    w := p + c[1..] + [c[0]];
    assert IsWalk(registry, w) by {
      forall j | 0 <= j < |w| - 1
        ensures w[j] in registry.m && w[j + 1] in registry.m[w[j]].dependencies
      {
        if j < |p| - 1 {
        } else if j == |p| - 1 {
          if |c| > 1 {
            assert w[j + 1] == c[1];
          } else {
            assert w[j + 1] == c[0];
          }
        } else if j < |p| + |c| - 2 {
          assert w[j] == c[j - |p| + 1] && w[j + 1] == c[j - |p| + 2];
        } else {
          assert w[j] == c[|c| - 1] && w[j + 1] == c[0];
        }
      }
    }
    assert w[|p| - 1] == c[0] == w[|w| - 1];
  }

  /** A cycle reachable from an entry point makes the audit fail. */
  lemma ReachableCycleIsDetected(registry: Registry, entries: seq<Token>, e: Token, c: seq<Token>)
    requires e in entries && IsCycle(registry, c) && Reaches(registry, e, c[0])
    ensures DetectCycles(registry, entries).Fail?
  {
    var w := CycleGivesRepeatingWalk(registry, e, c);
    if DetectCycles(registry, entries).Pass? {
      DetectCyclesComplete(registry, entries, w);
      assert false;
    }
  }

  /** Every walk from an entry point runs through distinct registered
      tokens. */
  ghost predicate WalksFromEntriesAreSimple(registry: Registry, entries: seq<Token>) {
    forall w :: IsWalk(registry, w) && w[0] in entries ==>
                  Distinct(w) && forall t :: t in w ==> t in registry.m
  }

  /** The audit passes exactly when every walk from an entry point runs
      through distinct registered tokens. */
  lemma DetectCyclesPasses(registry: Registry, entries: seq<Token>)
    ensures DetectCycles(registry, entries).Pass? <==> WalksFromEntriesAreSimple(registry, entries)
  {
    var r := DetectCycles(registry, entries);
    if r.Pass? {
      forall w | IsWalk(registry, w) && w[0] in entries
        ensures Distinct(w) && forall t :: t in w ==> t in registry.m
      {
        DetectCyclesComplete(registry, entries, w);
      }
    } else if r.error.GraphHasCycle? {
      var e :| e in entries && Reaches(registry, e, r.error.root);
      var w := CycleGivesRepeatingWalk(registry, e, r.error.cycle);
    } else {
      var e :| e in entries && Reaches(registry, e, r.error.abstraction);
      var w :| IsWalk(registry, w) && w[0] == e && w[|w| - 1] == r.error.abstraction;
      assert w[|w| - 1] in w;
    }
  }
}
