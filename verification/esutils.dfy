/** The two array helpers the validation front end uses
    (src/es-utils/getIndexOfFirstDuplicateValueOfArray.ts and
    src/es-utils/getFirstOverlappingElementData.ts). Each is given as a
    function whose contract characterises its answer, and as a method that
    follows the program's single pass with a `Map`, proved to agree. */
module EsUtils {
  import opened Seqs

  // ---------------------------------------------------------------------
  // getIndexOfFirstDuplicateValueOfArray

  /** The answer of the scan once `a[..i]` is known to be duplicate-free. */
  function DuplicateScan<T(==)>(a: seq<T>, i: nat): (r: int)
    requires i <= |a| && Distinct(a[..i])
    ensures r == -1 <==> Distinct(a)
    ensures r != -1 ==>
              && 0 <= r < |a|
              && FirstOccurrence(a, a[r], r)
              && exists j :: r < j < |a| && a[j] == a[r] && Distinct(a[..j])
    decreases |a| - i
  {
    if i == |a| then
      assert a[..i] == a;
      -1
    else if a[i] in a[..i] then
      var r := IndexOf(a[..i], a[i]);
      assert a[..i][..r] == a[..r];
      assert !Distinct(a) by {
        assert a[r] == a[i];
      }
      r
    else
      assert Distinct(a[..i + 1]) by {
        assert a[..i + 1] == a[..i] + [a[i]];
      }
      DuplicateScan(a, i + 1)
  }

  /** The index of the first occurrence of the first value met a second
      time, or -1 when all values are distinct. */
  function IndexOfFirstDuplicate<T(==)>(a: seq<T>): (r: int)
    ensures r == -1 <==> Distinct(a)
    ensures r != -1 ==>
              && 0 <= r < |a|
              && FirstOccurrence(a, a[r], r)
              && exists j :: r < j < |a| && a[j] == a[r] && Distinct(a[..j])
  {
    DuplicateScan(a, 0)
  }

  /** The first occurrence of a value is unique. */
  lemma FirstOccurrenceUnique<T>(s: seq<T>, x: T, i: int, j: int)
    requires FirstOccurrence(s, x, i) && FirstOccurrence(s, x, j)
    ensures i == j
  {
  }

  /** The scan moves past a value it has not met before. */
  lemma ScanStep<T>(a: seq<T>, i: nat)
    requires i < |a| && Distinct(a[..i]) && a[i] !in a[..i]
    ensures Distinct(a[..i + 1]) && DuplicateScan(a, i) == DuplicateScan(a, i + 1)
  {
    assert a[..i + 1] == a[..i] + [a[i]];
  }

  /** The scan stops at a value first met at `j`. */
  lemma ScanHit<T>(a: seq<T>, i: nat, j: nat)
    requires i < |a| && Distinct(a[..i]) && j < i && FirstOccurrence(a, a[i], j)
    ensures DuplicateScan(a, i) == j
  {
    assert a[..i][..j] == a[..j];
    assert a[..i][j] == a[i];
    FirstOccurrenceUnique(a[..i], a[i], j, IndexOf(a[..i], a[i]));
  }

  /** The scan ends with no duplicate once it has passed every value. */
  lemma ScanEnd<T>(a: seq<T>)
    requires Distinct(a[..|a|])
    ensures DuplicateScan(a, |a|) == -1
  {
  }

  /** `getIndexOfFirstDuplicateValueOfArray`'s loop: `seen` maps each value met so far to the index
      where it was first met. */
  method IndexOfFirstDuplicateLoop<T(==)>(a: seq<T>) returns (r: int)
    ensures r == IndexOfFirstDuplicate(a)
  {
    var seen: map<T, nat> := map[];
    var i := 0;
    while i < |a|
      invariant 0 <= i <= |a|
      invariant Distinct(a[..i])
      invariant forall x :: x in seen <==> x in a[..i]
      invariant forall x | x in seen :: FirstOccurrence(a, x, seen[x]) && seen[x] < i
      invariant DuplicateScan(a, i) == DuplicateScan(a, 0)
    {
      if a[i] in seen {
        ScanHit(a, i, seen[a[i]]);
        return seen[a[i]];
      }
      ScanStep(a, i);
      assert a[..i + 1] == a[..i] + [a[i]];
      seen := seen[a[i] := i];
      i := i + 1;
    }
    ScanEnd(a);
    return -1;
  }

  // ---------------------------------------------------------------------
  // getFirstOverlappingElementData

  /** `{index1, index2, overlappingElement}`, or `null`. */
  datatype Overlap<T> = NoOverlap | Overlap(index1: nat, index2: nat, overlappingElement: T)

  /** `x` occurs at index `i` and nowhere after it. */
  ghost predicate LastOccurrence<T>(s: seq<T>, x: T, i: int) {
    0 <= i < |s| && s[i] == x && x !in s[i + 1..]
  }

  function LastIndexOf<T(==)>(s: seq<T>, x: T): (i: nat)
    requires x in s
    ensures LastOccurrence(s, x, i)
  {
    if s[|s| - 1] == x then |s| - 1
    else
      var i := LastIndexOf(s[..|s| - 1], x);
      assert s[i + 1..] == s[..|s| - 1][i + 1..] + [s[|s| - 1]];
      i
  }

  /** What `getFirstOverlappingElementData` returns once `xs[..i1]` is known to share no
      element with `ys`. */
  function OverlapScan<T(==)>(xs: seq<T>, ys: seq<T>, i1: nat): (r: Overlap<T>)
    requires i1 <= |xs|
    requires forall k :: 0 <= k < i1 ==> xs[k] !in ys
    ensures r.NoOverlap? <==> forall k :: 0 <= k < |xs| ==> xs[k] !in ys
    ensures r.Overlap? ==>
              && r.index1 < |xs| && r.overlappingElement == xs[r.index1]
              && (forall k :: 0 <= k < r.index1 ==> xs[k] !in ys)
              && LastOccurrence(ys, r.overlappingElement, r.index2)
    decreases |xs| - i1
  {
    if i1 == |xs| then NoOverlap
    else if xs[i1] in ys then Overlap(i1, LastIndexOf(ys, xs[i1]), xs[i1])
    else OverlapScan(xs, ys, i1 + 1)
  }

  /** The first element of `xs` that also occurs in `ys`, with its
      index in `xs` and its last index in `ys`. */
  function FirstOverlappingElement<T(==)>(xs: seq<T>, ys: seq<T>): (r: Overlap<T>)
    ensures r.NoOverlap? <==> forall k :: 0 <= k < |xs| ==> xs[k] !in ys
    ensures r.Overlap? ==>
              && r.index1 < |xs| && r.overlappingElement == xs[r.index1]
              && (forall k :: 0 <= k < r.index1 ==> xs[k] !in ys)
              && LastOccurrence(ys, r.overlappingElement, r.index2)
  {
    OverlapScan(xs, ys, 0)
  }

  /** The last occurrence of a value is unique. */
  lemma LastOccurrenceUnique<T>(s: seq<T>, x: T, i: int, j: int)
    requires LastOccurrence(s, x, i) && LastOccurrence(s, x, j)
    ensures i == j
  {
  }

  /** Appending `y` keeps the last occurrences of other values and makes
      the new position the last occurrence of `y`. */
  lemma LastOccurrenceSnoc<T>(s: seq<T>, y: T, x: T, j: int)
    requires x != y && LastOccurrence(s, x, j)
    ensures LastOccurrence(s + [y], x, j)
  {
    assert (s + [y])[j + 1..] == s[j + 1..] + [y];
  }

  /** The first pass: `new Map(array2.map((v, i) => [v, i]))`, in which a
      later index overwrites an earlier one. */
  method LastIndexMap<T(==)>(ys: seq<T>) returns (index: map<T, nat>)
    ensures forall x :: x in index <==> x in ys
    ensures forall x | x in index :: LastOccurrence(ys, x, index[x])
  {
    index := map[];
    var i := 0;
    while i < |ys|
      invariant 0 <= i <= |ys|
      invariant forall x :: x in index <==> x in ys[..i]
      invariant forall x | x in index :: LastOccurrence(ys[..i], x, index[x])
    {
      assert ys[..i + 1] == ys[..i] + [ys[i]];
      forall x | x in index && x != ys[i]
        ensures LastOccurrence(ys[..i + 1], x, index[x])
      {
        LastOccurrenceSnoc(ys[..i], ys[i], x, index[x]);
      }
      index := index[ys[i] := i];
      i := i + 1;
    }
    assert ys[..i] == ys;
  }

  /** `getFirstOverlappingElementData`'s two passes: the map of last indices, then a scan of
      `xs`. */
  method FirstOverlappingElementLoop<T(==)>(xs: seq<T>, ys: seq<T>) returns (r: Overlap<T>)
    ensures r == FirstOverlappingElement(xs, ys)
  {
    var ysIndex := LastIndexMap(ys);
    var i1 := 0;
    while i1 < |xs|
      invariant 0 <= i1 <= |xs|
      invariant forall k :: 0 <= k < i1 ==> xs[k] !in ys
      invariant OverlapScan(xs, ys, i1) == OverlapScan(xs, ys, 0)
    {
      if xs[i1] in ysIndex {
        LastOccurrenceUnique(ys, xs[i1], ysIndex[xs[i1]], LastIndexOf(ys, xs[i1]));
        return Overlap(i1, ysIndex[xs[i1]], xs[i1]);
      }
      i1 := i1 + 1;
    }
    return NoOverlap;
  }
}
