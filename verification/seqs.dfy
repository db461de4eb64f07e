/** Sequence vocabulary shared by the whole model: distinctness, filtering
    and joining, written once so that every component states its contracts
    in the same terms. */
module Seqs {

  /** No value occurs twice. */
  ghost predicate Distinct<T>(s: seq<T>) {
    forall i, j :: 0 <= i < j < |s| ==> s[i] != s[j]
  }

  /** The elements of `s` that are not equal to `x`, in order. */
  function Without<T(==)>(s: seq<T>, x: T): (r: seq<T>)
    ensures forall i :: 0 <= i < |r| ==> r[i] in s && r[i] != x
    ensures forall i :: 0 <= i < |s| && s[i] != x ==> s[i] in r
    ensures |r| <= |s|
  {
    if |s| == 0 then []
    else if s[0] == x then Without(s[1..], x)
    else [s[0]] + Without(s[1..], x)
  }

  lemma {:induction false} WithoutDistinct<T>(s: seq<T>, x: T)
    requires Distinct(s)
    ensures Distinct(Without(s, x))
  {
    if |s| > 0 {
      WithoutDistinct(s[1..], x);
      if s[0] != x {
        var t := Without(s[1..], x);
        assert s[0] !in t by {
          assert s[0] !in s[1..];
        }
      }
    }
  }

  /** `x` occurs at index `i` and nowhere before it. */
  ghost predicate FirstOccurrence<T>(s: seq<T>, x: T, i: int) {
    0 <= i < |s| && s[i] == x && x !in s[..i]
  }

  /** Index of the first occurrence of `x` in `s` (JavaScript `indexOf`). */
  function IndexOf<T(==)>(s: seq<T>, x: T): (i: nat)
    requires x in s
    ensures FirstOccurrence(s, x, i)
  {
    if s[0] == x then 0
    else
      var j := IndexOf(s[1..], x);
      assert s[..j + 1] == [s[0]] + s[1..][..j];
      j + 1
  }

  /** Concatenation of all the strings of `parts`. */
  function Concat(parts: seq<string>): (r: string)
    ensures |parts| == 0 ==> r == ""
  {
    if |parts| == 0 then "" else parts[0] + Concat(parts[1..])
  }

  lemma {:induction false} ConcatLength(parts: seq<string>, w: nat)
    requires forall i :: 0 <= i < |parts| ==> |parts[i]| == w
    ensures |Concat(parts)| == w * |parts|
  {
    if |parts| > 0 {
      ConcatLength(parts[1..], w);
    }
  }

  /** Lines joined by line feeds (JavaScript `lines.join("\n")`). */
  function JoinLines(lines: seq<string>): string {
    if |lines| == 0 then ""
    else if |lines| == 1 then lines[0]
    else JoinLines(lines[..|lines| - 1]) + "\n" + lines[|lines| - 1]
  }

  /** `n` spaces (JavaScript `" ".repeat(n)`). */
  function Spaces(n: nat): (r: string)
    ensures |r| == n
    ensures forall i :: 0 <= i < n ==> r[i] == ' '
  {
    if n == 0 then "" else " " + Spaces(n - 1)
  }

  lemma DistinctSuffix<T>(s: seq<T>, j: nat)
    requires Distinct(s) && j <= |s|
    ensures Distinct(s[j..])
  {
    assert forall a, b :: 0 <= a < b < |s| - j ==> s[j..][a] == s[j + a] && s[j..][b] == s[j + b];
  }

  lemma DistinctCons<T>(x: T, s: seq<T>)
    requires Distinct(s) && x !in s
    ensures Distinct([x] + s)
  {
    forall i, j | 0 <= i < j < |[x] + s|
      ensures ([x] + s)[i] != ([x] + s)[j]
    {
      assert ([x] + s)[j] == s[j - 1];
      if i > 0 {
        assert ([x] + s)[i] == s[i - 1];
      }
    }
  }

  /** A sub-list of a duplicate-free tail keeps the head apart. */
  lemma DistinctSubCons<T>(x: T, s: seq<T>, sub: seq<T>)
    requires Distinct(s) ==> Distinct(sub)
    requires forall t :: t in sub ==> t in s
    ensures Distinct([x] + s) ==> Distinct(sub) && Distinct([x] + sub)
  {
    if Distinct([x] + s) {
      assert s == ([x] + s)[1..];
      DistinctSuffix([x] + s, 1);
      assert x !in s by {
        assert forall j :: 0 <= j < |s| ==> s[j] == ([x] + s)[j + 1] && ([x] + s)[0] == x;
      }
      DistinctCons(x, sub);
    }
  }

  lemma DistinctSnoc<T>(s: seq<T>, x: T)
    requires Distinct(s) && x !in s
    ensures Distinct(s + [x])
  {
  }

  /** `r` lists `s` at the strictly increasing positions `idx`: an
      order-preserving selection that keeps repeated values apart. */
  ghost predicate Picks<T>(r: seq<T>, s: seq<T>, idx: seq<int>) {
    && |idx| == |r|
    && (forall k :: 0 <= k < |idx| ==> 0 <= idx[k] < |s| && r[k] == s[idx[k]])
    && (forall k, l :: 0 <= k < l < |idx| ==> idx[k] < idx[l])
  }

  /** Nothing selected from nothing. */
  lemma PicksNil<T>(s: seq<T>)
    ensures Picks([], s, [])
  {
  }

  /** Every position one place to the right. */
  function Shift(idx: seq<int>): (r: seq<int>)
    ensures |r| == |idx|
    ensures forall k :: 0 <= k < |idx| ==> r[k] == idx[k] + 1
  {
    if |idx| == 0 then [] else [idx[0] + 1] + Shift(idx[1..])
  }

  lemma ShiftMembers(idx: seq<int>, j: int)
    ensures j in Shift(idx) <==> j - 1 in idx
  {
    var sh := Shift(idx);
    if j - 1 in idx {
      var k :| 0 <= k < |idx| && idx[k] == j - 1;
      assert sh[k] == j;
    }
    if j in sh {
      var k :| 0 <= k < |sh| && sh[k] == j;
      assert idx[k] == j - 1;
    }
  }

  lemma PicksShift<T>(x: T, r: seq<T>, s: seq<T>, idx: seq<int>)
    requires Picks(r, s, idx)
    ensures Picks(r, [x] + s, Shift(idx))
    ensures forall k :: 0 <= k < |idx| ==> Shift(idx)[k] > 0
  {
    var sh := Shift(idx);
    var xs := [x] + s;
    forall k | 0 <= k < |sh|
      ensures 0 <= sh[k] < |xs| && r[k] == xs[sh[k]]
    {
      assert sh[k] == idx[k] + 1;
      assert xs[idx[k] + 1] == s[idx[k]];
    }
    forall k, l | 0 <= k < l < |sh|
      ensures sh[k] < sh[l]
    {
      assert sh[k] == idx[k] + 1 && sh[l] == idx[l] + 1;
    }
  }

  /** The positions of a selection from `s` as positions in `[x] + s`:
      each moves one place right, and `0` leads when `x` is taken. */
  function ConsIndex(idx: seq<int>, take: bool): (r: seq<int>)
    ensures |r| == |idx| + (if take then 1 else 0)
  {
    if take then [0] + Shift(idx) else Shift(idx)
  }

  /** A selection from `s` extends to `[x] + s`, with `x` taken or not. */
  lemma PicksCons<T>(x: T, r: seq<T>, s: seq<T>, idx: seq<int>, take: bool)
    requires Picks(r, s, idx)
    ensures Picks(if take then [x] + r else r, [x] + s, ConsIndex(idx, take))
  {
    PicksShift(x, r, s, idx);
    if take {
      PicksFront(x, r, s, Shift(idx));
    }
  }

  /** The positions `ConsIndex` holds: `0` exactly when `x` is taken, and
      `j > 0` exactly when `j - 1` was picked. */
  lemma ConsMembers(idx: seq<int>, take: bool, j: int)
    requires forall k :: 0 <= k < |idx| ==> idx[k] >= 0
    ensures j in ConsIndex(idx, take) <==> if j == 0 then take else j - 1 in idx
  {
    ShiftMembers(idx, j);
    ShiftMembers(idx, 0);
  }

  lemma PicksFront<T>(x: T, r: seq<T>, s: seq<T>, sh: seq<int>)
    requires Picks(r, [x] + s, sh) && forall k :: 0 <= k < |sh| ==> sh[k] > 0
    ensures Picks([x] + r, [x] + s, [0] + sh)
  {
    var idx' := [0] + sh;
    var r' := [x] + r;
    forall k | 0 <= k < |idx'|
      ensures 0 <= idx'[k] < |[x] + s| && r'[k] == ([x] + s)[idx'[k]]
    {
      if k > 0 {
        assert idx'[k] == sh[k - 1] && r'[k] == r[k - 1];
      }
    }
    forall k, l | 0 <= k < l < |idx'|
      ensures idx'[k] < idx'[l]
    {
      if k > 0 {
        assert idx'[k] == sh[k - 1] && idx'[l] == sh[l - 1];
      }
    }
  }

  /** `r` is `s` at the positions `keep` marks, in order. */
  ghost predicate PicksWhere<T>(r: seq<T>, s: seq<T>, keep: seq<bool>) {
    && |keep| == |s|
    && exists idx :: Picks(r, s, idx) && forall j :: 0 <= j < |s| ==> (j in idx <==> keep[j])
  }

  /** Filtering one more element at the front. */
  lemma PicksWhereCons<T>(s: seq<T>, keep: seq<bool>, rest: seq<T>)
    requires |s| > 0 && |keep| == |s| && PicksWhere(rest, s[1..], keep[1..])
    ensures PicksWhere(if keep[0] then [s[0]] + rest else rest, s, keep)
  {
    var idx :| Picks(rest, s[1..], idx) && forall j :: 0 <= j < |s| - 1 ==> (j in idx <==> keep[1..][j]);
    var idx' := ConsIndex(idx, keep[0]);
    PicksCons(s[0], rest, s[1..], idx, keep[0]);
    assert [s[0]] + s[1..] == s;
    forall j | 0 <= j < |s|
      ensures j in idx' <==> keep[j]
    {
      ConsMembers(idx, keep[0], j);
      if j > 0 {
        assert keep[j] == keep[1..][j - 1];
      }
    }
  }

  lemma SubsetCardinality<T>(a: set<T>, b: set<T>)
    requires a <= b
    ensures |a| <= |b|
  {
    assert b == a + (b - a);
  }
}
