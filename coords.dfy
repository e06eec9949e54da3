/**
 * Coordinates of the N-dimensional mines board (lab4/lab.py): the bounds
 * check, the neighbourhood of a cell and the list of every cell.
 */
module Coords {
  import opened Boards
  import opened Common

  /** in_bounds compares the coordinate with the dimensions pairwise, as zip does. */
  predicate Within(dims: seq<nat>, c: seq<int>) {
    forall k :: 0 <= k < |c| && k < |dims| ==> 0 <= c[k] < dims[k]
  }

  /** `x` differs from `c` by at most one on every axis (the cell itself included). */
  predicate Adjacent(c: seq<int>, x: seq<int>) {
    |x| == |c| && forall k :: 0 <= k < |c| ==> c[k] - 1 <= x[k] <= c[k] + 1
  }

  /** in_bounds: the first failing axis answers false, otherwise true. */
  method InBounds(dims: seq<nat>, c: seq<int>) returns (ok: bool)
    ensures ok <==> Within(dims, c)
  {
    var k := 0;
    while k < |c| && k < |dims|
      invariant 0 <= k <= |c|
      invariant forall j :: 0 <= j < k && j < |dims| ==> 0 <= c[j] < dims[j]
    {
      if c[k] < 0 || c[k] >= dims[k] {
        return false;
      }
      k := k + 1;
    }
    return true;
  }

  // ---------------------------------------------------------------------
  // Neighbourhood

  /**
   * The list `neighbors(dims, c, i, [])` produces: axes before `i` are kept,
   * each axis from `i` on is moved by -1, 0 and +1 in that order, and a
   * complete coordinate is kept when it is in bounds.
   */
  function Around(dims: seq<nat>, c: seq<int>, i: nat): seq<seq<int>>
    requires i < |c|
    decreases |c| - i, 1
  {
    Branch(dims, c, i, -1) + Branch(dims, c, i, 0) + Branch(dims, c, i, 1)
  }

  /** The part of `Around` contributed by moving axis `i` by `dx`. */
  function Branch(dims: seq<nat>, c: seq<int>, i: nat, dx: int): seq<seq<int>>
    requires i < |c|
    decreases |c| - i, 0
  {
    var d := c[i := c[i] + dx];
    if i == |c| - 1 then (if Within(dims, d) then [d] else []) else Around(dims, d, i + 1)
  }

  /** The members of `Around(dims, c, i)`, exactly. */
  predicate AroundMember(dims: seq<nat>, c: seq<int>, i: nat, x: seq<int>)
    requires i <= |c|
  {
    && |x| == |c|
    && x[..i] == c[..i]
    && (forall k :: i <= k < |c| ==> c[k] - 1 <= x[k] <= c[k] + 1)
    && Within(dims, x)
  }

  lemma {:induction false} AroundMembers(dims: seq<nat>, c: seq<int>, i: nat, x: seq<int>)
    requires i < |c|
    ensures x in Around(dims, c, i) <==> AroundMember(dims, c, i, x)
    decreases |c| - i
  {
    BranchMembers(dims, c, i, -1, x);
    BranchMembers(dims, c, i, 0, x);
    BranchMembers(dims, c, i, 1, x);
    if AroundMember(dims, c, i, x) {
      assert x[i] - c[i] in {-1, 0, 1};
    }
  }

  lemma {:induction false} BranchMembers(dims: seq<nat>, c: seq<int>, i: nat, dx: int, x: seq<int>)
    requires i < |c| && -1 <= dx <= 1
    ensures x in Branch(dims, c, i, dx) <==> AroundMember(dims, c, i, x) && x[i] == c[i] + dx
    decreases |c| - i, 0
  {
    var d := c[i := c[i] + dx];
    if i == |c| - 1 {
      if x in Branch(dims, c, i, dx) {
        assert x == d;
        assert x[..i] == c[..i];
      }
      if AroundMember(dims, c, i, x) && x[i] == c[i] + dx {
        assert x == c[..i] + [x[i]];
        assert d == c[..i] + [d[i]];
      }
    } else {
      AroundMembers(dims, d, i + 1, x);
      assert c[..i] == d[..i];
      if AroundMember(dims, d, i + 1, x) {
        assert x[..i] == x[..i + 1][..i] && d[..i] == d[..i + 1][..i];
        assert x[i] == x[..i + 1][i] && d[i] == d[..i + 1][i];
        forall k | i <= k < |c| ensures c[k] - 1 <= x[k] <= c[k] + 1 {
          if k == i {
            assert x[i] == c[i] + dx;
          } else {
            assert d[k] == c[k];
          }
        }
      }
      if AroundMember(dims, c, i, x) && x[i] == c[i] + dx {
        assert x[..i + 1] == x[..i] + [x[i]];
        assert d[..i + 1] == d[..i] + [d[i]];
        forall k | i + 1 <= k < |d| ensures d[k] - 1 <= x[k] <= d[k] + 1 {
          assert d[k] == c[k];
        }
      }
    }
  }

  /** No coordinate appears twice in a neighbourhood. */
  lemma {:induction false} AroundDistinct(dims: seq<nat>, c: seq<int>, i: nat)
    requires i < |c|
    ensures Distinct(Around(dims, c, i))
    decreases |c| - i
  {
    var a, b, e := Branch(dims, c, i, -1), Branch(dims, c, i, 0), Branch(dims, c, i, 1);
    forall dx | dx in {-1, 0, 1} ensures Distinct(Branch(dims, c, i, dx)) {
      if i < |c| - 1 { AroundDistinct(dims, c[i := c[i] + dx], i + 1); }
    }
    var s := a + b + e;
    forall p, q | 0 <= p < q < |s| ensures s[p] != s[q] {
      var dp := if p < |a| then -1 else if p < |a| + |b| then 0 else 1;
      var dq := if q < |a| then -1 else if q < |a| + |b| then 0 else 1;
      assert s[p] in Branch(dims, c, i, dp);
      assert s[q] in Branch(dims, c, i, dq);
      BranchMembers(dims, c, i, dp, s[p]);
      BranchMembers(dims, c, i, dq, s[q]);
      if dp == dq {
        var t := Branch(dims, c, i, dp);
        var off := if dp == -1 then 0 else if dp == 0 then |a| else |a| + |b|;
        assert s[p] == t[p - off] && s[q] == t[q - off];
      }
    }
  }

  function Pow3(n: nat): nat {
    if n == 0 then 1 else 3 * Pow3(n - 1)
  }

  /** A neighbourhood holds at most 3 to the power of the remaining axes coordinates. */
  lemma {:induction false} AroundSize(dims: seq<nat>, c: seq<int>, i: nat)
    requires i < |c|
    ensures |Around(dims, c, i)| <= Pow3(|c| - i)
    decreases |c| - i
  {
    if i < |c| - 1 {
      AroundSize(dims, c[i := c[i] - 1], i + 1);
      AroundSize(dims, c[i := c[i]], i + 1);
      AroundSize(dims, c[i := c[i] + 1], i + 1);
    }
  }

  /** The neighbourhood of `c` that neighbor_square returns. */
  function Neighbourhood(dims: seq<nat>, c: seq<int>): seq<seq<int>>
    requires |c| >= 1
  {
    Around(dims, c, 0)
  }

  /**
   * neighbor_square on a full coordinate: exactly the in-bounds cells that
   * differ from `c` by at most one per axis, `c` included, none twice.
   */
  lemma NeighbourhoodMembers(dims: seq<nat>, c: seq<int>, x: seq<int>)
    requires |c| == |dims| >= 1
    ensures x in Neighbourhood(dims, c) <==> ValidCoord(dims, x) && Adjacent(c, x)
    ensures Distinct(Neighbourhood(dims, c))
    ensures |Neighbourhood(dims, c)| <= Pow3(|c|)
  {
    AroundMembers(dims, c, 0, x);
    AroundDistinct(dims, c, 0);
    AroundSize(dims, c, 0);
  }

  /** neighbors: appends the neighbourhood of `c` from axis `i` on to `acc`. */
  method Neighbors(dims: seq<nat>, c: seq<int>, i: nat, acc: seq<seq<int>>) returns (r: seq<seq<int>>)
    requires i < |c|
    ensures r == acc + Around(dims, c, i)
    decreases |c| - i
  {
    r := acc;
    for dx := -1 to 2
      invariant r == acc + (if dx == -1 then []
                            else if dx == 0 then Branch(dims, c, i, -1)
                            else if dx == 1 then Branch(dims, c, i, -1) + Branch(dims, c, i, 0)
                            else Around(dims, c, i))
    {
      var d := c[i := c[i] + dx];
      if i == |c| - 1 {
        var ok := InBounds(dims, d);
        if ok {
          r := r + [d];
        }
      } else {
        r := Neighbors(dims, d, i + 1, r);
      }
    }
  }

  /** neighbor_square: the neighbourhood list of `c`. */
  method NeighborSquare(dims: seq<nat>, c: seq<int>) returns (r: seq<seq<int>>)
    requires |c| >= 1
    ensures r == Neighbourhood(dims, c)
  {
    r := Neighbors(dims, c, 0, []);
  }

  // ---------------------------------------------------------------------
  // All coordinates

  /** The list possibleCoordinates returns: row-major (last axis fastest). */
  function AllCoords(dims: seq<nat>): seq<seq<int>>
    requires |dims| >= 1
    decreases |dims|
  {
    if |dims| == 1 then seq(dims[0], k => [k]) else Prefixed(dims[0], AllCoords(dims[1..]))
  }

  /** `[k] + r` for every k < n (outer) and every r in `rest` (inner). */
  function Prefixed(n: nat, rest: seq<seq<int>>): seq<seq<int>> {
    if n == 0 then [] else Prefixed(n - 1, rest) + Block(n - 1, rest)
  }

  function Block(k: int, rest: seq<seq<int>>): seq<seq<int>> {
    seq(|rest|, j requires 0 <= j < |rest| => [k] + rest[j])
  }

  function Product(dims: seq<nat>): nat {
    if dims == [] then 1 else dims[0] * Product(dims[1..])
  }

  /** Strict lexicographic order on coordinates. */
  predicate LexLess(a: seq<int>, b: seq<int>)
    decreases |a|
  {
    |a| > 0 && |b| > 0 && (a[0] < b[0] || (a[0] == b[0] && LexLess(a[1..], b[1..])))
  }

  lemma {:induction false} LexLessTransitive(a: seq<int>, b: seq<int>, c: seq<int>)
    requires LexLess(a, b) && LexLess(b, c)
    ensures LexLess(a, c)
    decreases |a|
  {
    if a[0] == b[0] && b[0] == c[0] {
      LexLessTransitive(a[1..], b[1..], c[1..]);
    }
  }

  predicate LexSorted(s: seq<seq<int>>) {
    forall i, j :: 0 <= i < j < |s| ==> LexLess(s[i], s[j])
  }

  lemma {:induction false} LexLessIrreflexive(a: seq<int>)
    ensures !LexLess(a, a)
    decreases |a|
  {
    if |a| > 0 { LexLessIrreflexive(a[1..]); }
  }

  lemma SortedDistinct(s: seq<seq<int>>)
    requires LexSorted(s)
    ensures Distinct(s)
  {
    forall i, j | 0 <= i < j < |s| ensures s[i] != s[j] {
      LexLessIrreflexive(s[i]);
    }
  }

  lemma {:induction false} PrefixedLength(n: nat, rest: seq<seq<int>>)
    ensures |Prefixed(n, rest)| == n * |rest|
  {
    if n > 0 {
      PrefixedLength(n - 1, rest);
      assert (n - 1) * |rest| + |rest| == n * |rest|;
    }
  }

  lemma {:induction false} PrefixedMembers(n: nat, rest: seq<seq<int>>, x: seq<int>)
    ensures x in Prefixed(n, rest) <==> |x| >= 1 && 0 <= x[0] < n && x[1..] in rest
  {
    if n > 0 {
      PrefixedMembers(n - 1, rest, x);
      var b := Block(n - 1, rest);
      if |x| >= 1 && x[0] == n - 1 && x[1..] in rest {
        var j :| 0 <= j < |rest| && rest[j] == x[1..];
        assert b[j] == [x[0]] + x[1..] == x;
      }
      if x in b {
        var j :| 0 <= j < |b| && b[j] == x;
        assert x[1..] == rest[j];
      }
    }
  }

  lemma {:induction false} PrefixedSorted(n: nat, rest: seq<seq<int>>)
    requires LexSorted(rest)
    ensures LexSorted(Prefixed(n, rest))
  {
    if n > 0 {
      PrefixedSorted(n - 1, rest);
      var p, b := Prefixed(n - 1, rest), Block(n - 1, rest);
      forall i, j | 0 <= i < j < |p + b| ensures LexLess((p + b)[i], (p + b)[j]) {
        if j < |p| {
          assert (p + b)[i] == p[i] && (p + b)[j] == p[j];
        } else if i >= |p| {
          assert b[i - |p|][1..] == rest[i - |p|] && b[j - |p|][1..] == rest[j - |p|];
        } else {
          PrefixedMembers(n - 1, rest, p[i]);
          assert p[i] in p;
        }
      }
    }
  }

  /**
   * possibleCoordinates lists every valid coordinate exactly once, in
   * lexicographic order, and there are as many as the product of the dimensions.
   */
  lemma {:induction false} AllCoordsProps(dims: seq<nat>)
    requires |dims| >= 1
    ensures forall x :: x in AllCoords(dims) <==> ValidCoord(dims, x)
    ensures LexSorted(AllCoords(dims))
    ensures Distinct(AllCoords(dims))
    ensures |AllCoords(dims)| == Product(dims)
    decreases |dims|
  {
    var all := AllCoords(dims);
    if |dims| == 1 {
      forall x: seq<int> ensures x in all <==> ValidCoord(dims, x) {
        if ValidCoord(dims, x) { assert x == [x[0]] && all[x[0]] == x; }
      }
      assert Product(dims) == dims[0] * Product([]);
    } else {
      AllCoordsProps(dims[1..]);
      PrefixedLength(dims[0], AllCoords(dims[1..]));
      PrefixedSorted(dims[0], AllCoords(dims[1..]));
      forall x: seq<int> ensures x in all <==> ValidCoord(dims, x) {
        PrefixedMembers(dims[0], AllCoords(dims[1..]), x);
        if |x| >= 1 {
          assert ValidCoord(dims, x) <==> 0 <= x[0] < dims[0] && ValidCoord(dims[1..], x[1..]) by {
            if 0 <= x[0] < dims[0] && ValidCoord(dims[1..], x[1..]) {
              forall k | 0 <= k < |x| ensures 0 <= x[k] < dims[k] {
                if k > 0 { assert x[k] == x[1..][k - 1]; }
              }
            }
            if ValidCoord(dims, x) {
              forall k | 0 <= k < |x| - 1 ensures 0 <= x[1..][k] < dims[1..][k] {
                assert x[1..][k] == x[k + 1];
              }
            }
          }
        }
      }
    }
    SortedDistinct(all);
  }

  /** possibleCoordinates. */
  method PossibleCoordinates(dims: seq<nat>) returns (r: seq<seq<int>>)
    requires |dims| >= 1
    ensures r == AllCoords(dims)
    decreases |dims|
  {
    r := [];
    if |dims| == 1 {
      for k := 0 to dims[0]
        invariant r == seq(k, j => [j])
      {
        r := r + [[k]];
      }
      return;
    }
    for k := 0 to dims[0]
      invariant r == Prefixed(k, AllCoords(dims[1..]))
    {
      var rest := PossibleCoordinates(dims[1..]);
      for j := 0 to |rest|
        invariant r == Prefixed(k, rest) + Block(k, rest)[..j]
      {
        r := r + [[k] + rest[j]];
        assert Block(k, rest)[..j + 1] == Block(k, rest)[..j] + [[k] + rest[j]];
      }
      assert Block(k, rest)[..|rest|] == Block(k, rest);
    }
  }
}
