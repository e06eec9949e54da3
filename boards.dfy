/**
 * N-dimensional boards of the mines game (lab4/lab.py): a board is a nested
 * list whose nesting depth is the number of dimensions.  A list of cell
 * values is a `Node` whose children are `Leaf`s; a list of sub-boards is a
 * `Node` of `Node`s.  Coordinates are sequences of integers, one per axis.
 */
module Boards {

  datatype Board<T> = Leaf(value: T) | Node(children: seq<Board<T>>)

  /** `c` names a cell of `dims`: one in-range component per axis (at least one axis). */
  predicate ValidCoord(dims: seq<nat>, c: seq<int>) {
    |dims| >= 1 && |c| == |dims| && forall i :: 0 <= i < |c| ==> 0 <= c[i] < dims[i]
  }

  /** `b` is a nested list whose shape is exactly `dims`. */
  predicate Shaped<T>(b: Board<T>, dims: seq<nat>)
    decreases b
  {
    && |dims| >= 1
    && b.Node?
    && |b.children| == dims[0]
    && forall i :: 0 <= i < |b.children| ==>
         if |dims| == 1 then b.children[i].Leaf? else Shaped(b.children[i], dims[1..])
  }

  /** `c` leads, one in-range index per nesting level, to a cell value of `b`. */
  predicate Has<T>(b: Board<T>, c: seq<int>)
    decreases |c|
  {
    && |c| >= 1
    && b.Node?
    && 0 <= c[0] < |b.children|
    && if |c| == 1 then b.children[c[0]].Leaf? else Has(b.children[c[0]], c[1..])
  }

  /** The cells of a board of shape `dims` are exactly the valid coordinates of `dims`. */
  lemma {:induction false} ShapedHas<T>(b: Board<T>, dims: seq<nat>, c: seq<int>)
    requires Shaped(b, dims)
    ensures Has(b, c) <==> ValidCoord(dims, c)
    decreases |dims|
  {
    if |c| >= 1 && |dims| > 1 && 0 <= c[0] < |b.children| {
      ShapedHas(b.children[c[0]], dims[1..], c[1..]);
      if ValidCoord(dims, c) {
        assert ValidCoord(dims[1..], c[1..]) by {
          forall i | 0 <= i < |c| - 1 ensures 0 <= c[1..][i] < dims[1..][i] {
            assert c[1..][i] == c[i + 1];
          }
        }
      }
      if Has(b, c) {
        assert ValidCoord(dims[1..], c[1..]);
        forall i | 0 <= i < |c| ensures 0 <= c[i] < dims[i] {
          if i > 0 { assert c[i] == c[1..][i - 1]; }
        }
      }
    }
  }

  /** get_coordinate on an in-bounds coordinate: the value at `c`, one list index per axis. */
  function Get<T>(b: Board<T>, c: seq<int>): T
    requires Has(b, c)
    decreases |c|
  {
    if |c| == 1 then b.children[c[0]].value else Get(b.children[c[0]], c[1..])
  }

  /** make_board: a nested list of shape `dims` with `e` in every cell. */
  function MakeBoard<T>(dims: seq<nat>, e: T): (b: Board<T>)
    requires |dims| >= 1
    ensures Shaped(b, dims)
    ensures forall c :: Has(b, c) ==> Get(b, c) == e
    decreases |dims|
  {
    if |dims| == 1 then Node(seq(dims[0], _ => Leaf(e)))
    else Node(seq(dims[0], _ => MakeBoard(dims[1..], e)))
  }

  /**
   * set_coordinate on an in-bounds coordinate, as the value the board has
   * after the in-place write: the cell at `c` holds `v`, every other cell
   * and the shape are unchanged.
   */
  function Set<T>(b: Board<T>, c: seq<int>, v: T): (r: Board<T>)
    requires Has(b, c)
    ensures forall d :: Has(r, d) <==> Has(b, d)
    ensures Has(r, c) && Get(r, c) == v
    ensures forall d :: Has(b, d) && d != c ==> Get(r, d) == Get(b, d)
    ensures forall dims :: Shaped(b, dims) ==> Shaped(r, dims)
    decreases |c|
  {
    if |c| == 1 then Node(b.children[c[0] := Leaf(v)])
    else Node(b.children[c[0] := Set(b.children[c[0]], c[1..], v)])
  }

  // ---------------------------------------------------------------------
  // Python's list indexing

  /** Python's index into a list of length `n`: an index in [-n, 0) counts from the end. */
  function Wrap(i: int, n: int): int {
    if i < 0 then i + n else i
  }

  /**
   * The coordinates get_coordinate reads a cell at: at every level the index
   * is in [-n, n) for the list of length n it meets. On a board of matching
   * depth, a component outside that range raises IndexError; a shorter
   * coordinate would return a sub-list and a longer one index a number.
   */
  predicate PyHas<T>(b: Board<T>, c: seq<int>)
    decreases |c|
  {
    && |c| >= 1
    && b.Node?
    && -|b.children| <= c[0] < |b.children|
    && var k := Wrap(c[0], |b.children|);
       if |c| == 1 then b.children[k].Leaf? else PyHas(b.children[k], c[1..])
  }

  /** get_coordinate as Python runs it: each index of `c` taken as a list index, negative ones from the end. */
  function PyGet<T>(b: Board<T>, c: seq<int>): T
    requires PyHas(b, c)
    decreases |c|
  {
    var k := Wrap(c[0], |b.children|);
    if |c| == 1 then b.children[k].value else PyGet(b.children[k], c[1..])
  }

  /** set_coordinate as Python runs it: the write goes to the list index each component names. */
  function PySet<T>(b: Board<T>, c: seq<int>, v: T): Board<T>
    requires PyHas(b, c)
    decreases |c|
  {
    var k := Wrap(c[0], |b.children|);
    if |c| == 1 then Node(b.children[k := Leaf(v)])
    else Node(b.children[k := PySet(b.children[k], c[1..], v)])
  }

  /** Every component of `c` in [-d_i, d_i) for its axis. */
  predicate PyCoord(dims: seq<nat>, c: seq<int>) {
    |dims| >= 1 && |c| == |dims| && forall i :: 0 <= i < |c| ==> -dims[i] <= c[i] < dims[i]
  }

  /** The cell a Python coordinate names: each component wrapped into its axis. */
  function WrapAll(dims: seq<nat>, c: seq<int>): (w: seq<int>)
    requires |c| == |dims|
    ensures |w| == |c|
  {
    seq(|c|, i requires 0 <= i < |c| => Wrap(c[i], dims[i]))
  }

  /**
   * On a board of shape `dims`, get_coordinate succeeds exactly when every
   * component is in [-d_i, d_i), and it reads the cell at the wrapped
   * coordinate; set_coordinate writes that cell.
   */
  lemma {:induction false} ShapedPyHas<T>(b: Board<T>, dims: seq<nat>, c: seq<int>, v: T)
    requires Shaped(b, dims)
    ensures PyHas(b, c) <==> PyCoord(dims, c)
    ensures PyCoord(dims, c) ==> ValidCoord(dims, WrapAll(dims, c)) && Has(b, WrapAll(dims, c))
    ensures PyCoord(dims, c) ==> PyGet(b, c) == Get(b, WrapAll(dims, c))
    ensures PyCoord(dims, c) ==> PySet(b, c, v) == Set(b, WrapAll(dims, c), v)
    decreases |dims|
  {
    if PyCoord(dims, c) {
      var w := WrapAll(dims, c);
      ShapedHas(b, dims, w);
      if |dims| > 1 {
        var k := Wrap(c[0], dims[0]);
        PyCoordTail(dims, c);
        ShapedPyHas(b.children[k], dims[1..], c[1..], v);
        assert w[1..] == WrapAll(dims[1..], c[1..]);
      }
    } else if |c| >= 1 && |dims| > 1 && b.Node? && -|b.children| <= c[0] < |b.children| {
      var k := Wrap(c[0], |b.children|);
      ShapedPyHas(b.children[k], dims[1..], c[1..], v);
      if PyCoord(dims[1..], c[1..]) {
        forall i | 0 <= i < |c| ensures -dims[i] <= c[i] < dims[i] {
          if i > 0 {
            assert c[i] == c[1..][i - 1];
          }
        }
      }
    }
  }

  lemma PyCoordTail(dims: seq<nat>, c: seq<int>)
    requires PyCoord(dims, c) && |dims| > 1
    ensures PyCoord(dims[1..], c[1..])
  {
    forall i | 0 <= i < |c| - 1 ensures -dims[1..][i] <= c[1..][i] < dims[1..][i] {
      assert c[1..][i] == c[i + 1];
    }
  }

  /** On an in-bounds coordinate, Python's indexing is plain indexing. */
  lemma WrapValid(dims: seq<nat>, c: seq<int>)
    requires ValidCoord(dims, c)
    ensures PyCoord(dims, c) && WrapAll(dims, c) == c
  {
  }
}
