/**
 * The N-dimensional mines game of lab4/lab.py: a game holds its dimensions,
 * a board of cell values, a mask of revealed cells and a state, and `dig`
 * updates the mask and the state in place.
 */
module Mines {
  import opened Common
  import opened Boards
  import opened Coords

  /** A board cell: a bomb ('.') or the number of bombs around it. */
  datatype Cell = Bomb | Num(n: nat)

  datatype State = Ongoing | Defeat | Victory

  // ---------------------------------------------------------------------
  // Views of a board and a mask

  predicate Shown(m: Board<bool>, c: seq<int>) {
    Has(m, c) && Get(m, c)
  }

  predicate BombAt(b: Board<Cell>, c: seq<int>) {
    Has(b, c) && Get(b, c) == Bomb
  }

  predicate SafeAt(b: Board<Cell>, c: seq<int>) {
    Has(b, c) && Get(b, c) != Bomb
  }

  predicate ZeroAt(b: Board<Cell>, c: seq<int>) {
    Has(b, c) && Get(b, c) == Num(0)
  }

  /** Every cell that is not a bomb is revealed: the condition for victory. */
  ghost predicate AllSafeShown(b: Board<Cell>, m: Board<bool>) {
    forall c :: SafeAt(b, c) ==> Shown(m, c)
  }

  /** Revealing only ever adds cells. */
  ghost predicate Grows(m0: Board<bool>, m1: Board<bool>) {
    forall c :: Shown(m0, c) ==> Shown(m1, c)
  }

  /** No bomb is among the cells revealed between `m0` and `m1`. */
  ghost predicate NoNewBomb(b: Board<Cell>, m0: Board<bool>, m1: Board<bool>) {
    forall c :: Shown(m1, c) && !Shown(m0, c) ==> !BombAt(b, c)
  }

  /** Every zero cell revealed between `m0` and `m1` has its whole neighbourhood revealed. */
  ghost predicate Closed(dims: seq<nat>, b: Board<Cell>, m0: Board<bool>, m1: Board<bool>) {
    forall c :: Shown(m1, c) && !Shown(m0, c) && ZeroAt(b, c) && |c| >= 1 ==>
      forall x :: x in Neighbourhood(dims, c) ==> Shown(m1, x)
  }

  /** A board as new_board builds it: no bomb next to a cell that shows 0. */
  ghost predicate Consistent(dims: seq<nat>, b: Board<Cell>) {
    forall c :: ZeroAt(b, c) && |c| >= 1 ==> forall x :: x in Neighbourhood(dims, c) ==> !BombAt(b, x)
  }

  /** Number of hidden cells of a mask. */
  function Hidden(m: Board<bool>): nat
    decreases m, 1
  {
    match m
    case Leaf(v) => if v then 0 else 1
    case Node(ch) => HiddenIn(m, |ch|)
  }

  /** Hidden cells among the first `k` children of a node. */
  function HiddenIn(m: Board<bool>, k: nat): nat
    requires m.Node? && k <= |m.children|
    decreases m, 0, k
  {
    if k == 0 then 0 else HiddenIn(m, k - 1) + Hidden(m.children[k - 1])
  }

  lemma {:induction false} HiddenInUpdate(m: Board<bool>, i: nat, x: Board<bool>, k: nat)
    requires m.Node? && i < |m.children| && k <= |m.children|
    ensures HiddenIn(Node(m.children[i := x]), k)
            == HiddenIn(m, k) + (if i < k then Hidden(x) - Hidden(m.children[i]) else 0)
  {
    if k > 0 {
      HiddenInUpdate(m, i, x, k - 1);
    }
  }

  /** Writing `v` into one cell changes the hidden count by that cell alone. */
  lemma {:induction false} HiddenAfterSet(m: Board<bool>, c: seq<int>, v: bool)
    requires Has(m, c)
    ensures Hidden(Set(m, c, v)) == Hidden(m) - (if Get(m, c) then 0 else 1) + (if v then 0 else 1)
    decreases |c|
  {
    var ch := m.children;
    if |c| == 1 {
      HiddenInUpdate(m, c[0], Leaf(v), |ch|);
    } else {
      HiddenAfterSet(ch[c[0]], c[1..], v);
      HiddenInUpdate(m, c[0], Set(ch[c[0]], c[1..], v), |ch|);
    }
  }

  /** As Closed, leaving out the cell `c` whose neighbourhood is being dug. */
  ghost predicate ClosedExcept(dims: seq<nat>, b: Board<Cell>, m0: Board<bool>, m1: Board<bool>, c: seq<int>) {
    forall x :: Shown(m1, x) && !Shown(m0, x) && ZeroAt(b, x) && |x| >= 1 && x != c ==>
      forall y :: y in Neighbourhood(dims, x) ==> Shown(m1, y)
  }

  lemma GrowsTrans(m0: Board<bool>, m1: Board<bool>, m2: Board<bool>)
    requires Grows(m0, m1) && Grows(m1, m2)
    ensures Grows(m0, m2)
  {
  }

  lemma NoNewBombTrans(b: Board<Cell>, m0: Board<bool>, m1: Board<bool>, m2: Board<bool>)
    requires NoNewBomb(b, m0, m1) && NoNewBomb(b, m1, m2)
    ensures NoNewBomb(b, m0, m2)
  {
  }

  lemma ClosedExceptTrans(dims: seq<nat>, b: Board<Cell>, m0: Board<bool>, m1: Board<bool>, m2: Board<bool>, c: seq<int>)
    requires Grows(m1, m2) && ClosedExcept(dims, b, m0, m1, c) && Closed(dims, b, m1, m2)
    ensures ClosedExcept(dims, b, m0, m2, c)
  {
    forall x, y | Shown(m2, x) && !Shown(m0, x) && ZeroAt(b, x) && |x| >= 1 && x != c && y in Neighbourhood(dims, x)
      ensures Shown(m2, y)
    {
      if Shown(m1, x) {
        assert Shown(m1, y);
      }
    }
  }

  /** Revealing `c` alone: the only newly shown cell is `c`. */
  lemma OnlyOneShown(dims: seq<nat>, b: Board<Cell>, m0: Board<bool>, c: seq<int>)
    requires Has(m0, c) && !Get(m0, c)
    ensures Grows(m0, Set(m0, c, true)) && Shown(Set(m0, c, true), c)
    ensures forall x :: Shown(Set(m0, c, true), x) && !Shown(m0, x) ==> x == c
    ensures ClosedExcept(dims, b, m0, Set(m0, c, true), c)
    ensures !ZeroAt(b, c) ==> Closed(dims, b, m0, Set(m0, c, true))
    ensures SafeAt(b, c) ==> NoNewBomb(b, m0, Set(m0, c, true))
  {
  }

  lemma ShownPrefix(m1: Board<bool>, m2: Board<bool>, s: seq<seq<int>>, t: nat)
    requires t < |s| && Grows(m1, m2) && Shown(m2, s[t])
    requires forall j :: 0 <= j < t ==> Shown(m1, s[j])
    ensures forall j :: 0 <= j < t + 1 ==> Shown(m2, s[j])
  {
  }

  lemma ClosedFinish(dims: seq<nat>, b: Board<Cell>, m0: Board<bool>, m1: Board<bool>, c: seq<int>, nbrs: seq<seq<int>>)
    requires |c| >= 1 && ClosedExcept(dims, b, m0, m1, c)
    requires nbrs == Neighbourhood(dims, c) && forall j :: 0 <= j < |nbrs| ==> Shown(m1, nbrs[j])
    ensures Closed(dims, b, m0, m1)
  {
  }

  /** Revealing `y` spreads to `x`: `y` shows 0 and `x` is in its neighbourhood. */
  ghost predicate Spreads(dims: seq<nat>, b: Board<Cell>, y: seq<int>, x: seq<int>) {
    ZeroAt(b, y) && |y| >= 1 && x in Neighbourhood(dims, y)
  }

  /** Cell `j` of `s` is in the neighbourhood of an earlier cell of `s` that shows 0. */
  ghost predicate SpreadToFrom(dims: seq<nat>, b: Board<Cell>, s: seq<seq<int>>, j: int)
    requires 0 <= j < |s|
  {
    exists i | 0 <= i < j :: Spreads(dims, b, s[i], s[j])
  }

  /**
   * `order` lists the cells revealed between `m0` and `m1`, each once,
   * starting with `c`; every later cell is in the neighbourhood of an
   * earlier one that shows 0, so the reveal spread only through 0 cells.
   */
  ghost predicate RevealOrder(dims: seq<nat>, b: Board<Cell>, m0: Board<bool>, m1: Board<bool>,
                              c: seq<int>, order: seq<seq<int>>) {
    && |order| >= 1 && order[0] == c && Distinct(order)
    && (forall x :: (Shown(m1, x) && !Shown(m0, x)) <==> x in order)
    && (forall j | 0 < j < |order| :: SpreadToFrom(dims, b, order, j))
  }

  /** Revealing the hidden cell `c` alone: the order is just `c`. */
  lemma OrderStart(dims: seq<nat>, b: Board<Cell>, m0: Board<bool>, c: seq<int>)
    requires Has(m0, c) && !Get(m0, c)
    ensures RevealOrder(dims, b, m0, Set(m0, c, true), c, [c])
  {
    OnlyOneShown(dims, b, m0, c);
  }

  /**
   * After `c`, which shows 0, has revealed `order`, digging its neighbour
   * `x` reveals `more`: together they are the order of the whole reveal.
   */
  lemma OrderAppend(dims: seq<nat>, b: Board<Cell>, m0: Board<bool>, m1: Board<bool>, m2: Board<bool>,
                    c: seq<int>, order: seq<seq<int>>, x: seq<int>, more: seq<seq<int>>)
    requires Grows(m0, m1) && Grows(m1, m2)
    requires RevealOrder(dims, b, m0, m1, c, order) && RevealOrder(dims, b, m1, m2, x, more)
    requires Spreads(dims, b, c, x)
    ensures RevealOrder(dims, b, m0, m2, c, order + more)
  {
    var all := order + more;
    DisjointAppend(order, more, m1);
    forall y ensures (Shown(m2, y) && !Shown(m0, y)) <==> y in all {
      assert y in all <==> y in order || y in more;
    }
    SpreadAppend(dims, b, order, more, all);
  }

  /** Cells shown in `m` followed by cells hidden in `m` make a list without repeats. */
  lemma DisjointAppend(order: seq<seq<int>>, more: seq<seq<int>>, m: Board<bool>)
    requires Distinct(order) && Distinct(more)
    requires forall y :: y in order ==> Shown(m, y)
    requires forall y :: y in more ==> !Shown(m, y)
    ensures Distinct(order + more)
  {
    var all := order + more;
    forall i, j | 0 <= i < j < |all| ensures all[i] != all[j] {
      if j < |order| {
        assert all[i] == order[i] && all[j] == order[j];
      } else if i >= |order| {
        assert all[i] == more[i - |order|] && all[j] == more[j - |order|];
      } else {
        assert all[i] == order[i] && all[i] in order;
        assert all[j] == more[j - |order|] && all[j] in more;
      }
    }
  }

  /** The spreading chain of `order`, then that of `more`, whose first cell `order[0]` spreads to. */
  lemma SpreadAppend(dims: seq<nat>, b: Board<Cell>, order: seq<seq<int>>, more: seq<seq<int>>, all: seq<seq<int>>)
    requires all == order + more
    requires |order| >= 1 && |more| >= 1 && Spreads(dims, b, order[0], more[0])
    requires forall j | 0 < j < |order| :: SpreadToFrom(dims, b, order, j)
    requires forall j | 0 < j < |more| :: SpreadToFrom(dims, b, more, j)
    ensures forall j | 0 < j < |all| :: SpreadToFrom(dims, b, all, j)
  {
    forall j | 0 < j < |all| ensures SpreadToFrom(dims, b, all, j) {
      if j < |order| {
        assert SpreadToFrom(dims, b, order, j);
        var i :| 0 <= i < j && Spreads(dims, b, order[i], order[j]);
        assert all[i] == order[i] && all[j] == order[j];
        assert Spreads(dims, b, all[i], all[j]);
      } else if j == |order| {
        assert all[0] == order[0] && all[j] == more[0];
        assert Spreads(dims, b, all[0], all[j]);
      } else {
        var k := j - |order|;
        assert SpreadToFrom(dims, b, more, k);
        var i :| 0 <= i < k && Spreads(dims, b, more[i], more[k]);
        assert all[i + |order|] == more[i] && all[j] == more[k];
        assert Spreads(dims, b, all[i + |order|], all[j]);
      }
    }
  }

  /**
   * The board while new_board handles bomb `k`: bombs up to `k` placed,
   * and the cells of the bomb's neighbourhood before `t` counted once more.
   */
  ghost predicate Counting(dims: seq<nat>, b: Board<Cell>, bombs: seq<seq<int>>, k: nat, nbrs: seq<seq<int>>, t: nat)
    requires k < |bombs| && t <= |nbrs|
  {
    forall c :: ValidCoord(dims, c) ==>
      Has(b, c) && Get(b, c) == if c in bombs[..k + 1] then Bomb
                                else Num(BombsAround(bombs[..k], c) + if c in nbrs[..t] then 1 else 0)
  }

  lemma CountingStart(dims: seq<nat>, b: Board<Cell>, bombs: seq<seq<int>>, k: nat, nbrs: seq<seq<int>>)
    requires k < |bombs| && |bombs[k]| == |dims| >= 1 && Has(b, bombs[k])
    requires forall c :: ValidCoord(dims, c) ==> Has(b, c) && Get(b, c) == Expected(bombs[..k], c)
    ensures Counting(dims, Set(b, bombs[k], Bomb), bombs, k, nbrs, 0)
  {
    forall c | ValidCoord(dims, c) ensures c in bombs[..k + 1] <==> c in bombs[..k] || c == bombs[k] {
      assert bombs[..k + 1] == bombs[..k] + [bombs[k]];
    }
  }

  /** The first t + 1 neighbours are the first t and then neighbour t, which is not among them. */
  lemma NeighbourPrefix(nbrs: seq<seq<int>>, t: nat)
    requires t < |nbrs| && Distinct(nbrs)
    ensures nbrs[t] !in nbrs[..t]
    ensures forall c :: c in nbrs[..t + 1] <==> c in nbrs[..t] || c == nbrs[t]
  {
    assert nbrs[..t + 1] == nbrs[..t] + [nbrs[t]];
    forall j | 0 <= j < t ensures nbrs[..t][j] != nbrs[t] {
      assert nbrs[..t][j] == nbrs[j];
    }
  }

  /** A neighbour that holds a bomb is left as it is. */
  lemma CountingSkip(dims: seq<nat>, b: Board<Cell>, bombs: seq<seq<int>>, k: nat, nbrs: seq<seq<int>>, t: nat)
    requires k < |bombs| && t < |nbrs| && Distinct(nbrs) && ValidCoord(dims, nbrs[t])
    requires Counting(dims, b, bombs, k, nbrs, t)
    requires Get(b, nbrs[t]) == Bomb
    ensures Counting(dims, b, bombs, k, nbrs, t + 1)
  {
    NeighbourPrefix(nbrs, t);
    assert nbrs[t] in bombs[..k + 1];
  }

  /** Any other neighbour counts one more bomb around it. */
  lemma CountingBump(dims: seq<nat>, b0: Board<Cell>, bombs: seq<seq<int>>, k: nat, nbrs: seq<seq<int>>, t: nat)
    requires k < |bombs| && t < |nbrs| && Distinct(nbrs) && ValidCoord(dims, nbrs[t])
    requires Counting(dims, b0, bombs, k, nbrs, t)
    requires Get(b0, nbrs[t]) != Bomb
    ensures Counting(dims, Set(b0, nbrs[t], Num(Get(b0, nbrs[t]).n + 1)), bombs, k, nbrs, t + 1)
  {
    var x := nbrs[t];
    var v := Num(Get(b0, x).n + 1);
    var b := Set(b0, x, v);
    NeighbourPrefix(nbrs, t);
    assert x !in bombs[..k + 1];
    assert Get(b0, x) == Num(BombsAround(bombs[..k], x));
    forall c | ValidCoord(dims, c)
      ensures Has(b, c) && Get(b, c) == if c in bombs[..k + 1] then Bomb
                                        else Num(BombsAround(bombs[..k], c) + if c in nbrs[..t + 1] then 1 else 0)
    {
      if c != x {
        assert Get(b, c) == Get(b0, c);
      }
    }
  }

  lemma CountingFinish(dims: seq<nat>, b: Board<Cell>, bombs: seq<seq<int>>, k: nat, nbrs: seq<seq<int>>)
    requires k < |bombs| && ValidCoord(dims, bombs[k]) && nbrs == Neighbourhood(dims, bombs[k])
    requires Counting(dims, b, bombs, k, nbrs, |nbrs|)
    ensures forall c :: ValidCoord(dims, c) ==> Has(b, c) && Get(b, c) == Expected(bombs[..k + 1], c)
  {
    assert nbrs[..|nbrs|] == nbrs;
    assert bombs[..k + 1][..k] == bombs[..k];
    forall c | ValidCoord(dims, c)
      ensures Get(b, c) == Expected(bombs[..k + 1], c)
    {
      NeighbourhoodMembers(dims, bombs[k], c);
    }
  }

  /** The number of bombs of the list whose neighbourhood contains `c`. */
  function BombsAround(bombs: seq<seq<int>>, c: seq<int>): nat {
    if bombs == [] then 0
    else BombsAround(bombs[..|bombs| - 1], c) + (if Adjacent(bombs[|bombs| - 1], c) then 1 else 0)
  }

  /** The value new_board puts at `c`. */
  function Expected(bombs: seq<seq<int>>, c: seq<int>): Cell {
    if c in bombs then Bomb else Num(BombsAround(bombs, c))
  }

  lemma AdjacentSymmetric(a: seq<int>, b: seq<int>)
    requires Adjacent(a, b)
    ensures Adjacent(b, a)
  {
  }

  /**
   * A board whose every cell holds its expected value is consistent: a cell
   * with no bomb of the list around it has no bomb cell around it.
   */
  lemma ExpectedConsistent(dims: seq<nat>, bombs: seq<seq<int>>, b: Board<Cell>)
    requires |dims| >= 1 && Shaped(b, dims)
    requires forall x :: ValidCoord(dims, x) ==> Has(b, x) && Get(b, x) == Expected(bombs, x)
    ensures Consistent(dims, b)
  {
    forall c, x | ZeroAt(b, c) && |c| >= 1 && x in Neighbourhood(dims, c) ensures !BombAt(b, x) {
      ShapedHas(b, dims, c);
      NeighbourhoodMembers(dims, c, x);
      if BombAt(b, x) {
        assert x in bombs;
        AdjacentSymmetric(c, x);
        BombInListIsCounted(bombs, x, c);
        assert false;
      }
    }
  }

  lemma {:induction false} BombInListIsCounted(bombs: seq<seq<int>>, x: seq<int>, c: seq<int>)
    requires x in bombs && Adjacent(x, c)
    ensures BombsAround(bombs, c) > 0
  {
    var last := |bombs| - 1;
    if bombs[last] != x {
      assert x in bombs[..last];
      BombInListIsCounted(bombs[..last], x, c);
    }
  }

  /** The text of one cell: '_' when hidden and not x-rayed, ' ' for 0, str(value) otherwise. */
  function CellText(v: Cell, shown: bool, xray: bool): string {
    if !xray && !shown then "_"
    else if v == Num(0) then " "
    else match v
      case Bomb => "."
      case Num(n) => NatToString(n)
  }

  /** str() of a natural number: its decimal digits, most significant first. */
  function NatToString(n: nat): (s: string)
    ensures |s| >= 1 && forall i :: 0 <= i < |s| ==> '0' <= s[i] <= '9'
  {
    if n < 10 then [DigitChar(n)] else NatToString(n / 10) + [DigitChar(n % 10)]
  }

  function DigitChar(d: nat): (ch: char)
    requires d < 10
    ensures '0' <= ch <= '9'
  {
    "0123456789"[d]
  }

  function DigitsValue(s: string): int
    requires forall i :: 0 <= i < |s| ==> '0' <= s[i] <= '9'
  {
    if s == [] then 0 else 10 * DigitsValue(s[..|s| - 1]) + (s[|s| - 1] - '0') as int
  }

  /** Reading back the digits str() produced gives the number. */
  lemma {:induction false} NatToStringRoundTrip(n: nat)
    ensures DigitsValue(NatToString(n)) == n
  {
    var s := NatToString(n);
    if n >= 10 {
      NatToStringRoundTrip(n / 10);
      assert s[..|s| - 1] == NatToString(n / 10);
    }
  }

  class Game {
    var dims: seq<nat>
    var board: Board<Cell>
    var mask: Board<bool>
    var state: State

    ghost predicate Valid()
      reads this
    {
      && Shaped(board, dims) && Shaped(mask, dims)
      && forall c :: ValidCoord(dims, c) ==> Has(board, c) && Has(mask, c)
    }

    /**
     * new_board: an all-hidden mask, state "ongoing", '.' at every bomb and
     * elsewhere the number of listed bombs around the cell.
     */
    constructor (dimensions: seq<nat>, bombs: seq<seq<int>>)
      requires |dimensions| >= 1
      requires forall n :: n in bombs ==> ValidCoord(dimensions, n)
      ensures Valid() && dims == dimensions && state == Ongoing
      ensures mask == MakeBoard(dimensions, false)
      ensures forall c :: ValidCoord(dims, c) ==> Has(board, c) && Get(board, c) == Expected(bombs, c)
      ensures Consistent(dims, board)
    {
      var b := MakeBoard(dimensions, Num(0));
      forall c | ValidCoord(dimensions, c) ensures Has(b, c) {
        ShapedHas(b, dimensions, c);
      }
      for k := 0 to |bombs|
        invariant Shaped(b, dimensions)
        invariant forall c :: ValidCoord(dimensions, c) ==> Has(b, c) && Get(b, c) == Expected(bombs[..k], c)
      {
        b := PlaceBomb(dimensions, bombs, k, b);
      }
      assert bombs[..|bombs|] == bombs;
      dims := dimensions;
      board := b;
      mask := MakeBoard(dimensions, false);
      state := Ongoing;
      new;
      forall c | ValidCoord(dims, c) ensures Has(mask, c) {
        ShapedHas(mask, dims, c);
      }
      ExpectedConsistent(dimensions, bombs, b);
    }

    /**
     * One pass of new_game_nd's bomb loop: bomb k goes on the board and every
     * neighbour of it that is not a bomb counts one more bomb around it.
     */
    static method PlaceBomb(dimensions: seq<nat>, bombs: seq<seq<int>>, k: nat, b0: Board<Cell>) returns (b: Board<Cell>)
      requires |dimensions| >= 1 && k < |bombs| && ValidCoord(dimensions, bombs[k])
      requires Shaped(b0, dimensions)
      requires forall c :: ValidCoord(dimensions, c) ==> Has(b0, c) && Get(b0, c) == Expected(bombs[..k], c)
      ensures Shaped(b, dimensions)
      ensures forall c :: ValidCoord(dimensions, c) ==> Has(b, c) && Get(b, c) == Expected(bombs[..k + 1], c)
    {
      var n := bombs[k];
      ShapedHas(b0, dimensions, n);
      b := Set(b0, n, Bomb);
      var nbrs := NeighborSquare(dimensions, n);
      CountingStart(dimensions, b0, bombs, k, nbrs);
      for t := 0 to |nbrs|
        invariant Shaped(b, dimensions)
        invariant Counting(dimensions, b, bombs, k, nbrs, t)
      {
        var x := nbrs[t];
        NeighbourhoodMembers(dimensions, n, x);
        ghost var before := b;
        var v := Get(b, x);
        if v != Bomb {
          b := Set(b, x, Num(v.n + 1));
          CountingBump(dimensions, before, bombs, k, nbrs, t);
        } else {
          CountingSkip(dimensions, b, bombs, k, nbrs, t);
        }
      }
      CountingFinish(dimensions, b, bombs, k, nbrs);
    }

    /** victory_state: no cell that is not a bomb is still hidden. */
    method VictoryState() returns (won: bool)
      requires Valid()
      ensures won <==> AllSafeShown(board, mask)
    {
      var covered := 0;
      var all := PossibleCoordinates(dims);
      AllCoordsProps(dims);
      for k := 0 to |all|
        invariant covered == 0 <==> forall j :: 0 <= j < k ==> !SafeAt(board, all[j]) || Shown(mask, all[j])
      {
        var c := all[k];
        ShapedHas(board, dims, c);
        ShapedHas(mask, dims, c);
        var v := Get(board, c);
        var m := Get(mask, c);
        if v != Bomb && !m {
          covered := covered + 1;
        }
      }
      won := covered == 0;
      forall c | SafeAt(board, c) ensures Shown(mask, c) || !won {
        ShapedHas(board, dims, c);
        ShapedHas(mask, dims, c);
        if won {
          var j :| 0 <= j < |all| && all[j] == c;
        }
      }
    }

    /**
     * reveal_squares: reveals the hidden cell `c` and, when it shows 0, digs
     * every hidden cell of its neighbourhood in turn.  The count is the
     * number of cells that went from hidden to revealed; `order` lists
     * those cells in the order they were revealed.
     */
    method RevealSquares(c: seq<int>) returns (count: nat, ghost order: seq<seq<int>>)
      requires Valid() && ValidCoord(dims, c) && !Shown(mask, c)
      modifies this
      ensures Valid() && dims == old(dims) && board == old(board) && state == old(state)
      ensures Shown(mask, c) && Grows(old(mask), mask)
      ensures count == Hidden(old(mask)) - Hidden(mask)
      ensures Get(board, c) != Num(0) ==> mask == Set(old(mask), c, true)
      ensures Closed(dims, board, old(mask), mask)
      ensures Consistent(dims, board) && SafeAt(board, c) ==> NoNewBomb(board, old(mask), mask)
      ensures RevealOrder(dims, board, old(mask), mask, c, order)
      decreases Hidden(mask)
    {
      ghost var m0 := mask;
      count := 1;
      HiddenAfterSet(mask, c, true);
      mask := Set(mask, c, true);
      OnlyOneShown(dims, board, m0, c);
      OrderStart(dims, board, m0, c);
      order := [c];
      if Get(board, c) == Num(0) {
        var nbrs := NeighborSquare(dims, c);
        for t := 0 to |nbrs|
          invariant Valid() && dims == old(dims) && board == old(board) && state == old(state)
          invariant Shown(mask, c) && Grows(m0, mask)
          invariant count >= 1 && count == Hidden(m0) - Hidden(mask)
          invariant forall j :: 0 <= j < t ==> Shown(mask, nbrs[j])
          invariant ClosedExcept(dims, board, m0, mask, c)
          invariant Consistent(dims, board) && SafeAt(board, c) ==> NoNewBomb(board, m0, mask)
          invariant RevealOrder(dims, board, m0, mask, c, order)
        {
          var x := nbrs[t];
          NeighbourhoodMembers(dims, c, x);
          ghost var m1 := mask;
          var seen := Get(mask, x);
          if !seen {
            var more, later := RevealSquares(x);
            count := count + more;
            OrderAppend(dims, board, m0, m1, mask, c, order, x, later);
            order := order + later;
            if Consistent(dims, board) && SafeAt(board, c) {
              assert SafeAt(board, x);
              NoNewBombTrans(board, m0, m1, mask);
            }
            ClosedExceptTrans(dims, board, m0, m1, mask, c);
            GrowsTrans(m0, m1, mask);
          }
          ShownPrefix(m1, mask, nbrs, t);
        }
        ClosedFinish(dims, board, m0, mask, c, nbrs);
      }
    }

    /**
     * dig: nothing happens unless the game is ongoing and the cell hidden;
     * a bomb is revealed alone and loses the game; any other cell is
     * revealed as reveal_squares does, and the game is won exactly when no
     * safe cell is left hidden.
     */
    method Dig(c: seq<int>) returns (count: nat, ghost order: seq<seq<int>>)
      requires Valid() && ValidCoord(dims, c)
      modifies this
      ensures Valid() && dims == old(dims) && board == old(board)
      ensures old(state) != Ongoing || Shown(old(mask), c) ==>
                count == 0 && mask == old(mask) && state == old(state)
      ensures old(state) == Ongoing && !Shown(old(mask), c) && BombAt(board, c) ==>
                count == 1 && mask == Set(old(mask), c, true) && state == Defeat
      ensures old(state) == Ongoing && !Shown(old(mask), c) && SafeAt(board, c) ==>
                && Shown(mask, c) && Grows(old(mask), mask)
                && count == Hidden(old(mask)) - Hidden(mask)
                && Closed(dims, board, old(mask), mask)
                && RevealOrder(dims, board, old(mask), mask, c, order)
                && (Get(board, c) != Num(0) ==> mask == Set(old(mask), c, true))
                && (Consistent(dims, board) ==> NoNewBomb(board, old(mask), mask))
                && (state == Victory <==> AllSafeShown(board, mask))
                && (state != Victory ==> state == Ongoing)
    {
      order := [];
      if state != Ongoing || Get(mask, c) {
        return 0, order;
      }
      if Get(board, c) == Bomb {
        mask := Set(mask, c, true);
        state := Defeat;
        return 1, [c];
      }
      count, order := RevealSquares(c);
      var won := VictoryState();
      if won {
        state := Victory;
      }
    }

    /**
     * render_nd: a nested list of the board's shape holding each cell's
     * text; with `xray` every cell is shown whatever the mask says.
     */
    method RenderND(xray: bool) returns (r: Board<Option<string>>)
      requires Valid()
      ensures Shaped(r, dims)
      ensures forall c :: Has(board, c) ==>
                Has(mask, c) && Has(r, c) && Get(r, c) == Some(CellText(Get(board, c), Get(mask, c), xray))
    {
      r := MakeBoard(dims, None);
      var all := PossibleCoordinates(dims);
      AllCoordsProps(dims);
      for k := 0 to |all|
        invariant Shaped(r, dims)
        invariant forall j :: 0 <= j < k ==>
                    Has(board, all[j]) && Has(mask, all[j]) && Has(r, all[j]) &&
                    Get(r, all[j]) == Some(CellText(Get(board, all[j]), Get(mask, all[j]), xray))
      {
        var c := all[k];
        ShapedHas(board, dims, c);
        ShapedHas(mask, dims, c);
        ShapedHas(r, dims, c);
        if !xray && !Get(mask, c) {
          r := Set(r, c, Some("_"));
        } else if Get(board, c) == Num(0) {
          r := Set(r, c, Some(" "));
        } else {
          var v := Get(board, c);
          r := Set(r, c, Some(if v.Bomb? then "." else NatToString(v.n)));
        }
        forall j | 0 <= j < k ensures all[j] != c {
        }
      }
      forall c | Has(board, c)
        ensures Has(mask, c) && Has(r, c) && Get(r, c) == Some(CellText(Get(board, c), Get(mask, c), xray))
      {
        ShapedHas(board, dims, c);
        var j :| 0 <= j < |all| && all[j] == c;
      }
    }
  }

  /** render_2d: the rows of a two-dimensional game, one text per cell. */
  function Render2D(dims: seq<nat>, board: Board<Cell>, mask: Board<bool>, xray: bool): (rows: seq<seq<string>>)
    requires |dims| == 2 && Shaped(board, dims) && Shaped(mask, dims)
    ensures |rows| == dims[0] && forall i :: 0 <= i < |rows| ==> |rows[i]| == dims[1]
    ensures forall i, j :: 0 <= i < dims[0] && 0 <= j < dims[1] ==>
              Has(board, [i, j]) && Has(mask, [i, j]) &&
              rows[i][j] == CellText(Get(board, [i, j]), Get(mask, [i, j]), xray)
  {
    Shaped2D(board, dims);
    Shaped2D(mask, dims);
    seq(dims[0], i requires 0 <= i < dims[0] =>
      seq(dims[1], j requires 0 <= j < dims[1] =>
        CellText(board.children[i].children[j].value, mask.children[i].children[j].value, xray)))
  }

  /** On a two-axis board, game["board"][r][c] is the cell at [r, c]. */
  lemma Shaped2D<T>(b: Board<T>, dims: seq<nat>)
    requires |dims| == 2 && Shaped(b, dims)
    ensures |b.children| == dims[0]
    ensures forall i :: 0 <= i < dims[0] ==> b.children[i].Node? && |b.children[i].children| == dims[1]
    ensures forall i, j :: 0 <= i < dims[0] && 0 <= j < dims[1] ==>
              b.children[i].children[j].Leaf? && Has(b, [i, j]) && Get(b, [i, j]) == b.children[i].children[j].value
  {
    forall i, j | 0 <= i < dims[0] && 0 <= j < dims[1]
      ensures b.children[i].children[j].Leaf? && Has(b, [i, j]) && Get(b, [i, j]) == b.children[i].children[j].value
    {
      assert [i, j][1..] == [j];
    }
  }

  /** "".join of a row of texts. */
  function Concat(texts: seq<string>): string {
    if texts == [] then "" else Concat(texts[..|texts| - 1]) + texts[|texts| - 1]
  }

  /** "\n".join of lines. */
  function JoinLines(lines: seq<string>): string {
    if |lines| <= 1 then (if lines == [] then "" else lines[0])
    else JoinLines(lines[..|lines| - 1]) + "\n" + lines[|lines| - 1]
  }

  /** render_ascii: each row's texts joined, rows joined by newlines. */
  function RenderAscii(dims: seq<nat>, board: Board<Cell>, mask: Board<bool>, xray: bool): string
    requires |dims| == 2 && Shaped(board, dims) && Shaped(mask, dims)
  {
    var rows := Render2D(dims, board, mask, xray);
    JoinLines(seq(|rows|, i requires 0 <= i < |rows| => Concat(rows[i])))
  }

  /** Splitting at every newline: the inverse of JoinLines on lines without one. */
  function SplitLines(s: string): seq<string> {
    SplitFrom(s, "", [])
  }

  function SplitFrom(s: string, cur: string, done: seq<string>): seq<string>
    decreases |s|
  {
    if s == [] then done + [cur]
    else if s[0] == '\n' then SplitFrom(s[1..], "", done + [cur])
    else SplitFrom(s[1..], cur + [s[0]], done)
  }

  predicate NoNewline(s: string) {
    forall i :: 0 <= i < |s| ==> s[i] != '\n'
  }

  lemma {:induction false} SplitFromText(t: string, rest: string, cur: string, done: seq<string>)
    requires NoNewline(t)
    ensures SplitFrom(t + rest, cur, done) == SplitFrom(rest, cur + t, done)
    decreases |t|
  {
    if t == [] {
      assert t + rest == rest && cur + t == cur;
    } else {
      assert (t + rest)[0] == t[0] && t[0] != '\n';
      assert (t + rest)[1..] == t[1..] + rest;
      assert cur + t == (cur + [t[0]]) + t[1..];
      SplitFromText(t[1..], rest, cur + [t[0]], done);
    }
  }

  lemma {:induction false} SplitJoin(lines: seq<string>, rest: string, done: seq<string>)
    requires |lines| >= 1 && forall i :: 0 <= i < |lines| ==> NoNewline(lines[i])
    ensures SplitFrom(JoinLines(lines) + rest, "", done)
            == SplitFrom(rest, lines[|lines| - 1], done + lines[..|lines| - 1])
    decreases |lines|
  {
    var n := |lines|;
    var last := lines[n - 1];
    if n == 1 {
      SplitFromText(last, rest, "", done);
      assert "" + last == last;
      assert done + lines[..0] == done;
    } else {
      var init := lines[..n - 1];
      var tail := "\n" + last + rest;
      assert JoinLines(lines) + rest == JoinLines(init) + tail;
      SplitJoin(init, tail, done);
      assert tail[0] == '\n' && tail[1..] == last + rest;
      assert SplitFrom(tail, init[n - 2], done + init[..n - 2])
             == SplitFrom(last + rest, "", done + init[..n - 2] + [init[n - 2]]);
      assert init[..n - 2] + [init[n - 2]] == init;
      assert done + init[..n - 2] + [init[n - 2]] == done + init;
      SplitFromText(last, rest, "", done + init);
      assert "" + last == last;
    }
  }

  /** Splitting render_ascii's text at its newlines gives back the joined rows. */
  lemma RenderAsciiLines(dims: seq<nat>, board: Board<Cell>, mask: Board<bool>, xray: bool)
    requires |dims| == 2 && dims[0] >= 1 && Shaped(board, dims) && Shaped(mask, dims)
    ensures var rows := Render2D(dims, board, mask, xray);
            SplitLines(RenderAscii(dims, board, mask, xray)) == seq(|rows|, i requires 0 <= i < |rows| => Concat(rows[i]))
  {
    var rows := Render2D(dims, board, mask, xray);
    var lines := seq(|rows|, i requires 0 <= i < |rows| => Concat(rows[i]));
    forall i | 0 <= i < |lines| ensures NoNewline(lines[i]) {
      ConcatNoNewline(rows[i]);
    }
    SplitJoinAll(lines);
  }

  /** Lines without newlines, joined and split again, come back unchanged. */
  lemma SplitJoinAll(lines: seq<string>)
    requires |lines| >= 1 && forall i :: 0 <= i < |lines| ==> NoNewline(lines[i])
    ensures SplitLines(JoinLines(lines)) == lines
  {
    var n := |lines|;
    var init := lines[..n - 1];
    SplitJoin(lines, "", []);
    assert JoinLines(lines) + "" == JoinLines(lines);
    assert [] + init == init;
    assert SplitFrom("", lines[n - 1], init) == init + [lines[n - 1]];
    FrontLast(lines);
  }

  lemma CellTextNoNewline(v: Cell, shown: bool, xray: bool)
    ensures NoNewline(CellText(v, shown, xray))
  {
  }

  lemma {:induction false} ConcatNoNewline(row: seq<string>)
    requires forall j :: 0 <= j < |row| ==> NoNewline(row[j])
    ensures NoNewline(Concat(row))
  {
    if row != [] {
      ConcatNoNewline(row[..|row| - 1]);
    }
  }

  /** The board of the 2x4 examples: bombs at (0, 0), (1, 0) and (1, 1). */
  function ExampleBoard(): Board<Cell> {
    Node([Node([Leaf(Bomb), Leaf(Num(3)), Leaf(Num(1)), Leaf(Num(0))]),
          Node([Leaf(Bomb), Leaf(Bomb), Leaf(Num(1)), Leaf(Num(0))])])
  }

  function MaskOf(rows: seq<seq<bool>>): Board<bool> {
    Node(seq(|rows|, i requires 0 <= i < |rows| => Node(seq(|rows[i]|, j requires 0 <= j < |rows[i]| => Leaf(rows[i][j])))))
  }

  /** render_2d's first example: hidden cells show '_'. */
  lemma Render2DExample()
    ensures var m := MaskOf([[false, true, true, false], [false, false, true, false]]);
            Shaped(ExampleBoard(), [2, 4]) && Shaped(m, [2, 4]) &&
            Render2D([2, 4], ExampleBoard(), m, false) == [["_", "3", "1", "_"], ["_", "_", "1", "_"]]
  {
    var m := MaskOf([[false, true, true, false], [false, false, true, false]]);
    var r := Render2D([2, 4], ExampleBoard(), m, false);
    assert NatToString(3) == "3" && NatToString(1) == "1";
    assert r[0] == ["_", "3", "1", "_"];
    assert r[1] == ["_", "_", "1", "_"];
  }
}
