/**
 * Route finding over the graph that `Roads.BuildAuxiliaryStructures` builds:
 * snapping a location to the nearest known node, the best speed limit
 * between two nodes, and the best-first search behind both the shortest
 * and the fastest route.
 *
 * The great-circle distance is a parameter `dist`; nothing about it is
 * assumed.
 */
module Search {
  import opened Common
  import opened Roads

  /** The exceptions the searches can raise. */
  datatype Failure = KeyError | ZeroDivisionError

  // ---------------------------------------------------------------------
  // Nearest node
  // ---------------------------------------------------------------------

  /**
   * The position in `order` of the first location nearest to `loc1`: no
   * location is nearer, and every earlier one is strictly farther.
   */
  function FirstNearest(order: seq<Loc>, loc1: Loc, dist: (Loc, Loc) -> real): (k: nat)
    requires order != []
    ensures k < |order|
    ensures forall j | 0 <= j < |order| :: dist(order[k], loc1) <= dist(order[j], loc1)
    ensures forall j | 0 <= j < k :: dist(order[j], loc1) > dist(order[k], loc1)
  {
    if |order| == 1 then 0
    else
      var init := order[..|order| - 1];
      var k := FirstNearest(init, loc1, dist);
      assert forall j | 0 <= j < |init| :: init[j] == order[j];
      if dist(order[k], loc1) > dist(order[|order| - 1], loc1) then |order| - 1 else k
  }

  /** The first nearest of `t + 1` locations, from the first nearest of the first `t`. */
  lemma FirstNearestStep(order: seq<Loc>, t: nat, loc1: Loc, dist: (Loc, Loc) -> real)
    requires t < |order|
    ensures FirstNearest(order[..t + 1], loc1, dist) ==
      if t == 0 then 0
      else
        var k := FirstNearest(order[..t], loc1, dist);
        if dist(order[k], loc1) > dist(order[t], loc1) then t else k
  {
    assert order[..t + 1][..t] == order[..t];
  }

  /**
   * `nearest(Dic, loc1)`: scans the keys in insertion order and keeps the
   * first one at the smallest distance; `None` when there are no keys.
   */
  method Nearest(dic: LocIndex, loc1: Loc, dist: (Loc, Loc) -> real) returns (node: Option<int>)
    requires IndexOk(dic)
    ensures node.None? <==> dic.order == []
    ensures node.Some? ==> node.value == dic.ids[dic.order[FirstNearest(dic.order, loc1, dist)]]
  {
    node := None;
    var loc: Option<Loc> := None;
    for t := 0 to |dic.order|
      invariant loc.None? <==> t == 0
      invariant node.None? <==> t == 0
      invariant t > 0 ==> loc.value == dic.order[FirstNearest(dic.order[..t], loc1, dist)]
      invariant t > 0 ==> loc.value in dic.ids && node.value == dic.ids[loc.value]
    {
      var i := dic.order[t];
      assert i in Elems(dic.order);
      FirstNearestStep(dic.order, t, loc1, dist);
      if loc.None? || dist(loc.value, loc1) > dist(i, loc1) {
        node := Some(dic.ids[i]);
        loc := Some(i);
      }
    }
    assert dic.order[..|dic.order|] == dic.order;
  }

  /**
   * Snapping a location that is itself a key, when every other key is
   * strictly farther from it, gives back that key.
   */
  lemma NearestOfKey(order: seq<Loc>, loc: Loc, dist: (Loc, Loc) -> real)
    requires loc in order
    requires forall j | 0 <= j < |order| && order[j] != loc :: dist(order[j], loc) > dist(loc, loc)
    ensures order[FirstNearest(order, loc, dist)] == loc
  {
    var k := FirstNearest(order, loc, dist);
    var j :| 0 <= j < |order| && order[j] == loc;
    assert dist(order[k], loc) <= dist(order[j], loc);
  }

  // ---------------------------------------------------------------------
  // Highest speed between two nodes
  // ---------------------------------------------------------------------

  /** The highest speed on an edge to `child`, and 0 when there is none with a positive speed. */
  function HighestSpeed(es: seq<(int, int)>, child: int): (s: int)
    ensures s >= 0
    ensures forall i | 0 <= i < |es| && es[i].0 == child :: es[i].1 <= s
    ensures s == 0 || exists i | 0 <= i < |es| :: es[i].0 == child && es[i].1 == s
  {
    if es == [] then 0
    else
      var init := es[..|es| - 1];
      var s := HighestSpeed(init, child);
      assert forall i | 0 <= i < |init| :: init[i] == es[i];
      var e := es[|es| - 1];
      if e.0 == child && e.1 > s then e.1 else s
  }

  /** `get_highest_speed(Edges, node, child)`: a `KeyError` when `node` has no edge list. */
  method GetHighestSpeed(edges: map<int, seq<(int, int)>>, node: int, child: int) returns (r: Result<int, Failure>)
    ensures r.Err? <==> node !in edges
    ensures r.Err? ==> r.error == KeyError
    ensures r.Ok? ==> r.value == HighestSpeed(edges[node], child)
  {
    if node !in edges {
      return Err(KeyError);
    }
    var es := edges[node];
    var fastest := 0;
    for t := 0 to |es|
      invariant fastest == HighestSpeed(es[..t], child)
    {
      assert es[..t + 1][..t] == es[..t];
      if es[t].0 == child && es[t].1 > fastest {
        fastest := es[t].1;
      }
    }
    assert es[..|es|] == es;
    return Ok(fastest);
  }

  // ---------------------------------------------------------------------
  // The agenda
  // ---------------------------------------------------------------------

  /**
   * A partial route on the agenda with its cost so far and the key the
   * agenda is sorted by (cost plus distance to go for the shortest route,
   * the cost itself for the fastest one).
   */
  datatype Entry = Entry(path: seq<Loc>, cost: real, priority: real)

  predicate Sorted(agenda: seq<Entry>) {
    forall i, j | 0 <= i < j < |agenda| :: agenda[i].priority <= agenda[j].priority
  }

  /** Dropping the first entry of a sorted agenda leaves it sorted. */
  lemma SortedRest(agenda: seq<Entry>)
    requires Sorted(agenda) && agenda != []
    ensures Sorted(agenda[1..])
  {
    forall i, j | 0 <= i < j < |agenda| - 1
      ensures agenda[1..][i].priority <= agenda[1..][j].priority
    {
      assert agenda[1..][i] == agenda[i + 1] && agenda[1..][j] == agenda[j + 1];
    }
  }

  /** Places `e` after every entry whose key is not larger, as a stable sort does. */
  function Insert(sorted: seq<Entry>, e: Entry): (r: seq<Entry>)
    requires Sorted(sorted)
    ensures Sorted(r)
    ensures multiset(r) == multiset(sorted) + multiset{e}
    ensures forall x | x in r :: x in sorted || x == e
  {
    if sorted == [] || sorted[|sorted| - 1].priority <= e.priority then sorted + [e]
    else
      var init := sorted[..|sorted| - 1];
      var top := sorted[|sorted| - 1];
      SortedInit(sorted);
      var r := Insert(init, e);
      InsertBelowTop(sorted, e, r);
      r + [top]
  }

  lemma SortedInit(sorted: seq<Entry>)
    requires Sorted(sorted) && sorted != []
    ensures Sorted(sorted[..|sorted| - 1])
  {
  }

  /** Putting the last entry back after the insertion into the rest keeps the order and the contents. */
  lemma InsertBelowTop(sorted: seq<Entry>, e: Entry, r: seq<Entry>)
    requires Sorted(sorted) && sorted != [] && e.priority < sorted[|sorted| - 1].priority
    requires Sorted(r)
    requires multiset(r) == multiset(sorted[..|sorted| - 1]) + multiset{e}
    requires forall x | x in r :: x in sorted[..|sorted| - 1] || x == e
    ensures Sorted(r + [sorted[|sorted| - 1]])
    ensures multiset(r + [sorted[|sorted| - 1]]) == multiset(sorted) + multiset{e}
    ensures forall x | x in r + [sorted[|sorted| - 1]] :: x in sorted || x == e
  {
    var init, top := sorted[..|sorted| - 1], sorted[|sorted| - 1];
    assert sorted == init + [top];
    forall x | x in r
      ensures x.priority <= top.priority
    {
      if x != e {
        var k :| 0 <= k < |init| && init[k] == x;
        assert sorted[k] == x;
      }
    }
    var q := r + [top];
    forall i, j | 0 <= i < j < |q|
      ensures q[i].priority <= q[j].priority
    {
      if j < |r| {
        assert q[i] == r[i] && q[j] == r[j];
      } else {
        assert q[i] == r[i] && r[i] in r;
      }
    }
  }

  /** `agenda.sort(key=...)`: the entries in order of their key, none lost and none added. */
  function SortByPriority(agenda: seq<Entry>): (r: seq<Entry>)
    ensures Sorted(r)
    ensures multiset(r) == multiset(agenda)
  {
    if agenda == [] then []
    else
      var init := agenda[..|agenda| - 1];
      assert agenda == init + [agenda[|agenda| - 1]];
      Insert(SortByPriority(init), agenda[|agenda| - 1])
  }

  // ---------------------------------------------------------------------
  // Routes
  // ---------------------------------------------------------------------

  function Last(p: seq<Loc>): Loc
    requires p != []
  {
    p[|p| - 1]
  }

  /** The graph has a road from the node at coordinates `a` to a node at coordinates `b`. */
  ghost predicate Step(g: Graph, a: Loc, b: Loc) {
    a in g.dic.ids && g.dic.ids[a] in g.edges &&
    exists i | 0 <= i < |g.edges[g.dic.ids[a]]| ::
      g.edges[g.dic.ids[a]][i].0 in g.nodes && g.nodes[g.edges[g.dic.ids[a]][i].0] == Some(b)
  }

  /** `p` is a route along roads of `g` that starts at `src`. */
  ghost predicate Walk(g: Graph, p: seq<Loc>, src: Loc) {
    p != [] && p[0] == src &&
    (forall i | 0 <= i < |p| :: p[i] in Locations(g)) &&
    (forall i | 0 <= i < |p| - 1 :: Step(g, p[i], p[i + 1]))
  }

  /** Some road has a speed limit that is not positive: only then can a time cost divide by zero. */
  ghost predicate StoppedRoad(g: Graph) {
    exists n, i | n in g.edges && 0 <= i < |g.edges[n]| :: g.edges[n][i].1 <= 0
  }

  /** The node `nearest` picks for `loc`, by its coordinates. */
  ghost function Snap(g: Graph, loc: Loc, dist: (Loc, Loc) -> real): Loc
    requires WellFormed(g) && g.dic.order != []
  {
    var key := g.dic.order[FirstNearest(g.dic.order, loc, dist)];
    assert key in Elems(g.dic.order);
    assert key in g.dic.ids;
    var n := g.dic.ids[key];
    assert n in g.nodes;
    g.nodes[n].value
  }

  lemma WalkExtend(g: Graph, p: seq<Loc>, src: Loc, b: Loc)
    requires Walk(g, p, src) && Step(g, Last(p), b) && b in Locations(g)
    ensures Walk(g, p + [b], src)
  {
    var q := p + [b];
    forall i | 0 <= i < |q| - 1
      ensures Step(g, q[i], q[i + 1])
    {
      if i < |p| - 1 {
        assert q[i] == p[i] && q[i + 1] == p[i + 1];
      }
    }
  }

  /** The search modes: by distance, with the distance to go as a heuristic, or by travel time. */
  datatype Mode = Distance | Time

  /** A location of the graph belongs to a node that `Dic` knows and that has an edge list. */
  lemma KnownLoc(g: Graph, loc: Loc)
    requires WellFormed(g) && loc in Locations(g)
    ensures loc in g.dic.ids && g.dic.ids[loc] in g.nodes && g.dic.ids[loc] in g.edges
    ensures forall i | 0 <= i < |g.edges[g.dic.ids[loc]]| ::
              g.edges[g.dic.ids[loc]][i].0 in g.nodes && g.nodes[g.edges[g.dic.ids[loc]][i].0].Some?
  {
    var n :| n in g.nodes && g.nodes[n].Some? && g.nodes[n].value == loc;
    var id := g.dic.ids[loc];
    assert id in g.nodes;
    assert id in g.edges.Keys;
    var es := g.edges[id];
    forall i | 0 <= i < |es| ensures es[i].0 in g.nodes && g.nodes[es[i].0].Some? {
      var c := g.edges[id][i].0;
      assert c in g.nodes;
      assert g.nodes[c].Some? && g.nodes[c].value in g.dic.ids;
    }
  }

  /** `Edges[id]` for the terminal node `id` of a route. */
  function RoadsFrom(g: Graph, p: seq<Loc>): (es: seq<(int, int)>)
    requires WellFormed(g) && p != [] && Last(p) in Locations(g)
    ensures forall i | 0 <= i < |es| :: es[i].0 in g.nodes && g.nodes[es[i].0].Some?
  {
    KnownLoc(g, Last(p));
    g.edges[g.dic.ids[Last(p)]]
  }

  /**
   * The cost of the road from node `id` to node `child`: its length, or, by
   * time, its length over the highest speed limit between the two.
   */
  function StepCost(g: Graph, id: int, child: int, mode: Mode, dist: (Loc, Loc) -> real): real
    requires WellFormed(g) && id in g.nodes && child in g.nodes
    requires mode == Time ==> HighestSpeed(g.edges[id], child) > 0
  {
    var dis := dist(g.nodes[id].value, g.nodes[child].value);
    if mode == Distance then dis else dis / (HighestSpeed(g.edges[id], child) as real)
  }

  /**
   * The entry the loop body appends for a road to `child`: the route
   * extended by the child's coordinates, at the parent's cost plus the
   * road's. By time, a highest speed of 0 divides by zero.
   */
  function ChildEntry(g: Graph, entry: Entry, child: int, loc2: Loc, mode: Mode, dist: (Loc, Loc) -> real)
    : Result<Entry, Failure>
    requires WellFormed(g) && entry.path != [] && Last(entry.path) in Locations(g) && child in g.nodes
  {
    KnownLoc(g, Last(entry.path));
    var id := g.dic.ids[Last(entry.path)];
    var nloc := g.nodes[child].value;
    var dis := dist(g.nodes[id].value, nloc);
    if mode == Distance then
      Ok(Entry(entry.path + [nloc], dis + entry.cost, dist(nloc, loc2) + dis + entry.cost))
    else
      var top := HighestSpeed(g.edges[id], child);
      if top == 0 then Err(ZeroDivisionError)
      else
        var cost := dis / (top as real) + entry.cost;
        Ok(Entry(entry.path + [nloc], cost, cost))
  }

  /**
   * What the loop over the first `k` roads of the terminal node builds: one
   * entry per road whose end is not in `empty`, in the order of the roads,
   * or the first failure.
   */
  function Children(g: Graph, entry: Entry, k: nat, empty: set<Loc>, loc2: Loc, mode: Mode,
                    dist: (Loc, Loc) -> real): Result<seq<Entry>, Failure>
    requires WellFormed(g) && entry.path != [] && Last(entry.path) in Locations(g)
    requires k <= |RoadsFrom(g, entry.path)|
  {
    if k == 0 then Ok([])
    else
      var r := Children(g, entry, k - 1, empty, loc2, mode, dist);
      KnownLoc(g, Last(entry.path));
      var child := RoadsFrom(g, entry.path)[k - 1].0;
      if r.Err? || g.nodes[child].value in empty then r
      else
        match ChildEntry(g, entry, child, loc2, mode, dist)
        case Err(f) => Err(f)
        case Ok(e) => Ok(r.value + [e])
  }

  /** `e` extends the route of `entry` along road `i` of its terminal node, at that road's cost. */
  ghost predicate AlongRoad(g: Graph, entry: Entry, i: int, e: Entry, mode: Mode, dist: (Loc, Loc) -> real)
    requires WellFormed(g) && entry.path != [] && Last(entry.path) in Locations(g)
  {
    KnownLoc(g, Last(entry.path));
    var id := g.dic.ids[Last(entry.path)];
    0 <= i < |g.edges[id]| &&
    var child := g.edges[id][i].0;
    e.path == entry.path + [g.nodes[child].value] &&
    (mode == Time ==> HighestSpeed(g.edges[id], child) > 0) &&
    e.cost == entry.cost + StepCost(g, id, child, mode, dist)
  }

  /** What every entry the expansion of `entry` adds satisfies. */
  ghost predicate Child(g: Graph, entry: Entry, e: Entry, empty: set<Loc>, loc2: Loc,
                        mode: Mode, dist: (Loc, Loc) -> real, src: Loc)
  {
    Walk(g, e.path, src) && |e.path| == |entry.path| + 1 &&
    e.path[..|entry.path|] == entry.path && Last(e.path) !in empty &&
    (mode == Distance ==> e.priority == e.cost + dist(Last(e.path), loc2)) &&
    (mode == Time ==> e.priority == e.cost) &&
    WellFormed(g) && entry.path != [] && Last(entry.path) in Locations(g) &&
    exists i :: AlongRoad(g, entry, i, e, mode, dist)
  }

  /**
   * Every entry of the expansion extends the route by one road to a node
   * not yet expanded, at the parent's cost plus that road's cost; a
   * failure is a division by a zero speed, by time, on a road whose speed
   * limit is not positive.
   */
  lemma {:induction false} ChildrenSound(g: Graph, entry: Entry, k: nat, empty: set<Loc>, loc2: Loc, mode: Mode,
                                         dist: (Loc, Loc) -> real, src: Loc)
    requires WellFormed(g) && Walk(g, entry.path, src) && Last(entry.path) in Locations(g)
    requires k <= |RoadsFrom(g, entry.path)|
    ensures Children(g, entry, k, empty, loc2, mode, dist).Ok? ==>
              forall e | e in Children(g, entry, k, empty, loc2, mode, dist).value ::
                Child(g, entry, e, empty, loc2, mode, dist, src)
    ensures Children(g, entry, k, empty, loc2, mode, dist).Err? ==>
              mode == Time && Children(g, entry, k, empty, loc2, mode, dist).error == ZeroDivisionError &&
              StoppedRoad(g)
  {
    if k > 0 {
      ChildrenSound(g, entry, k - 1, empty, loc2, mode, dist, src);
      KnownLoc(g, Last(entry.path));
      var r := Children(g, entry, k - 1, empty, loc2, mode, dist);
      var id := g.dic.ids[Last(entry.path)];
      var es := g.edges[id];
      var child := es[k - 1].0;
      var nloc := g.nodes[child].value;
      if r.Ok? && nloc !in empty {
        var c := ChildEntry(g, entry, child, loc2, mode, dist);
        if c.Ok? {
          ChildEntrySound(g, entry, k - 1, empty, loc2, mode, dist, src);
        } else {
          assert es[k - 1].1 <= HighestSpeed(es, child);
        }
      }
    }
  }

  /** The entry for road `i` to a node not in `empty` is a child of `entry`. */
  lemma ChildEntrySound(g: Graph, entry: Entry, i: nat, empty: set<Loc>, loc2: Loc, mode: Mode,
                        dist: (Loc, Loc) -> real, src: Loc)
    requires WellFormed(g) && Walk(g, entry.path, src) && Last(entry.path) in Locations(g)
    requires i < |RoadsFrom(g, entry.path)|
    requires g.nodes[RoadsFrom(g, entry.path)[i].0].value !in empty
    requires ChildEntry(g, entry, RoadsFrom(g, entry.path)[i].0, loc2, mode, dist).Ok?
    ensures Child(g, entry, ChildEntry(g, entry, RoadsFrom(g, entry.path)[i].0, loc2, mode, dist).value,
                  empty, loc2, mode, dist, src)
  {
    KnownLoc(g, Last(entry.path));
    var last := Last(entry.path);
    var id := g.dic.ids[last];
    var child := g.edges[id][i].0;
    var nloc := g.nodes[child].value;
    var e := ChildEntry(g, entry, child, loc2, mode, dist).value;
    assert nloc in Locations(g);
    assert Step(g, last, nloc);
    WalkExtend(g, entry.path, src, nloc);
    assert e.path[..|entry.path|] == entry.path;
    assert AlongRoad(g, entry, i, e, mode, dist);
  }

  /** Once the loop has failed, later roads do not change the outcome. */
  lemma {:induction false} ChildrenErrStays(g: Graph, entry: Entry, k: nat, n: nat, empty: set<Loc>, loc2: Loc,
                                            mode: Mode, dist: (Loc, Loc) -> real)
    requires WellFormed(g) && entry.path != [] && Last(entry.path) in Locations(g)
    requires k <= n <= |RoadsFrom(g, entry.path)|
    requires Children(g, entry, k, empty, loc2, mode, dist).Err?
    ensures Children(g, entry, n, empty, loc2, mode, dist) == Children(g, entry, k, empty, loc2, mode, dist)
    decreases n
  {
    if n > k {
      ChildrenErrStays(g, entry, k, n - 1, empty, loc2, mode, dist);
    }
  }

  /**
   * The loop over `Edges[id]` for the terminal node of `entry`: one new
   * entry per road to a node not yet expanded, in the order of the roads.
   */
  method Expand(g: Graph, entry: Entry, empty: set<Loc>, loc2: Loc, mode: Mode,
                dist: (Loc, Loc) -> real, ghost src: Loc)
    returns (r: Result<seq<Entry>, Failure>)
    requires WellFormed(g) && Walk(g, entry.path, src) && Last(entry.path) in Locations(g)
    ensures r == Children(g, entry, |RoadsFrom(g, entry.path)|, empty, loc2, mode, dist)
    ensures r.Ok? ==> forall e | e in r.value :: Child(g, entry, e, empty, loc2, mode, dist, src)
    ensures r.Err? ==> mode == Time && r.error == ZeroDivisionError && StoppedRoad(g)
  {
    var last := Last(entry.path);
    KnownLoc(g, last);
    var es := g.edges[g.dic.ids[last]];
    ghost var n := |RoadsFrom(g, entry.path)|;
    ChildrenSound(g, entry, n, empty, loc2, mode, dist, src);
    var out: seq<Entry> := [];
    for t := 0 to |es|
      invariant Children(g, entry, t, empty, loc2, mode, dist) == Ok(out)
    {
      var step := ExpandRoad(g, entry, t, empty, loc2, mode, dist, out);
      if step.Err? {
        ChildrenErrStays(g, entry, t + 1, n, empty, loc2, mode, dist);
        return step;
      }
      out := step.value;
    }
    return Ok(out);
  }

  /** One pass of the loop over `Edges[id]`: road `t` adds its entry unless its end was expanded. */
  method ExpandRoad(g: Graph, entry: Entry, t: nat, empty: set<Loc>, loc2: Loc, mode: Mode,
                    dist: (Loc, Loc) -> real, out: seq<Entry>)
    returns (r: Result<seq<Entry>, Failure>)
    requires WellFormed(g) && entry.path != [] && Last(entry.path) in Locations(g)
    requires t < |RoadsFrom(g, entry.path)|
    requires Children(g, entry, t, empty, loc2, mode, dist) == Ok(out)
    ensures r == Children(g, entry, t + 1, empty, loc2, mode, dist)
  {
    KnownLoc(g, Last(entry.path));
    var id := g.dic.ids[Last(entry.path)];
    var child := g.edges[id][t].0;
    var nloc := g.nodes[child].value;
    if nloc in empty {
      return Ok(out);
    }
    // the source copies the route element by element before appending
    var p := entry.path + [nloc];
    var dis := dist(g.nodes[id].value, nloc);
    if mode == Distance {
      var h := dist(nloc, loc2);
      return Ok(out + [Entry(p, dis + entry.cost, h + dis + entry.cost)]);
    }
    var fastest := GetHighestSpeed(g.edges, id, child);
    var top := fastest.value;
    if top == 0 {
      return Err(ZeroDivisionError);
    }
    var cost := dis / (top as real) + entry.cost;
    return Ok(out + [Entry(p, cost, cost)]);
  }

  ghost predicate AgendaOk(g: Graph, agenda: seq<Entry>, src: Loc) {
    forall e | e in agenda :: Walk(g, e.path, src)
  }

  /** The agenda after one expansion and the sort still holds only routes from `src`. */
  lemma AgendaNext(g: Graph, agenda: seq<Entry>, children: seq<Entry>, sorted: seq<Entry>, src: Loc)
    requires AgendaOk(g, agenda, src)
    requires forall e | e in children :: Walk(g, e.path, src)
    requires multiset(sorted) == multiset(agenda + children)
    ensures AgendaOk(g, sorted, src)
  {
    forall e | e in sorted
      ensures Walk(g, e.path, src)
    {
      assert e in multiset(agenda + children);
      assert e in agenda + children;
    }
  }

  /** Expanding one more node, not expanded before, keeps the expansion list free of repeats. */
  lemma ExpandOnce(g: Graph, expanded: seq<Loc>, empty: set<Loc>, last: Loc)
    requires Distinct(expanded) && Elems(expanded) == empty && empty <= Locations(g)
    requires last !in empty && last in Locations(g)
    ensures Distinct(expanded + [last]) && Elems(expanded + [last]) == empty + {last}
    ensures empty + {last} <= Locations(g)
    ensures Locations(g) - (empty + {last}) < Locations(g) - empty
  {
    var x := expanded + [last];
    forall i, j | 0 <= i < j < |x|
      ensures x[i] != x[j]
    {
      if j == |expanded| {
        assert x[i] in Elems(expanded);
      } else {
        assert x[i] == expanded[i] && x[j] == expanded[j];
      }
    }
    assert Elems(x) == Elems(expanded) + {last};
  }

  // ---------------------------------------------------------------------
  // The fastest route
  // ---------------------------------------------------------------------

  /** `dist` never gives a negative distance, as the great-circle distance does not. */
  ghost predicate NonNegative(dist: (Loc, Loc) -> real) {
    forall a, b :: dist(a, b) >= 0.0
  }

  /**
   * Road `i` of the node at `a` ends at a node at `b`, and the highest speed
   * limit between the two is positive, so that the road takes a finite time.
   */
  ghost predicate TimedRoad(g: Graph, a: Loc, i: int, b: Loc) {
    a in g.dic.ids && g.dic.ids[a] in g.nodes && g.nodes[g.dic.ids[a]].Some? && g.dic.ids[a] in g.edges &&
    0 <= i < |g.edges[g.dic.ids[a]]| &&
    var child := g.edges[g.dic.ids[a]][i].0;
    child in g.nodes && g.nodes[child] == Some(b) && HighestSpeed(g.edges[g.dic.ids[a]], child) > 0
  }

  /** The time road `i` of the node at `a` takes: its length over the highest speed limit to its end. */
  ghost function RoadTime(g: Graph, a: Loc, i: int, b: Loc, dist: (Loc, Loc) -> real): real
    requires TimedRoad(g, a, i, b)
  {
    var id := g.dic.ids[a];
    dist(g.nodes[id].value, b) / (HighestSpeed(g.edges[id], g.edges[id][i].0) as real)
  }

  /** `p` starts at `src` and leaves each location `p[j]` by its road `roads[j]`. */
  ghost predicate TimedWalk(g: Graph, p: seq<Loc>, roads: seq<int>, src: Loc) {
    p != [] && p[0] == src && |roads| == |p| - 1 &&
    forall j {:trigger roads[j]} | 0 <= j < |roads| :: TimedRoad(g, p[j], roads[j], p[j + 1])
  }

  /** The travel time of such a walk: the sum of the times of its roads. */
  ghost function WalkTime(g: Graph, p: seq<Loc>, roads: seq<int>, dist: (Loc, Loc) -> real): real
    requires |roads| == |p| - 1
    requires forall j {:trigger roads[j]} | 0 <= j < |roads| :: TimedRoad(g, p[j], roads[j], p[j + 1])
    decreases |roads|
  {
    if roads == [] then 0.0
    else
      var n := |roads|;
      WalkTime(g, p[..n], roads[..n - 1], dist) + RoadTime(g, p[n - 1], roads[n - 1], p[n], dist)
  }

  /** `p` is a walk from `src` to `dst` that takes no longer than any other walk between them. */
  ghost predicate Fastest(g: Graph, p: seq<Loc>, src: Loc, dst: Loc, dist: (Loc, Loc) -> real) {
    p != [] && Last(p) == dst &&
    exists roads {:trigger TimedWalk(g, p, roads, src)} :: TimedWalk(g, p, roads, src) &&
      forall q, qroads {:trigger TimedWalk(g, q, qroads, src)} | TimedWalk(g, q, qroads, src) && Last(q) == dst ::
        WalkTime(g, p, roads, dist) <= WalkTime(g, q, qroads, dist)
  }

  /** Some entry of the agenda has a route ending at `b` that costs at most `t`. */
  ghost predicate Offered(agenda: seq<Entry>, b: Loc, t: real) {
    exists e | e in agenda :: e.path != [] && Last(e.path) == b && e.cost <= t
  }

  /** The route of `e` is a walk from `src` whose travel time is its cost, which is also its key. */
  ghost predicate Timed(g: Graph, e: Entry, src: Loc, dist: (Loc, Loc) -> real) {
    e.priority == e.cost &&
    exists roads {:trigger TimedWalk(g, e.path, roads, src)} ::
      TimedWalk(g, e.path, roads, src) && WalkTime(g, e.path, roads, dist) == e.cost
  }

  /**
   * What the search by time keeps: `best` holds, for every expanded
   * location, a time that no walk to it beats; every route on the agenda is
   * timed; every road from an expanded location to one not expanded is
   * offered at no more than the start's time plus the road's; and until
   * `src` is expanded, its one-location route is offered at no cost.
   */
  ghost predicate TimeSearchOk(g: Graph, agenda: seq<Entry>, empty: set<Loc>, best: map<Loc, real>,
                               src: Loc, dist: (Loc, Loc) -> real) {
    best.Keys == empty &&
    (forall q, qroads {:trigger TimedWalk(g, q, qroads, src)} | TimedWalk(g, q, qroads, src) && Last(q) in empty ::
       best[Last(q)] <= WalkTime(g, q, qroads, dist)) &&
    (forall e {:trigger Timed(g, e, src, dist)} | e in agenda :: Timed(g, e, src, dist)) &&
    (src !in empty ==> Offered(agenda, src, 0.0)) &&
    (forall a, i, b {:trigger TimedRoad(g, a, i, b)} | a in empty && TimedRoad(g, a, i, b) && b !in empty ::
       Offered(agenda, b, best[a] + RoadTime(g, a, i, b, dist)))
  }

  lemma DivNonNegative(x: real, y: real)
    requires x >= 0.0 && y > 0.0
    ensures x / y >= 0.0
  {
  }

  lemma RoadTimeNonNegative(g: Graph, a: Loc, i: int, b: Loc, dist: (Loc, Loc) -> real)
    requires NonNegative(dist) && TimedRoad(g, a, i, b)
    ensures RoadTime(g, a, i, b, dist) >= 0.0
  {
    var id := g.dic.ids[a];
    DivNonNegative(dist(g.nodes[id].value, b), HighestSpeed(g.edges[id], g.edges[id][i].0) as real);
  }

  /** A walk without its last road is a walk, and takes that road's time less. */
  lemma WalkTimeFront(g: Graph, q: seq<Loc>, qroads: seq<int>, src: Loc, dist: (Loc, Loc) -> real)
    requires TimedWalk(g, q, qroads, src) && qroads != []
    ensures TimedWalk(g, q[..|qroads|], qroads[..|qroads| - 1], src)
    ensures TimedRoad(g, q[|qroads| - 1], qroads[|qroads| - 1], q[|qroads|])
    ensures WalkTime(g, q, qroads, dist) ==
            WalkTime(g, q[..|qroads|], qroads[..|qroads| - 1], dist) +
            RoadTime(g, q[|qroads| - 1], qroads[|qroads| - 1], q[|qroads|], dist)
  {
  }

  /** A walk extended by one more road is a walk, and takes that road's time more. */
  lemma WalkTimeExtend(g: Graph, p: seq<Loc>, roads: seq<int>, src: Loc, i: int, b: Loc, dist: (Loc, Loc) -> real)
    requires TimedWalk(g, p, roads, src) && TimedRoad(g, Last(p), i, b)
    ensures TimedWalk(g, p + [b], roads + [i], src)
    ensures WalkTime(g, p + [b], roads + [i], dist) == WalkTime(g, p, roads, dist) + RoadTime(g, Last(p), i, b, dist)
  {
    var q, qroads := p + [b], roads + [i];
    assert q[..|qroads|] == p && qroads[..|qroads| - 1] == roads;
    forall j | 0 <= j < |qroads| ensures TimedRoad(g, q[j], qroads[j], q[j + 1]) {
      if j < |roads| {
        assert q[j] == p[j] && q[j + 1] == p[j + 1] && qroads[j] == roads[j];
      }
    }
  }

  /**
   * Every walk to a location not yet expanded costs at least as much as
   * some entry of the agenda: follow it back to where it leaves the
   * expanded locations.
   */
  lemma {:induction false} Reached(g: Graph, agenda: seq<Entry>, empty: set<Loc>, best: map<Loc, real>,
                                   src: Loc, dist: (Loc, Loc) -> real, q: seq<Loc>, qroads: seq<int>)
    requires NonNegative(dist) && TimeSearchOk(g, agenda, empty, best, src, dist)
    requires TimedWalk(g, q, qroads, src) && Last(q) !in empty
    ensures exists e | e in agenda :: e.cost <= WalkTime(g, q, qroads, dist)
    decreases |q|
  {
    if qroads == [] {
      assert Offered(agenda, src, 0.0);
      var e :| e in agenda && e.path != [] && Last(e.path) == src && e.cost <= 0.0;
      assert e.cost <= WalkTime(g, q, qroads, dist);
    } else {
      var n := |qroads|;
      var p, proads := q[..n], qroads[..n - 1];
      var a, i, b := q[n - 1], qroads[n - 1], q[n];
      WalkTimeFront(g, q, qroads, src, dist);
      RoadTimeNonNegative(g, a, i, b, dist);
      if a in empty {
        assert Last(p) == a;
        assert best[a] <= WalkTime(g, p, proads, dist);
        assert Offered(agenda, b, best[a] + RoadTime(g, a, i, b, dist));
        var e :| e in agenda && e.path != [] && Last(e.path) == b && e.cost <= best[a] + RoadTime(g, a, i, b, dist);
        assert e.cost <= WalkTime(g, q, qroads, dist);
      } else {
        Reached(g, agenda, empty, best, src, dist, p, proads);
        var e :| e in agenda && e.cost <= WalkTime(g, p, proads, dist);
        assert e.cost <= WalkTime(g, q, qroads, dist);
      }
    }
  }

  /**
   * The first entry of the agenda, sorted by cost, takes no longer than any
   * walk to a location not yet expanded.
   */
  lemma FirstIsFastest(g: Graph, agenda: seq<Entry>, empty: set<Loc>, best: map<Loc, real>,
                       src: Loc, dist: (Loc, Loc) -> real, q: seq<Loc>, qroads: seq<int>)
    requires NonNegative(dist) && TimeSearchOk(g, agenda, empty, best, src, dist) && Sorted(agenda) && agenda != []
    requires TimedWalk(g, q, qroads, src) && Last(q) !in empty
    ensures agenda[0].cost <= WalkTime(g, q, qroads, dist)
  {
    Reached(g, agenda, empty, best, src, dist, q, qroads);
    var e :| e in agenda && e.cost <= WalkTime(g, q, qroads, dist);
    var k :| 0 <= k < |agenda| && agenda[k] == e;
    assert Timed(g, agenda[0], src, dist) && Timed(g, e, src, dist);
    if k > 0 {
      assert agenda[0].priority <= agenda[k].priority;
    }
  }

  /** The route popped at the goal, not expanded before, is a fastest walk to it. */
  lemma FoundFastest(g: Graph, agenda: seq<Entry>, empty: set<Loc>, best: map<Loc, real>,
                     src: Loc, dist: (Loc, Loc) -> real, dst: Loc)
    requires NonNegative(dist) && TimeSearchOk(g, agenda, empty, best, src, dist) && Sorted(agenda) && agenda != []
    requires agenda[0].path != [] && Last(agenda[0].path) == dst && dst !in empty
    ensures Fastest(g, agenda[0].path, src, dst, dist)
  {
    var e := agenda[0];
    assert Timed(g, e, src, dist);
    var roads :| TimedWalk(g, e.path, roads, src) && WalkTime(g, e.path, roads, dist) == e.cost;
    forall q, qroads | TimedWalk(g, q, qroads, src) && Last(q) == dst
      ensures WalkTime(g, e.path, roads, dist) <= WalkTime(g, q, qroads, dist)
    {
      FirstIsFastest(g, agenda, empty, best, src, dist, q, qroads);
    }
  }

  /** An offer whose route does not end where the first entry's does survives popping that entry. */
  lemma OfferedRest(agenda: seq<Entry>, b: Loc, t: real)
    requires Offered(agenda, b, t) && agenda != [] && agenda[0].path != [] && Last(agenda[0].path) != b
    ensures Offered(agenda[1..], b, t)
  {
    var e :| e in agenda && e.path != [] && Last(e.path) == b && e.cost <= t;
    var k :| 0 <= k < |agenda| && agenda[k] == e;
    assert agenda[1..][k - 1] == e;
  }

  /** An offer in part of the entries to sort is an offer after the sort. */
  lemma OfferedSorted(xs: seq<Entry>, ys: seq<Entry>, sorted: seq<Entry>, b: Loc, t: real)
    requires Offered(xs, b, t) || Offered(ys, b, t)
    requires multiset(sorted) == multiset(xs + ys)
    ensures Offered(sorted, b, t)
  {
    var e :| (e in xs || e in ys) && e.path != [] && Last(e.path) == b && e.cost <= t;
    assert e in xs + ys;
    assert e in multiset(xs + ys);
    assert e in sorted;
  }

  /** Popping an entry whose location was expanded keeps the invariant. */
  lemma SkipExpanded(g: Graph, agenda: seq<Entry>, empty: set<Loc>, best: map<Loc, real>,
                     src: Loc, dist: (Loc, Loc) -> real)
    requires TimeSearchOk(g, agenda, empty, best, src, dist) && agenda != []
    requires agenda[0].path != [] && Last(agenda[0].path) in empty
    ensures TimeSearchOk(g, agenda[1..], empty, best, src, dist)
  {
    forall b, t | b !in empty && Offered(agenda, b, t)
      ensures Offered(agenda[1..], b, t)
    {
      OfferedRest(agenda, b, t);
    }
  }

  /** Road `i` to a location not expanded is among the children when the loop did not fail. */
  lemma {:induction false} ChildrenHas(g: Graph, entry: Entry, k: nat, empty: set<Loc>, loc2: Loc, mode: Mode,
                                       dist: (Loc, Loc) -> real, i: nat)
    requires WellFormed(g) && entry.path != [] && Last(entry.path) in Locations(g)
    requires i < k <= |RoadsFrom(g, entry.path)|
    requires g.nodes[RoadsFrom(g, entry.path)[i].0].value !in empty
    requires Children(g, entry, k, empty, loc2, mode, dist).Ok?
    ensures ChildEntry(g, entry, RoadsFrom(g, entry.path)[i].0, loc2, mode, dist).Ok?
    ensures ChildEntry(g, entry, RoadsFrom(g, entry.path)[i].0, loc2, mode, dist).value
            in Children(g, entry, k, empty, loc2, mode, dist).value
    decreases k
  {
    var r := Children(g, entry, k - 1, empty, loc2, mode, dist);
    if i < k - 1 {
      ChildrenHas(g, entry, k - 1, empty, loc2, mode, dist, i);
    }
  }

  /** The entry for a timed road out of the expanded route's end is timed too. */
  lemma ChildTimed(g: Graph, entry: Entry, c: Entry, empty: set<Loc>, loc2: Loc, dist: (Loc, Loc) -> real, src: Loc)
    requires Timed(g, entry, src, dist) && Child(g, entry, c, empty, loc2, Time, dist, src)
    ensures Timed(g, c, src, dist)
  {
    var roads :| TimedWalk(g, entry.path, roads, src) && WalkTime(g, entry.path, roads, dist) == entry.cost;
    var i :| AlongRoad(g, entry, i, c, Time, dist);
    KnownLoc(g, Last(entry.path));
    var id := g.dic.ids[Last(entry.path)];
    var b := g.nodes[g.edges[id][i].0].value;
    assert TimedRoad(g, Last(entry.path), i, b);
    WalkTimeExtend(g, entry.path, roads, src, i, b, dist);
  }

  /** Expanding a route offers every timed road out of its end to a location not expanded. */
  lemma OfferedChild(g: Graph, entry: Entry, empty: set<Loc>, loc2: Loc, dist: (Loc, Loc) -> real,
                     children: seq<Entry>, i: int, b: Loc)
    requires WellFormed(g) && entry.path != [] && Last(entry.path) in Locations(g)
    requires Children(g, entry, |RoadsFrom(g, entry.path)|, empty, loc2, Time, dist) == Ok(children)
    requires TimedRoad(g, Last(entry.path), i, b) && b !in empty
    ensures Offered(children, b, entry.cost + RoadTime(g, Last(entry.path), i, b, dist))
  {
    KnownLoc(g, Last(entry.path));
    var child := RoadsFrom(g, entry.path)[i].0;
    ChildrenHas(g, entry, |RoadsFrom(g, entry.path)|, empty, loc2, Time, dist, i);
    var c := ChildEntry(g, entry, child, loc2, Time, dist).value;
    assert c in children && c.path != [] && Last(c.path) == b;
  }

  /** Every walk to the location just expanded takes at least its route's cost. */
  lemma SettleBest(g: Graph, agenda: seq<Entry>, empty: set<Loc>, best: map<Loc, real>,
                   src: Loc, dist: (Loc, Loc) -> real)
    requires NonNegative(dist) && TimeSearchOk(g, agenda, empty, best, src, dist) && Sorted(agenda) && agenda != []
    requires agenda[0].path != [] && Last(agenda[0].path) !in empty
    ensures var v := Last(agenda[0].path);
            forall q, qroads | TimedWalk(g, q, qroads, src) && Last(q) in empty + {v} ::
              best[v := agenda[0].cost][Last(q)] <= WalkTime(g, q, qroads, dist)
  {
    var v := Last(agenda[0].path);
    forall q, qroads | TimedWalk(g, q, qroads, src) && Last(q) in empty + {v}
      ensures best[v := agenda[0].cost][Last(q)] <= WalkTime(g, q, qroads, dist)
    {
      if Last(q) == v {
        FirstIsFastest(g, agenda, empty, best, src, dist, q, qroads);
      }
    }
  }

  /** After an expansion every entry is timed: the old ones were, and each child extends a timed route by a road. */
  lemma TimedAfter(g: Graph, entry: Entry, rest: seq<Entry>, children: seq<Entry>, sorted: seq<Entry>,
                   empty: set<Loc>, loc2: Loc, dist: (Loc, Loc) -> real, src: Loc)
    requires Timed(g, entry, src, dist)
    requires forall x {:trigger Timed(g, x, src, dist)} | x in rest :: Timed(g, x, src, dist)
    requires forall c | c in children :: Child(g, entry, c, empty, loc2, Time, dist, src)
    requires multiset(sorted) == multiset(rest + children)
    ensures forall x {:trigger Timed(g, x, src, dist)} | x in sorted :: Timed(g, x, src, dist)
  {
    forall x | x in sorted
      ensures Timed(g, x, src, dist)
    {
      assert x in multiset(rest + children);
      if x in children {
        ChildTimed(g, entry, x, empty, loc2, dist, src);
      } else {
        assert x in rest;
      }
    }
  }

  /** Expanding the first entry and sorting its children into the rest keeps the invariant. */
  lemma SettleNext(g: Graph, agenda: seq<Entry>, empty: set<Loc>, best: map<Loc, real>, src: Loc,
                   dist: (Loc, Loc) -> real, loc2: Loc, children: seq<Entry>, sorted: seq<Entry>)
    requires WellFormed(g) && NonNegative(dist) && TimeSearchOk(g, agenda, empty, best, src, dist)
    requires Sorted(agenda) && agenda != []
    requires agenda[0].path != [] && Last(agenda[0].path) in Locations(g) && Last(agenda[0].path) !in empty
    requires Children(g, agenda[0], |RoadsFrom(g, agenda[0].path)|, empty + {Last(agenda[0].path)}, loc2, Time, dist)
             == Ok(children)
    requires forall c | c in children :: Child(g, agenda[0], c, empty + {Last(agenda[0].path)}, loc2, Time, dist, src)
    requires multiset(sorted) == multiset(agenda[1..] + children)
    ensures TimeSearchOk(g, sorted, empty + {Last(agenda[0].path)}, best[Last(agenda[0].path) := agenda[0].cost], src, dist)
  {
    var e := agenda[0];
    var v := Last(e.path);
    var empty', best' := empty + {v}, best[v := e.cost];
    var rest := agenda[1..];
    SettleBest(g, agenda, empty, best, src, dist);
    assert Timed(g, e, src, dist);
    TimedAfter(g, e, rest, children, sorted, empty', loc2, dist, src);
    if src !in empty' {
      OfferedRest(agenda, src, 0.0);
      OfferedSorted(rest, children, sorted, src, 0.0);
    }
    forall a, i, b | a in empty' && TimedRoad(g, a, i, b) && b !in empty'
      ensures Offered(sorted, b, best'[a] + RoadTime(g, a, i, b, dist))
    {
      var t := RoadTime(g, a, i, b, dist);
      if a == v {
        assert best'[a] == e.cost;
        OfferedChild(g, e, empty', loc2, dist, children, i, b);
      } else {
        assert a in empty && best'[a] == best[a];
        OfferedRest(agenda, b, best[a] + t);
      }
      OfferedSorted(rest, children, sorted, b, best'[a] + t);
    }
  }

  /**
   * The rest of one turn of the search loop, once the location `Last(entry.path)`
   * has joined `empty`: the children of `entry`, sorted with the rest of the
   * agenda by key. A road with no positive speed limit stops the search by time.
   */
  method Advance(g: Graph, entry: Entry, rest: seq<Entry>, empty: set<Loc>, loc2: Loc, mode: Mode,
                 dist: (Loc, Loc) -> real, ghost src: Loc, ghost before: seq<Entry>, ghost settled: set<Loc>,
                 ghost best: map<Loc, real>)
    returns (r: Result<seq<Entry>, Failure>)
    requires WellFormed(g) && AgendaOk(g, before, src) && Sorted(before)
    requires before != [] && entry == before[0] && rest == before[1..]
    requires Last(entry.path) in Locations(g) && Last(entry.path) !in settled && empty == settled + {Last(entry.path)}
    requires mode == Time && NonNegative(dist) ==> TimeSearchOk(g, before, settled, best, src, dist)
    ensures r.Err? <==> Children(g, entry, |RoadsFrom(g, entry.path)|, empty, loc2, mode, dist).Err?
    ensures r.Err? ==> mode == Time && r.error == ZeroDivisionError && StoppedRoad(g)
    ensures r.Ok? ==>
              multiset(r.value) == multiset(rest + Children(g, entry, |RoadsFrom(g, entry.path)|, empty, loc2, mode, dist).value)
    ensures r.Ok? ==> AgendaOk(g, r.value, src) && Sorted(r.value)
    ensures r.Ok? && mode == Time && NonNegative(dist) ==>
              TimeSearchOk(g, r.value, empty, best[Last(entry.path) := entry.cost], src, dist)
  {
    assert entry in before;
    var children := Expand(g, entry, empty, loc2, mode, dist, src);
    if children.Err? {
      return Err(children.error);
    }
    var sorted := SortByPriority(rest + children.value);
    assert AgendaOk(g, rest, src) by {
      forall e | e in rest ensures Walk(g, e.path, src) {
        assert e in before;
      }
    }
    AgendaNext(g, rest, children.value, sorted, src);
    if mode == Time && NonNegative(dist) {
      SettleNext(g, before, settled, best, src, dist, loc2, children.value, sorted);
    }
    return Ok(sorted);
  }

  /**
   * The loop of the search from `src` to `dst`: pop the entry with the
   * smallest key, skip it when its terminal node was expanded, return its
   * route when that node is `dst`, and otherwise expand it and sort the
   * agenda again. By time, with no negative distance, a route found is a
   * fastest one; `expanded` lists the expanded nodes, none twice.
   */
  method Explore(g: Graph, src: Loc, dst: Loc, loc1: Loc, loc2: Loc, mode: Mode, dist: (Loc, Loc) -> real)
    returns (r: Result<Option<seq<Loc>>, Failure>, ghost expanded: seq<Loc>)
    requires WellFormed(g) && src in Locations(g)
    ensures r.Err? ==> mode == Time && r.error == ZeroDivisionError && StoppedRoad(g)
    ensures r.Ok? && r.value.Some? ==> Walk(g, r.value.value, src) && Last(r.value.value) == dst
    ensures src == dst ==> r == Ok(Some([src]))
    ensures mode == Time && NonNegative(dist) && r.Ok? && r.value.Some? ==> Fastest(g, r.value.value, src, dst, dist)
    ensures Distinct(expanded) && Elems(expanded) <= Locations(g)
  {
    var agenda := [Entry([src], 0.0, if mode == Distance then dist(loc1, loc2) else 0.0)];
    var empty: set<Loc> := {};
    expanded := [];
    ghost var timed := mode == Time && NonNegative(dist);
    ghost var best: map<Loc, real> := map[];
    assert TimedWalk(g, [src], [], src) && WalkTime(g, [src], [], dist) == 0.0;
    assert Offered(agenda, src, 0.0);
    while agenda != []
      invariant AgendaOk(g, agenda, src) && Sorted(agenda)
      invariant timed ==> TimeSearchOk(g, agenda, empty, best, src, dist)
      invariant Distinct(expanded) && Elems(expanded) == empty && empty <= Locations(g)
      invariant src == dst ==> agenda != [] && agenda[0].path == [src] && empty == {}
      decreases Locations(g) - empty, |agenda|
    {
      ghost var before, settled := agenda, empty;
      var entry := agenda[0];
      assert entry in agenda;
      SortedRest(agenda);
      agenda := agenda[1..];
      var last := Last(entry.path);
      if last in empty {
        if timed {
          SkipExpanded(g, before, empty, best, src, dist);
        }
        continue;
      }
      if last == dst {
        if timed {
          FoundFastest(g, before, empty, best, src, dist, dst);
        }
        return Ok(Some(entry.path)), expanded;
      }
      assert last in Locations(g);
      ExpandOnce(g, expanded, empty, last);
      empty := empty + {last};
      expanded := expanded + [last];
      var next := Advance(g, entry, agenda, empty, loc2, mode, dist, src, before, settled, best);
      if next.Err? {
        return Err(next.error), expanded;
      }
      best := best[last := entry.cost];
      agenda := next.value;
    }
    return Ok(None), expanded;
  }

  /**
   * The search shared by `find_short_path` and `find_fast_path`, from the
   * node nearest `loc1` to the node nearest `loc2`; an empty graph raises
   * `KeyError`.
   */
  method FindPath(g: Graph, loc1: Loc, loc2: Loc, mode: Mode, dist: (Loc, Loc) -> real)
    returns (r: Result<Option<seq<Loc>>, Failure>, ghost expanded: seq<Loc>)
    requires WellFormed(g)
    ensures (r.Err? && r.error == KeyError) <==> g.dic.order == []
    ensures r.Err? && r.error == ZeroDivisionError ==> mode == Time && StoppedRoad(g)
    ensures r.Ok? && r.value.Some? ==>
              Walk(g, r.value.value, Snap(g, loc1, dist)) && Last(r.value.value) == Snap(g, loc2, dist)
    ensures g.dic.order != [] && Snap(g, loc1, dist) == Snap(g, loc2, dist) ==>
              r == Ok(Some([Snap(g, loc1, dist)]))
    ensures mode == Time && NonNegative(dist) && r.Ok? && r.value.Some? ==>
              Fastest(g, r.value.value, Snap(g, loc1, dist), Snap(g, loc2, dist), dist)
    ensures Distinct(expanded) && Elems(expanded) <= Locations(g)
  {
    var n1 := Nearest(g.dic, loc1, dist);
    var n2 := Nearest(g.dic, loc2, dist);
    if n1.None? {
      return Err(KeyError), [];
    }
    assert g.dic.order[FirstNearest(g.dic.order, loc1, dist)] in Elems(g.dic.order);
    assert g.dic.order[FirstNearest(g.dic.order, loc2, dist)] in Elems(g.dic.order);
    var src := g.nodes[n1.value].value;
    var dst := g.nodes[n2.value].value;
    r, expanded := Explore(g, src, dst, loc1, loc2, mode, dist);
  }

  /**
   * `find_short_path`: the route by distance, searched with the distance
   * still to go as a heuristic. Only an empty graph raises.
   */
  method FindShortPath(g: Graph, loc1: Loc, loc2: Loc, dist: (Loc, Loc) -> real)
    returns (r: Result<Option<seq<Loc>>, Failure>)
    requires WellFormed(g)
    ensures r.Err? <==> g.dic.order == []
    ensures r.Err? ==> r.error == KeyError
    ensures r.Ok? && r.value.Some? ==>
              Walk(g, r.value.value, Snap(g, loc1, dist)) && Last(r.value.value) == Snap(g, loc2, dist)
  {
    ghost var expanded;
    r, expanded := FindPath(g, loc1, loc2, Distance, dist);
  }

  /**
   * `find_fast_path`: the route by travel time, each road costing its
   * length over the highest speed limit between its two ends. A road with
   * no positive speed limit can make it raise `ZeroDivisionError`.
   */
  method FindFastPath(g: Graph, loc1: Loc, loc2: Loc, dist: (Loc, Loc) -> real)
    returns (r: Result<Option<seq<Loc>>, Failure>)
    requires WellFormed(g)
    ensures (r.Err? && r.error == KeyError) <==> g.dic.order == []
    ensures r.Err? && r.error == ZeroDivisionError ==> StoppedRoad(g)
    ensures r.Ok? && r.value.Some? ==>
              Walk(g, r.value.value, Snap(g, loc1, dist)) && Last(r.value.value) == Snap(g, loc2, dist)
    ensures NonNegative(dist) && r.Ok? && r.value.Some? ==>
              Fastest(g, r.value.value, Snap(g, loc1, dist), Snap(g, loc2, dist), dist)
  {
    ghost var expanded;
    r, expanded := FindPath(g, loc1, loc2, Time, dist);
  }
}
