/**
 * The road-graph builder of the route-finding lab. Way records become
 * directed, speed-labelled adjacency lists: every accepted way adds an edge
 * for each consecutive pair of its nodes, and the reverse edges too unless
 * it is tagged one-way. Node records then give the coordinates of the nodes
 * the accepted ways use, and a coordinate-to-id index.
 */
module Roads {
  import opened Common

  /** A (latitude, longitude) pair. */
  type Loc = (real, real)

  /**
   * A `highway` tag value: the thirteen routable types by name, and any other
   * string as `Other`.
   */
  datatype Highway =
    | Motorway | Trunk | Primary | Secondary | Tertiary | Unclassified
    | Residential | LivingStreet | MotorwayLink | TrunkLink
    | PrimaryLink | SecondaryLink | TertiaryLink
    | Other(name: string)

  /** A way record: its node ids in order and the three tags the builder reads. */
  datatype Way = Way(nodes: seq<int>, highway: Option<string>, maxspeed: Option<int>, oneway: Option<string>)

  /** A node record: an id and its coordinates. */
  datatype NodeRecord = NodeRecord(id: int, lat: real, lon: real)

  function LocOf(r: NodeRecord): Loc {
    (r.lat, r.lon)
  }

  const AllowedHighwayTypes: set<string> := {
    "motorway", "trunk", "primary", "secondary", "tertiary", "unclassified",
    "residential", "living_street", "motorway_link", "trunk_link",
    "primary_link", "secondary_link", "tertiary_link"
  }

  /** The tag value a `Highway` stands for. */
  function TagName(h: Highway): string {
    match h
    case Motorway => "motorway"
    case Trunk => "trunk"
    case Primary => "primary"
    case Secondary => "secondary"
    case Tertiary => "tertiary"
    case Unclassified => "unclassified"
    case Residential => "residential"
    case LivingStreet => "living_street"
    case MotorwayLink => "motorway_link"
    case TrunkLink => "trunk_link"
    case PrimaryLink => "primary_link"
    case SecondaryLink => "secondary_link"
    case TertiaryLink => "tertiary_link"
    case Other(name) => name
  }

  /** Reading a tag value: one of the allowed names, or `Other`. */
  function ParseHighway(tag: string): (h: Highway)
    ensures TagName(h) == tag
  {
    if tag == "motorway" then Motorway
    else if tag == "trunk" then Trunk
    else if tag == "primary" then Primary
    else if tag == "secondary" then Secondary
    else if tag == "tertiary" then Tertiary
    else if tag == "unclassified" then Unclassified
    else if tag == "residential" then Residential
    else if tag == "living_street" then LivingStreet
    else if tag == "motorway_link" then MotorwayLink
    else if tag == "trunk_link" then TrunkLink
    else if tag == "primary_link" then PrimaryLink
    else if tag == "secondary_link" then SecondaryLink
    else if tag == "tertiary_link" then TertiaryLink
    else Other(tag)
  }

  /** A tag is read as a named type exactly when it is in `ALLOWED_HIGHWAY_TYPES`. */
  lemma ParseHighwayAllowed(tag: string)
    ensures !ParseHighway(tag).Other? <==> tag in AllowedHighwayTypes
  {
  }

  /** `DEFAULT_SPEED_LIMIT_MPH`, defined on the allowed types. */
  function DefaultSpeedLimitMph(h: Highway): (mph: int)
    requires !h.Other?
    ensures mph > 0
  {
    match h
    case Motorway => 60
    case Trunk => 45
    case Primary => 35
    case Secondary => 30
    case Residential => 25
    case Tertiary => 25
    case Unclassified => 25
    case LivingStreet => 10
    case MotorwayLink => 30
    case TrunkLink => 30
    case PrimaryLink => 30
    case SecondaryLink => 30
    case TertiaryLink => 25
  }

  /** The way's `highway` tag is present and one of the allowed types. */
  predicate Accepted(w: Way) {
    w.highway.Some? && !ParseHighway(w.highway.value).Other?
  }

  /** The way's `maxspeed_mph` tag if present, otherwise the default for its highway type. */
  function WaySpeed(w: Way): (s: int)
    requires Accepted(w)
    ensures w.maxspeed.None? ==> s > 0
  {
    if w.maxspeed.Some? then w.maxspeed.value else DefaultSpeedLimitMph(ParseHighway(w.highway.value))
  }

  /** Reverse edges are added unless the `oneway` tag is exactly "yes". */
  predicate TwoWay(w: Way) {
    w.oneway.None? || w.oneway.value != "yes"
  }

  /** Number of consecutive pairs of a node list: `range(len(nodes) - 1)`. */
  function Pairs(nodes: seq<int>): nat {
    if |nodes| == 0 then 0 else |nodes| - 1
  }

  /** The edges node `n` receives from the first `k` consecutive pairs of `nodes`, in order. */
  function Forward(nodes: seq<int>, n: int, s: int, k: nat): seq<(int, int)>
    requires k <= Pairs(nodes)
  {
    if k == 0 then [] else Forward(nodes, n, s, k - 1) + (if nodes[k - 1] == n then [(nodes[k], s)] else [])
  }

  /** The edges an accepted way appends to `Edges[n]`: forward pairs, then the reversed list's pairs. */
  function WayEdges(w: Way, n: int): seq<(int, int)>
    requires Accepted(w)
  {
    Forward(w.nodes, n, WaySpeed(w), Pairs(w.nodes)) +
    (if TwoWay(w) then Forward(Reversed(w.nodes), n, WaySpeed(w), Pairs(w.nodes)) else [])
  }

  /** `Edges[n]` after the given ways: each accepted way's contribution, in record order. */
  function EdgesFor(ways: seq<Way>, n: int): seq<(int, int)> {
    if ways == [] then []
    else
      var w := ways[|ways| - 1];
      EdgesFor(ways[..|ways| - 1], n) + (if Accepted(w) then WayEdges(w, n) else [])
  }

  /** The node ids used by accepted ways. */
  function Referenced(ways: seq<Way>): set<int> {
    if ways == [] then {}
    else
      var w := ways[|ways| - 1];
      Referenced(ways[..|ways| - 1]) + (if Accepted(w) then Elems(w.nodes) else {})
  }

  /** The coordinates of the last record for node `n`, or None when no record names it. */
  function LastLoc(recs: seq<NodeRecord>, n: int): (r: Option<Loc>)
    ensures r.None? <==> forall i | 0 <= i < |recs| :: recs[i].id != n
    ensures r.Some? ==> exists i | 0 <= i < |recs| ::
      recs[i].id == n && LocOf(recs[i]) == r.value && forall j | i < j < |recs| :: recs[j].id != n
  {
    if recs == [] then None
    else if recs[|recs| - 1].id == n then Some(LocOf(recs[|recs| - 1]))
    else
      var r := LastLoc(recs[..|recs| - 1], n);
      LastLocStep(recs, n, r);
      r
  }

  /** A record at the end with another id changes neither the absence of `n` nor its last location. */
  lemma LastLocStep(recs: seq<NodeRecord>, n: int, r: Option<Loc>)
    requires recs != [] && recs[|recs| - 1].id != n
    requires r.None? <==> forall i | 0 <= i < |recs| - 1 :: recs[i].id != n
    requires r.Some? ==> exists i | 0 <= i < |recs| - 1 ::
      recs[i].id == n && LocOf(recs[i]) == r.value && forall j | i < j < |recs| - 1 :: recs[j].id != n
    ensures r.None? <==> forall i | 0 <= i < |recs| :: recs[i].id != n
    ensures r.Some? ==> exists i | 0 <= i < |recs| ::
      recs[i].id == n && LocOf(recs[i]) == r.value && forall j | i < j < |recs| :: recs[j].id != n
  {
    if r.Some? {
      var i :| 0 <= i < |recs| - 1 && recs[i].id == n && LocOf(recs[i]) == r.value &&
        forall j | i < j < |recs| - 1 :: recs[j].id != n;
      assert forall j | i < j < |recs| :: recs[j].id != n;
    }
  }

  // ---------------------------------------------------------------------------
  // What the edges are, independently of the order they are added in
  // ---------------------------------------------------------------------------

  /** Way `w` has a consecutive pair joining `n` to `e.0`, forwards, or backwards when it is two-way. */
  ghost predicate WayHasEdge(w: Way, n: int, e: (int, int)) {
    Accepted(w) && e.1 == WaySpeed(w) &&
    exists j | 0 <= j < Pairs(w.nodes) ::
      (w.nodes[j] == n && e.0 == w.nodes[j + 1]) || (TwoWay(w) && w.nodes[j + 1] == n && e.0 == w.nodes[j])
  }

  lemma {:induction false} ForwardMembers(nodes: seq<int>, n: int, s: int, k: nat, e: (int, int))
    requires k <= Pairs(nodes)
    ensures e in Forward(nodes, n, s, k) <==> exists j | 0 <= j < k :: nodes[j] == n && e == (nodes[j + 1], s)
  {
    if k > 0 {
      ForwardMembers(nodes, n, s, k - 1, e);
    }
  }

  lemma ReversedMembers(nodes: seq<int>, n: int, s: int, e: (int, int))
    ensures e in Forward(Reversed(nodes), n, s, Pairs(nodes)) <==>
      exists i | 0 <= i < Pairs(nodes) :: nodes[i + 1] == n && e == (nodes[i], s)
  {
    var rev, p := Reversed(nodes), Pairs(nodes);
    assert Pairs(rev) == p;
    ForwardMembers(rev, n, s, p, e);
    if e in Forward(rev, n, s, p) {
      var j :| 0 <= j < p && rev[j] == n && e == (rev[j + 1], s);
      var i := |nodes| - 2 - j;
      assert nodes[i + 1] == n && e == (nodes[i], s);
    }
    if exists i | 0 <= i < p :: nodes[i + 1] == n && e == (nodes[i], s) {
      var i :| 0 <= i < p && nodes[i + 1] == n && e == (nodes[i], s);
      var j := |nodes| - 2 - i;
      assert rev[j] == n && e == (rev[j + 1], s);
    }
  }

  lemma WayEdgesMembers(w: Way, n: int, e: (int, int))
    requires Accepted(w)
    ensures e in WayEdges(w, n) <==> WayHasEdge(w, n, e)
  {
    ForwardMembers(w.nodes, n, WaySpeed(w), Pairs(w.nodes), e);
    ReversedMembers(w.nodes, n, WaySpeed(w), e);
  }

  /** Some way of `ways` has a pair giving the edge `n -> e.0` with speed `e.1`. */
  ghost predicate SomeWayHasEdge(ways: seq<Way>, n: int, e: (int, int)) {
    exists k | 0 <= k < |ways| :: WayHasEdge(ways[k], n, e)
  }

  lemma SomeWaySplit(ways: seq<Way>, n: int, e: (int, int))
    requires ways != []
    ensures SomeWayHasEdge(ways, n, e) <==>
      SomeWayHasEdge(ways[..|ways| - 1], n, e) || WayHasEdge(ways[|ways| - 1], n, e)
  {
    var front := ways[..|ways| - 1];
    if SomeWayHasEdge(ways, n, e) {
      var k :| 0 <= k < |ways| && WayHasEdge(ways[k], n, e);
      if k < |front| {
        assert front[k] == ways[k];
      }
    }
    if SomeWayHasEdge(front, n, e) {
      var k :| 0 <= k < |front| && WayHasEdge(front[k], n, e);
      assert front[k] == ways[k];
    }
  }

  /**
   * An edge `n -> e.0` with speed `e.1` is in `Edges[n]` exactly when some
   * accepted way joins the two consecutively with that speed: forwards, or
   * backwards if the way is not one-way. Rejected ways contribute nothing.
   */
  lemma {:induction false} EdgeMembership(ways: seq<Way>, n: int, e: (int, int))
    ensures e in EdgesFor(ways, n) <==> SomeWayHasEdge(ways, n, e)
  {
    if ways != [] {
      var w := ways[|ways| - 1];
      EdgeMembership(ways[..|ways| - 1], n, e);
      SomeWaySplit(ways, n, e);
      if Accepted(w) {
        WayEdgesMembers(w, n, e);
      }
    }
  }

  /** When no accepted way is one-way, every edge has its mirror image with the same speed. */
  lemma TwoWayMirror(ways: seq<Way>, n: int, m: int, s: int)
    requires forall k | 0 <= k < |ways| :: Accepted(ways[k]) ==> TwoWay(ways[k])
    requires (m, s) in EdgesFor(ways, n)
    ensures (n, s) in EdgesFor(ways, m)
  {
    EdgeMembership(ways, n, (m, s));
    var k :| 0 <= k < |ways| && WayHasEdge(ways[k], n, (m, s));
    var w := ways[k];
    var j :| 0 <= j < Pairs(w.nodes) &&
      ((w.nodes[j] == n && m == w.nodes[j + 1]) || (TwoWay(w) && w.nodes[j + 1] == n && m == w.nodes[j]));
    assert WayHasEdge(w, m, (n, s));
    EdgeMembership(ways, m, (n, s));
  }

  /** Every edge of `Edges[n]` leads to a node some accepted way uses, and so does `n`. */
  lemma {:induction false} EdgesStayReferenced(ways: seq<Way>, n: int)
    ensures EdgesFor(ways, n) != [] ==> n in Referenced(ways)
    ensures forall e | e in EdgesFor(ways, n) :: e.0 in Referenced(ways)
  {
    if ways != [] {
      var front, w := ways[..|ways| - 1], ways[|ways| - 1];
      EdgesStayReferenced(front, n);
      if Accepted(w) {
        if WayEdges(w, n) != [] {
          assert WayEdges(w, n)[0] in WayEdges(w, n);
        }
        forall e | e in WayEdges(w, n)
          ensures e.0 in Elems(w.nodes) && n in Elems(w.nodes)
        {
          WayEdgesMembers(w, n, e);
          var j :| 0 <= j < Pairs(w.nodes) &&
            ((w.nodes[j] == n && e.0 == w.nodes[j + 1]) || (TwoWay(w) && w.nodes[j + 1] == n && e.0 == w.nodes[j]));
          assert w.nodes[j] in w.nodes && w.nodes[j + 1] in w.nodes;
        }
      }
    }
  }

  // ---------------------------------------------------------------------------
  // The coordinate index (a dictionary that keeps insertion order)
  // ---------------------------------------------------------------------------

  /** `Dic`: coordinates to node ids, with its keys in first-insertion order, as Python keeps them. */
  datatype LocIndex = LocIndex(order: seq<Loc>, ids: map<Loc, int>)

  predicate IndexOk(d: LocIndex) {
    Elems(d.order) == d.ids.Keys && Distinct(d.order)
  }

  /** `d[loc] = id`: a new key goes last, an existing one keeps its place. */
  function Put(d: LocIndex, loc: Loc, id: int): (r: LocIndex)
    ensures IndexOk(d) ==> IndexOk(r)
    ensures r.ids == d.ids[loc := id]
    ensures loc in d.ids ==> r.order == d.order
    ensures loc !in d.ids ==> r.order == d.order + [loc]
  {
    if loc in d.ids then LocIndex(d.order, d.ids[loc := id])
    else
      var r := LocIndex(d.order + [loc], d.ids[loc := id]);
      assert Elems(r.order) == Elems(d.order) + {loc};
      r
  }

  /** The coordinates of the first `k` records whose node is in `ids`. */
  function IndexKeys(recs: seq<NodeRecord>, ids: set<int>, k: nat): set<Loc>
    requires k <= |recs|
  {
    set i | 0 <= i < k && recs[i].id in ids :: LocOf(recs[i])
  }

  /**
   * The coordinates of the first `k` records whose node is in `ids`, each
   * where it first occurs, in record order.
   */
  function FirstLocs(recs: seq<NodeRecord>, ids: set<int>, k: nat): (r: seq<Loc>)
    requires k <= |recs|
    ensures Elems(r) == IndexKeys(recs, ids, k) && Distinct(r)
  {
    if k == 0 then []
    else
      var p := FirstLocs(recs, ids, k - 1);
      IndexKeysStep(recs, ids, k - 1);
      var loc := LocOf(recs[k - 1]);
      if recs[k - 1].id in ids && loc !in p then
        assert Elems(p + [loc]) == Elems(p) + {loc};
        p + [loc]
      else p
  }

  /** Record `i` is the last of the first `k` records that are in `ids` and have its coordinates. */
  ghost predicate LastAtLoc(recs: seq<NodeRecord>, ids: set<int>, i: int, k: int)
    requires 0 <= i < k <= |recs|
  {
    forall j | i < j < k && recs[j].id in ids :: LocOf(recs[j]) != LocOf(recs[i])
  }

  /** The three structures the builder returns. */
  datatype Graph = Graph(nodes: map<int, Option<Loc>>, edges: map<int, seq<(int, int)>>, dic: LocIndex)

  /**
   * What `build_auxiliary_structures` produces from the records:
   * `Nodes` and `Edges` have exactly the nodes of accepted ways as keys;
   * `Edges[n]` is the accepted ways' contribution in order; `Nodes[n]` holds
   * the last record's coordinates for `n` (None standing for the `0.0`
   * placeholder of a node no record names); `Dic` maps each coordinate of a
   * record of such a node to the id of the last record with it, its keys
   * in the order of the first record with each.
   */
  ghost predicate BuiltFrom(g: Graph, recs: seq<NodeRecord>, ways: seq<Way>) {
    var used := Referenced(ways);
    g.nodes.Keys == used && g.edges.Keys == used &&
    (forall n | n in g.edges :: g.edges[n] == EdgesFor(ways, n)) &&
    (forall n | n in g.nodes :: g.nodes[n] == LastLoc(recs, n)) &&
    IndexOk(g.dic) &&
    g.dic.ids.Keys == IndexKeys(recs, used, |recs|) &&
    g.dic.order == FirstLocs(recs, used, |recs|) &&
    (forall loc | loc in g.dic.ids :: g.dic.ids[loc] in used) &&
    (forall i | 0 <= i < |recs| && recs[i].id in used && LastAtLoc(recs, used, i, |recs|) ::
      g.dic.ids[LocOf(recs[i])] == recs[i].id)
  }

  lemma WaysPrefix(ways: seq<Way>, k: nat, n: int)
    requires k < |ways|
    ensures Referenced(ways[..k + 1]) == Referenced(ways[..k]) + (if Accepted(ways[k]) then Elems(ways[k].nodes) else {})
    ensures EdgesFor(ways[..k + 1], n) == EdgesFor(ways[..k], n) + (if Accepted(ways[k]) then WayEdges(ways[k], n) else [])
  {
    assert ways[..k + 1][..k] == ways[..k];
  }

  lemma RecordsPrefix(recs: seq<NodeRecord>, k: nat, n: int)
    requires k < |recs|
    ensures LastLoc(recs[..k + 1], n) == if recs[k].id == n then Some(LocOf(recs[k])) else LastLoc(recs[..k], n)
  {
    assert recs[..k + 1][..k] == recs[..k];
  }

  lemma IndexKeysStep(recs: seq<NodeRecord>, used: set<int>, k: nat)
    requires k < |recs|
    ensures IndexKeys(recs, used, k + 1) == IndexKeys(recs, used, k) + (if recs[k].id in used then {LocOf(recs[k])} else {})
  {
    var before, after := IndexKeys(recs, used, k), IndexKeys(recs, used, k + 1);
    forall loc | loc in after
      ensures loc in before || (recs[k].id in used && loc == LocOf(recs[k]))
    {
      var i :| 0 <= i < k + 1 && recs[i].id in used && LocOf(recs[i]) == loc;
      if i < k {
        assert loc in before;
      }
    }
    forall loc | loc in before
      ensures loc in after
    {
      var i :| 0 <= i < k && recs[i].id in used && LocOf(recs[i]) == loc;
      assert 0 <= i < k + 1;
    }
  }

  /** One pass of the node-record loop keeps `Dic` as described, now for `k + 1` records. */
  lemma IndexStep(recs: seq<NodeRecord>, used: set<int>, k: nat, d: LocIndex, d': LocIndex)
    requires k < |recs|
    requires d.ids.Keys == IndexKeys(recs, used, k)
    requires forall i | 0 <= i < k && recs[i].id in used && LastAtLoc(recs, used, i, k) :: d.ids[LocOf(recs[i])] == recs[i].id
    requires d'.ids == if recs[k].id in used then d.ids[LocOf(recs[k]) := recs[k].id] else d.ids
    requires d'.ids.Keys == IndexKeys(recs, used, k + 1)
    ensures forall i | 0 <= i < k + 1 && recs[i].id in used && LastAtLoc(recs, used, i, k + 1) ::
      d'.ids[LocOf(recs[i])] == recs[i].id
  {
    forall i | 0 <= i < k + 1 && recs[i].id in used && LastAtLoc(recs, used, i, k + 1)
      ensures d'.ids[LocOf(recs[i])] == recs[i].id
    {
      assert LocOf(recs[i]) in IndexKeys(recs, used, k + 1);
      if i < k {
        assert LastAtLoc(recs, used, i, k);
        assert LocOf(recs[i]) in IndexKeys(recs, used, k);
        if recs[k].id in used {
          assert LocOf(recs[k]) != LocOf(recs[i]);
        }
      }
    }
  }

  /** `for i in range(len(nbrs) - 1): Edges[nbrs[i]].append((nbrs[i + 1], speed))`. */
  method AppendPairs(edges: map<int, seq<(int, int)>>, nbrs: seq<int>, speed: int) returns (edges': map<int, seq<(int, int)>>)
    requires Elems(nbrs) <= edges.Keys
    ensures edges'.Keys == edges.Keys
    ensures forall n | n in edges' :: edges'[n] == edges[n] + Forward(nbrs, n, speed, Pairs(nbrs))
  {
    edges' := edges;
    var i := 0;
    while i < |nbrs| - 1
      invariant 0 <= i <= Pairs(nbrs)
      invariant edges'.Keys == edges.Keys
      invariant forall n | n in edges' :: edges'[n] == edges[n] + Forward(nbrs, n, speed, i)
    {
      assert nbrs[i] in Elems(nbrs);
      edges' := edges'[nbrs[i] := edges'[nbrs[i]] + [(nbrs[i + 1], speed)]];
      i := i + 1;
    }
  }

  /** The first loop over an accepted way's nodes: each new node gets a placeholder and no edges. */
  method AddNodes(w: Way, nodes: map<int, Option<Loc>>, edges: map<int, seq<(int, int)>>)
      returns (nodes': map<int, Option<Loc>>, edges': map<int, seq<(int, int)>>)
    requires edges.Keys == nodes.Keys
    ensures nodes'.Keys == nodes.Keys + Elems(w.nodes) && edges'.Keys == nodes'.Keys
    ensures forall n | n in nodes' :: nodes'[n] == if n in nodes then nodes[n] else None
    ensures forall n | n in edges' :: edges'[n] == if n in edges then edges[n] else []
  {
    nodes', edges' := nodes, edges;
    for t := 0 to |w.nodes|
      invariant nodes'.Keys == nodes.Keys + Elems(w.nodes[..t]) && edges'.Keys == nodes'.Keys
      invariant forall n | n in nodes' :: nodes'[n] == if n in nodes then nodes[n] else None
      invariant forall n | n in edges' :: edges'[n] == if n in edges then edges[n] else []
    {
      var node := w.nodes[t];
      if node !in nodes' {
        nodes' := nodes'[node := None];
      }
      if node !in edges' {
        edges' := edges'[node := []];
      }
      assert Elems(w.nodes[..t + 1]) == Elems(w.nodes[..t]) + {node} by {
        assert w.nodes[..t + 1] == w.nodes[..t] + [node];
      }
    }
    assert w.nodes[..|w.nodes|] == w.nodes;
  }

  lemma ElemsReversed(s: seq<int>)
    ensures Elems(Reversed(s)) == Elems(s)
  {
    var r := Reversed(s);
    forall x | x in s
      ensures x in r
    {
      var i :| 0 <= i < |s| && s[i] == x;
      assert r[|s| - 1 - i] == x;
    }
  }

  /** The ways loop's work on one accepted way: `Edges[n]` grows by exactly `WayEdges(w, n)`. */
  method AddWay(w: Way, nodes: map<int, Option<Loc>>, edges: map<int, seq<(int, int)>>)
      returns (nodes': map<int, Option<Loc>>, edges': map<int, seq<(int, int)>>)
    requires Accepted(w)
    requires edges.Keys == nodes.Keys
    ensures nodes'.Keys == nodes.Keys + Elems(w.nodes) && edges'.Keys == nodes'.Keys
    ensures forall n | n in nodes' :: nodes'[n] == if n in nodes then nodes[n] else None
    ensures forall n | n in edges' :: edges'[n] == (if n in edges then edges[n] else []) + WayEdges(w, n)
  {
    var start;
    nodes', start := AddNodes(w, nodes, edges);
    var speed := if w.maxspeed.Some? then w.maxspeed.value else DefaultSpeedLimitMph(ParseHighway(w.highway.value));
    var neighbor := w.nodes;
    edges' := AppendPairs(start, neighbor, speed);
    if w.oneway.None? || w.oneway.value != "yes" {
      neighbor := Reversed(neighbor);
      ElemsReversed(w.nodes);
      assert Pairs(neighbor) == Pairs(w.nodes);
      ghost var forward := edges';
      edges' := AppendPairs(edges', neighbor, speed);
      forall n | n in edges'
        ensures edges'[n] == (if n in edges then edges[n] else []) + WayEdges(w, n)
      {
        var a, f, r := start[n], Forward(w.nodes, n, speed, Pairs(w.nodes)), Forward(neighbor, n, speed, Pairs(w.nodes));
        assert forward[n] == a + f && edges'[n] == forward[n] + r;
        AppendAssoc(a, f, r);
      }
    }
  }

  /**
   * `build_auxiliary_structures`, with the two record streams given as
   * sequences: the ways pass fills `Nodes` with placeholders and `Edges`
   * with adjacency lists, then the node pass fills in coordinates and `Dic`.
   */
  method BuildAuxiliaryStructures(nodeRecords: seq<NodeRecord>, ways: seq<Way>) returns (g: Graph)
    ensures BuiltFrom(g, nodeRecords, ways)
  {
    var nodes, edges := WaysPass(ways);
    var dic;
    nodes, dic := NodesPass(nodeRecords, nodes);
    g := Graph(nodes, edges, dic);
  }

  /** The loop over the ways: every node of an accepted way gets a placeholder and its edges. */
  method WaysPass(ways: seq<Way>) returns (nodes: map<int, Option<Loc>>, edges: map<int, seq<(int, int)>>)
    ensures nodes.Keys == Referenced(ways) && edges.Keys == nodes.Keys
    ensures forall n | n in nodes :: nodes[n] == None
    ensures forall n | n in edges :: edges[n] == EdgesFor(ways, n)
  {
    nodes, edges := map[], map[];
    for k := 0 to |ways|
      invariant nodes.Keys == Referenced(ways[..k]) && edges.Keys == nodes.Keys
      invariant forall n | n in nodes :: nodes[n] == None
      invariant forall n | n in edges :: edges[n] == EdgesFor(ways[..k], n)
    {
      var w := ways[k];
      ghost var edgesBefore := edges;
      if w.highway.Some? && !ParseHighway(w.highway.value).Other? {
        nodes, edges := AddWay(w, nodes, edges);
      }
      forall n | n in edges
        ensures edges[n] == EdgesFor(ways[..k + 1], n)
      {
        WaysPrefix(ways, k, n);
        if n !in edgesBefore {
          EdgesStayReferenced(ways[..k], n);
        }
      }
      WaysPrefix(ways, k, 0);
    }
    assert ways[..|ways|] == ways;
  }

  /**
   * The loop over the node records: a record of a node in `nodes` sets that
   * node's coordinates and maps them to its id in `Dic`.
   */
  method NodesPass(nodeRecords: seq<NodeRecord>, nodes: map<int, Option<Loc>>)
      returns (nodes': map<int, Option<Loc>>, dic: LocIndex)
    requires forall n | n in nodes :: nodes[n] == None
    ensures nodes'.Keys == nodes.Keys
    ensures forall n | n in nodes' :: nodes'[n] == LastLoc(nodeRecords, n)
    ensures IndexOk(dic)
    ensures dic.ids.Keys == IndexKeys(nodeRecords, nodes.Keys, |nodeRecords|)
    ensures dic.order == FirstLocs(nodeRecords, nodes.Keys, |nodeRecords|)
    ensures forall loc | loc in dic.ids :: dic.ids[loc] in nodes.Keys
    ensures forall i | 0 <= i < |nodeRecords| && nodeRecords[i].id in nodes.Keys && LastAtLoc(nodeRecords, nodes.Keys, i, |nodeRecords|) ::
      dic.ids[LocOf(nodeRecords[i])] == nodeRecords[i].id
  {
    ghost var used := nodes.Keys;
    nodes' := nodes;
    dic := LocIndex([], map[]);
    for k := 0 to |nodeRecords|
      invariant nodes'.Keys == used
      invariant forall n | n in nodes' :: nodes'[n] == LastLoc(nodeRecords[..k], n)
      invariant IndexOk(dic)
      invariant dic.ids.Keys == IndexKeys(nodeRecords, used, k)
      invariant dic.order == FirstLocs(nodeRecords, used, k)
      invariant forall loc | loc in dic.ids :: dic.ids[loc] in used
      invariant forall i | 0 <= i < k && nodeRecords[i].id in used && LastAtLoc(nodeRecords, used, i, k) ::
        dic.ids[LocOf(nodeRecords[i])] == nodeRecords[i].id
    {
      var node := nodeRecords[k];
      ghost var dicBefore := dic;
      if node.id in nodes' {
        nodes' := nodes'[node.id := Some((node.lat, node.lon))];
        dic := Put(dic, (node.lat, node.lon), node.id);
      }
      IndexKeysStep(nodeRecords, used, k);
      IndexStep(nodeRecords, used, k, dicBefore, dic);
      forall n | n in nodes'
        ensures nodes'[n] == LastLoc(nodeRecords[..k + 1], n)
      {
        RecordsPrefix(nodeRecords, k, n);
      }
    }
    assert nodeRecords[..|nodeRecords|] == nodeRecords;
  }

  /** The coordinates of every node that has them: the places a route can visit. */
  function Locations(g: Graph): set<Loc> {
    set n | n in g.nodes && g.nodes[n].Some? :: g.nodes[n].value
  }

  /**
   * The shape the searches rely on: every node has coordinates that `Dic`
   * knows, `Dic` leads back to nodes, and every edge ends at a node.
   */
  ghost predicate WellFormed(g: Graph) {
    IndexOk(g.dic) &&
    g.nodes.Keys == g.edges.Keys &&
    (forall n | n in g.nodes :: g.nodes[n].Some? && g.nodes[n].value in g.dic.ids) &&
    (forall loc | loc in g.dic.ids :: g.dic.ids[loc] in g.nodes) &&
    (forall n, i | n in g.edges && 0 <= i < |g.edges[n]| :: g.edges[n][i].0 in g.nodes)
  }

  /** A node with a record gets coordinates, and those coordinates are a key of `Dic`. */
  lemma NodeResolved(g: Graph, recs: seq<NodeRecord>, ways: seq<Way>, n: int)
    requires BuiltFrom(g, recs, ways)
    requires n in g.nodes
    requires exists i | 0 <= i < |recs| :: recs[i].id == n
    ensures g.nodes[n].Some? && g.nodes[n].value in g.dic.ids
  {
    var r := LastLoc(recs, n);
    assert g.nodes[n] == r;
    var i :| 0 <= i < |recs| && recs[i].id == n && LocOf(recs[i]) == r.value;
    assert LocOf(recs[i]) in IndexKeys(recs, Referenced(ways), |recs|);
  }

  /** Every edge of a built graph ends at a node of it. */
  lemma EdgeResolved(g: Graph, ways: seq<Way>, n: int, i: int)
    requires g.nodes.Keys == Referenced(ways) && n in g.edges
    requires g.edges[n] == EdgesFor(ways, n)
    requires 0 <= i < |g.edges[n]|
    ensures g.edges[n][i].0 in g.nodes
  {
    EdgesStayReferenced(ways, n);
    assert g.edges[n][i] in EdgesFor(ways, n);
  }

  /** A graph built from records that resolve every node the accepted ways use is well formed. */
  lemma BuildWellFormed(g: Graph, recs: seq<NodeRecord>, ways: seq<Way>)
    requires BuiltFrom(g, recs, ways)
    requires forall n | n in Referenced(ways) :: exists i | 0 <= i < |recs| :: recs[i].id == n
    ensures WellFormed(g)
  {
    forall n | n in g.nodes
      ensures g.nodes[n].Some? && g.nodes[n].value in g.dic.ids
    {
      NodeResolved(g, recs, ways, n);
    }
    forall n, i | n in g.edges && 0 <= i < |g.edges[n]|
      ensures g.edges[n][i].0 in g.nodes
    {
      EdgeResolved(g, ways, n, i);
    }
  }
}
