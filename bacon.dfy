/**
 * The co-star graph of the Bacon-number lab: a database is a list of records
 * (actor, actor, film); two actors are neighbours when a record names both.
 * Modelled here: the id lookup, the pair test, the neighbour map, the actors
 * at a given Bacon number (a breadth-first search by levels), the parent-chain
 * path and the pair-to-film map.
 */
module Bacon {
  import opened Common

  /** One database record: two actor ids and the id of a film both appear in. */
  type Record = (int, int, int)

  /** Kevin Bacon's actor id. */
  const BaconId := 4724

  /** Exceptions the original functions raise. */
  datatype Error =
    | ActorNotFound  // the explicit `Exception('actor id doesn't exist')`
    | KeyError       // indexing the neighbour map with an actor it does not hold
    | NameError      // a call to the helper that exists only inside a string literal

  // ---------------------------------------------------------------------------
  // Specification of the co-star graph
  // ---------------------------------------------------------------------------

  /** Every actor id named by some record. */
  function Actors(data: seq<Record>): set<int> {
    (set i | 0 <= i < |data| :: data[i].0) + (set i | 0 <= i < |data| :: data[i].1)
  }

  /** The actors sharing at least one record with `a`. */
  function CoStars(data: seq<Record>, a: int): set<int> {
    (set i | 0 <= i < |data| && data[i].0 == a :: data[i].1) +
    (set i | 0 <= i < |data| && data[i].1 == a :: data[i].0)
  }

  /** The unordered pair of actors of a record. */
  function Pair(r: Record): set<int> {
    {r.0, r.1}
  }

  lemma CoStarsSymmetric(data: seq<Record>, a: int, b: int)
    ensures b in CoStars(data, a) <==> a in CoStars(data, b)
  {
    if b in CoStars(data, a) {
      var i :| 0 <= i < |data| && ((data[i].0 == a && data[i].1 == b) || (data[i].1 == a && data[i].0 == b));
      assert a in CoStars(data, b) by {
        if data[i].0 == a && data[i].1 == b {
          assert a == data[i].0;
        } else {
          assert a == data[i].1;
        }
      }
    }
    if a in CoStars(data, b) {
      var i :| 0 <= i < |data| && ((data[i].0 == b && data[i].1 == a) || (data[i].1 == b && data[i].0 == a));
      assert b in CoStars(data, a) by {
        if data[i].0 == b && data[i].1 == a {
          assert b == data[i].0;
        } else {
          assert b == data[i].1;
        }
      }
    }
  }

  lemma CoStarsAreActors(data: seq<Record>, a: int)
    ensures CoStars(data, a) <= Actors(data)
    ensures CoStars(data, a) != {} <==> a in Actors(data)
  {
    if a in Actors(data) {
      var i :| 0 <= i < |data| && (data[i].0 == a || data[i].1 == a);
      if data[i].0 == a {
        assert data[i].1 in CoStars(data, a);
      } else {
        assert data[i].0 in CoStars(data, a);
      }
    }
  }

  /** The co-star sets and the actor set of a record prefix grow by one record at a time. */
  lemma CoStarsStep(data: seq<Record>, k: nat, a: int)
    requires k < |data|
    ensures CoStars(data[..k + 1], a) ==
      CoStars(data[..k], a) + (if data[k].0 == a then {data[k].1} else {}) + (if data[k].1 == a then {data[k].0} else {})
    ensures Actors(data[..k + 1]) == Actors(data[..k]) + {data[k].0, data[k].1}
  {
    var p, q := data[..k + 1], data[..k];
    assert forall i | 0 <= i < k :: p[i] == q[i];
    assert p[k] == data[k];
  }

  // ---------------------------------------------------------------------------
  // getActor, acted_together, neighbor_actors
  // ---------------------------------------------------------------------------

  /** Some name whose id is `id`; the order in which names are tried is not modelled. */
  method GetActor(names: map<string, int>, id: int) returns (r: Result<string, Error>)
    ensures r.Ok? ==> r.value in names && names[r.value] == id
    ensures r.Err? <==> forall a | a in names :: names[a] != id
    ensures r.Err? ==> r.error == ActorNotFound
  {
    var rest := names.Keys;
    while rest != {}
      invariant rest <= names.Keys
      invariant forall a | a in names && a !in rest :: names[a] != id
      decreases rest
    {
      var a :| a in rest;
      if names[a] == id {
        return Ok(a);
      }
      rest := rest - {a};
    }
    return Err(ActorNotFound);
  }

  /** Some record names exactly the actors `a` and `b` (one actor when `a == b`). */
  predicate ActedTogether(data: seq<Record>, a: int, b: int) {
    exists i | 0 <= i < |data| :: Pair(data[i]) == {a, b}
  }

  /** Two actors acted together exactly when each is the other's co-star. */
  lemma ActedTogetherCoStars(data: seq<Record>, a: int, b: int)
    ensures ActedTogether(data, a, b) <==> b in CoStars(data, a)
    ensures ActedTogether(data, a, b) <==> ActedTogether(data, b, a)
  {
    if ActedTogether(data, a, b) {
      var i :| 0 <= i < |data| && Pair(data[i]) == {a, b};
      assert data[i].0 in {a, b} && data[i].1 in {a, b} && a in Pair(data[i]) && b in Pair(data[i]);
      if data[i].0 == a {
        assert data[i].1 == b;
      } else {
        assert data[i].1 == a && data[i].0 == b;
      }
    }
    if b in CoStars(data, a) {
      var i :| 0 <= i < |data| && ((data[i].0 == a && data[i].1 == b) || (data[i].1 == a && data[i].0 == b));
      assert Pair(data[i]) == {a, b};
    }
    assert {a, b} == {b, a};
  }

  /** `list(s)`: the elements of a set, each once, in an order the model leaves open. */
  method ListOf(s: set<int>) returns (l: seq<int>)
    ensures Elems(l) == s
    ensures Distinct(l)
  {
    l := [];
    var rest := s;
    while rest != {}
      invariant rest <= s
      invariant Elems(l) == s - rest
      invariant Distinct(l)
      decreases rest
    {
      Inhabited(rest);
      var x :| x in rest;
      assert x !in Elems(l);
      assert Elems(l + [x]) == Elems(l) + {x};
      l := l + [x];
      rest := rest - {x};
    }
  }

  /**
   * The neighbour map: every actor of the database maps to a list of its
   * co-stars without repetitions.
   */
  method NeighborActors(data: seq<Record>) returns (adj: map<int, seq<int>>)
    ensures adj.Keys == Actors(data)
    ensures forall a | a in adj :: Elems(adj[a]) == CoStars(data, a) && Distinct(adj[a])
  {
    var sets: map<int, set<int>> := map[];
    for k := 0 to |data|
      invariant sets.Keys == Actors(data[..k])
      invariant forall a | a in sets :: sets[a] == CoStars(data[..k], a)
    {
      var i, j := data[k].0, data[k].1;
      ghost var before := sets;
      if i !in sets {
        sets := sets[i := {j}];
      } else {
        sets := sets[i := sets[i] + {j}];
      }
      if j !in sets {
        sets := sets[j := {i}];
      } else {
        sets := sets[j := sets[j] + {i}];
      }
      NeighborStep(data, k, before, sets);
    }
    assert data[..|data|] == data;
    adj := map[];
    var rest := sets.Keys;
    while rest != {}
      invariant rest <= sets.Keys
      invariant adj.Keys == sets.Keys - rest
      invariant forall a | a in adj :: Elems(adj[a]) == sets[a] && Distinct(adj[a])
      decreases rest
    {
      Inhabited(rest);
      var a :| a in rest;
      var l := ListOf(sets[a]);
      adj := adj[a := l];
      rest := rest - {a};
    }
  }

  /** One pass of the first loop of `neighbor_actors` extends the map from `k` records to `k + 1`. */
  lemma NeighborStep(data: seq<Record>, k: nat, sets: map<int, set<int>>, sets': map<int, set<int>>)
    requires k < |data|
    requires sets.Keys == Actors(data[..k])
    requires forall a | a in sets :: sets[a] == CoStars(data[..k], a)
    requires var i, j := data[k].0, data[k].1;
      var s1 := if i !in sets then sets[i := {j}] else sets[i := sets[i] + {j}];
      sets' == if j !in s1 then s1[j := {i}] else s1[j := s1[j] + {i}]
    ensures sets'.Keys == Actors(data[..k + 1])
    ensures forall a | a in sets' :: sets'[a] == CoStars(data[..k + 1], a)
  {
    CoStarsStep(data, k, data[k].0);
    forall a | a in sets'
      ensures sets'[a] == CoStars(data[..k + 1], a)
    {
      CoStarsStep(data, k, a);
      CoStarsAreActors(data[..k], a);
    }
  }

  // ---------------------------------------------------------------------------
  // Bacon numbers: levels of a breadth-first search
  // ---------------------------------------------------------------------------

  /** Every co-star of some actor in `s`. */
  function Next(data: seq<Record>, s: set<int>): set<int> {
    set a, b | a in s && b in CoStars(data, a) :: b
  }

  /** The actors whose distance from `root` is less than `k`. */
  function Seen(data: seq<Record>, root: int, k: nat): set<int>
    decreases k, 0
  {
    if k == 0 then {} else Seen(data, root, k - 1) + Frontier(data, root, k - 1)
  }

  /** The actors at distance exactly `k` from `root`: level `k` of the search. */
  function Frontier(data: seq<Record>, root: int, k: nat): set<int>
    decreases k, 1
  {
    if k == 0 then {root} else Next(data, Frontier(data, root, k - 1)) - Seen(data, root, k)
  }

  /** An independent reference: the actors reachable from `root` in at most `k` steps. */
  function Within(data: seq<Record>, root: int, k: nat): set<int> {
    if k == 0 then {root} else Within(data, root, k - 1) + Next(data, Within(data, root, k - 1))
  }

  lemma NextUnion(data: seq<Record>, s: set<int>, t: set<int>)
    ensures Next(data, s + t) == Next(data, s) + Next(data, t)
  {
  }

  lemma NextSingle(data: seq<Record>, a: int)
    ensures Next(data, {a}) == CoStars(data, a)
  {
    forall b | b in CoStars(data, a)
      ensures b in Next(data, {a})
    {
      assert a in {a};
    }
  }

  lemma NextMono(data: seq<Record>, s: set<int>, t: set<int>)
    requires s <= t
    ensures Next(data, s) <= Next(data, t)
  {
  }

  /** Level `k` is disjoint from the earlier levels. */
  lemma FrontierFresh(data: seq<Record>, root: int, k: nat)
    ensures Frontier(data, root, k) !! Seen(data, root, k)
  {
  }

  /** The three recursions, each unfolded once at `k > 0`. */
  lemma Unfold(data: seq<Record>, root: int, k: nat)
    requires k > 0
    ensures Seen(data, root, k) == Seen(data, root, k - 1) + Frontier(data, root, k - 1)
    ensures Frontier(data, root, k) == Next(data, Frontier(data, root, k - 1)) - Seen(data, root, k)
    ensures Within(data, root, k) == Within(data, root, k - 1) + Next(data, Within(data, root, k - 1))
  {
  }

  /**
   * The step of `SeenIsWithin` from `j` to `j + 1`: when the levels up to `j`
   * are the actors within `j` steps (and those up to `j - 1` within `j - 1`),
   * the levels up to `j + 1` are the actors within `j + 1` steps.
   */
  lemma LevelStep(data: seq<Record>, root: int, j: nat)
    requires Seen(data, root, j + 1) == Within(data, root, j)
    requires Frontier(data, root, j) <= Within(data, root, j)
    requires j > 0 ==> Seen(data, root, j) == Within(data, root, j - 1)
    ensures Seen(data, root, j + 1 + 1) == Within(data, root, j + 1)
    ensures Frontier(data, root, j + 1) <= Within(data, root, j + 1)
  {
    var k := j + 1;
    var k1 := k + 1;
    Unfold(data, root, k);
    assert k - 1 == j;
    Unfold(data, root, k1);
    assert k1 - 1 == k;
    var older, w, f := Seen(data, root, j), Within(data, root, j), Frontier(data, root, j);
    // Levels up to j are the actors within j steps.
    assert w == older + f;
    // The co-stars of the older levels are already within j steps.
    if j == 0 {
      assert Next(data, older) == {};
    } else {
      Unfold(data, root, j);
    }
    var nOlder, nf := Next(data, older), Next(data, f);
    assert nOlder <= w;
    NextUnion(data, older, f);
    NextMono(data, f, w);
    assert Within(data, root, k) == w + nf;
    assert Seen(data, root, k1) == w + nf;
  }

  /**
   * The levels are the distance classes: the actors seen before level `k + 1`
   * are those within `k` steps, and level `k` lies within `k` steps.
   */
  lemma {:induction false} SeenIsWithin(data: seq<Record>, root: int, k: nat)
    ensures Seen(data, root, k + 1) == Within(data, root, k)
    ensures Frontier(data, root, k) <= Within(data, root, k)
    ensures k > 0 ==> Seen(data, root, k) == Within(data, root, k - 1)
  {
    if k == 0 {
      var k1 := k + 1;
      assert k1 - 1 == k;
      Unfold(data, root, k1);
    } else {
      var j := k - 1;
      assert j + 1 == k;
      SeenIsWithin(data, root, j);
      LevelStep(data, root, j);
    }
  }

  /** Level `k` holds the actors whose shortest distance from `root` is exactly `k`. */
  lemma FrontierIsDistance(data: seq<Record>, root: int, k: nat)
    ensures Frontier(data, root, k) == Within(data, root, k) - (if k == 0 then {} else Within(data, root, k - 1))
  {
    SeenIsWithin(data, root, k);
    FrontierFresh(data, root, k);
    if k > 0 {
      SeenIsWithin(data, root, k - 1);
    }
  }

  /** Every actor is recorded at one level only. */
  lemma LevelsDisjoint(data: seq<Record>, root: int, j: nat, k: nat)
    requires j < k
    ensures Frontier(data, root, j) !! Frontier(data, root, k)
  {
    SeenUpTo(data, root, j, k);
    FrontierFresh(data, root, k);
  }

  lemma {:induction false} SeenUpTo(data: seq<Record>, root: int, j: nat, k: nat)
    requires j < k
    ensures Frontier(data, root, j) <= Seen(data, root, k)
  {
    if j < k - 1 {
      SeenUpTo(data, root, j, k - 1);
    }
  }

  /** Once a level is empty, every later level is empty too. */
  lemma {:induction false} EmptyFromThen(data: seq<Record>, root: int, j: nat, k: nat)
    requires j <= k
    requires Frontier(data, root, j) == {}
    ensures Frontier(data, root, k) == {}
  {
    if j < k {
      EmptyFromThen(data, root, j, k - 1);
      assert Next(data, Frontier(data, root, k - 1)) == {};
    }
  }

  /**
   * What `actors_with_bacon_number(data, n)` returns: `{4724}` for `n == 0`; a
   * KeyError when 4724 is in no record; Bacon's co-stars for `n == 1`; the
   * actors at distance `n` from Bacon for `n >= 2`, and nothing for `n < 0`.
   */
  function BaconNumber(data: seq<Record>, n: int): Result<set<int>, Error> {
    if n == 0 then Ok({BaconId})
    else if BaconId !in Actors(data) then Err(KeyError)
    else if n == 1 then Ok(CoStars(data, BaconId))
    else if n < 0 then Ok({})
    else Ok(Frontier(data, BaconId, n))
  }

  /** The actors closer to Bacon than `n` steps. */
  function Closer(data: seq<Record>, n: nat): set<int> {
    if n == 0 then {} else Within(data, BaconId, n - 1)
  }

  /**
   * The answer is the set of actors whose shortest co-star distance from
   * Bacon is `n`, except at `n == 1` where an actor who shares a record with
   * himself (Bacon) is returned as well.
   */
  lemma BaconNumberIsDistance(data: seq<Record>, n: int)
    requires BaconId in Actors(data)
    ensures n >= 0 ==> BaconNumber(data, n).Ok?
    ensures n >= 0 ==>
      BaconNumber(data, n).value - {BaconId} == Within(data, BaconId, n) - Closer(data, n) - {BaconId}
    ensures n >= 0 && n != 1 ==>
      BaconNumber(data, n).value == Within(data, BaconId, n) - Closer(data, n)
  {
    if n >= 0 {
      FrontierIsDistance(data, BaconId, n);
      if n == 1 {
        NextSingle(data, BaconId);
      }
    }
  }

  /** A queue of (actor, level) entries, as the search keeps it. */
  type Queue = seq<(int, int)>

  /** The actors queued at level `l`. */
  function AtLevel(queue: Queue, l: int): set<int> {
    set i | 0 <= i < |queue| && queue[i].1 == l :: queue[i].0
  }

  /** The entries `(b, l)` for every `b` of `nbrs`, in order. */
  function Tagged(nbrs: seq<int>, l: int): (q: Queue)
    ensures |q| == |nbrs|
    ensures forall i | 0 <= i < |q| :: q[i] == (nbrs[i], l)
  {
    if nbrs == [] then [] else Tagged(nbrs[..|nbrs| - 1], l) + [(nbrs[|nbrs| - 1], l)]
  }

  lemma AtLevelPop(queue: Queue, l: int)
    requires queue != []
    ensures AtLevel(queue, l) == AtLevel(queue[1..], l) + (if queue[0].1 == l then {queue[0].0} else {})
  {
    var t := queue[1..];
    assert forall i | 0 <= i < |t| :: t[i] == queue[i + 1];
    forall b | b in AtLevel(queue, l)
      ensures b in AtLevel(t, l) || (queue[0].1 == l && b == queue[0].0)
    {
      var i :| 0 <= i < |queue| && queue[i].1 == l && queue[i].0 == b;
      if i > 0 {
        assert t[i - 1] == queue[i];
      }
    }
  }

  lemma AtLevelPush(queue: Queue, nbrs: seq<int>, l: int, m: int)
    ensures AtLevel(queue + Tagged(nbrs, l), m) == AtLevel(queue, m) + (if m == l then Elems(nbrs) else {})
  {
    var q := queue + Tagged(nbrs, l);
    forall b | b in AtLevel(q, m)
      ensures b in AtLevel(queue, m) || (m == l && b in nbrs)
    {
      var i :| 0 <= i < |q| && q[i].1 == m && q[i].0 == b;
      if i >= |queue| {
        assert q[i] == (nbrs[i - |queue|], l);
      } else {
        assert q[i] == queue[i];
      }
    }
    forall b | b in AtLevel(queue, m)
      ensures b in AtLevel(q, m)
    {
      var i :| 0 <= i < |queue| && queue[i].1 == m && queue[i].0 == b;
      assert q[i] == queue[i];
    }
    if m == l {
      forall b | b in nbrs
        ensures b in AtLevel(q, m)
      {
        var i :| 0 <= i < |nbrs| && nbrs[i] == b;
        assert q[|queue| + i] == (b, l);
      }
    }
  }

  /**
   * The shape of the queue while level `lv` is being expanded: level-`lv`
   * entries followed by level-`lv + 1` entries, each naming an actor of the
   * database or Bacon himself.
   */
  ghost predicate QueueShape(data: seq<Record>, queue: Queue, lv: nat) {
    (forall i | 0 <= i < |queue| :: queue[i].1 == lv || queue[i].1 == lv + 1) &&
    (forall i, j | 0 <= i < j < |queue| :: queue[i].1 <= queue[j].1) &&
    (forall i | 0 <= i < |queue| :: queue[i].0 in Actors(data) || queue[i].0 == BaconId)
  }

  /**
   * The levels while level `lv` is being expanded: `done` holds the level-`lv`
   * actors expanded so far, the queued level-`lv` actors cover the rest of the
   * level, and the queued level-`lv + 1` actors are the co-stars of `done`.
   */
  ghost predicate LevelState(data: seq<Record>, queue: Queue, visited: set<int>, lv: nat, done: set<int>) {
    visited == Seen(data, BaconId, lv) + done &&
    done <= Frontier(data, BaconId, lv) &&
    Frontier(data, BaconId, lv) <= done + AtLevel(queue, lv) &&
    AtLevel(queue, lv) <= Seen(data, BaconId, lv) + Frontier(data, BaconId, lv) &&
    AtLevel(queue, lv + 1) == Next(data, done)
  }

  /** `dicts` records every finished level, the current one so far, and aliases `visited` at key 0. */
  ghost predicate DictsState(data: seq<Record>, visited: set<int>, dicts: map<int, set<int>>, lv: nat, done: set<int>) {
    0 in dicts && dicts[0] == visited &&
    (forall l | l in dicts && l != 0 :: 1 <= l <= lv) &&
    (forall l | 1 <= l < lv :: (l in dicts <==> Frontier(data, BaconId, l) != {})) &&
    (forall l | 1 <= l < lv && l in dicts :: dicts[l] == Frontier(data, BaconId, l)) &&
    (lv >= 1 ==> (lv in dicts <==> done != {}) && (lv in dicts ==> dicts[lv] == done))
  }

  ghost predicate SearchState(data: seq<Record>, queue: Queue, visited: set<int>, dicts: map<int, set<int>>, lv: nat, done: set<int>) {
    QueueShape(data, queue, lv) &&
    (BaconId !in Actors(data) ==> queue == [(BaconId, 0)] && visited == {}) &&
    LevelState(data, queue, visited, lv, done) &&
    DictsState(data, visited, dicts, lv, done)
  }

  lemma SearchStart(data: seq<Record>)
    ensures SearchState(data, [(BaconId, 0)], {}, map[0 := {}], 0, {})
  {
    var q: Queue := [(BaconId, 0)];
    assert q[0].0 == BaconId;
    assert AtLevel(q, 0) == {BaconId};
    assert AtLevel(q, 1) == {};
  }

  /** Once the head of the queue is at level `lv + 1`, every entry is. */
  lemma HeadAtNextLevel(data: seq<Record>, queue: Queue, lv: nat)
    requires QueueShape(data, queue, lv)
    requires queue != [] && queue[0].1 == lv + 1
    ensures forall i | 0 <= i < |queue| :: queue[i].1 == lv + 1
    ensures AtLevel(queue, lv) == {} && AtLevel(queue, lv + 2) == {}
    ensures QueueShape(data, queue, lv + 1)
  {
    forall i | 0 <= i < |queue|
      ensures queue[i].1 == lv + 1
    {
      if i > 0 {
        assert queue[0].1 <= queue[i].1;
      }
    }
  }

  /** With no level-`lv` entry left, level `lv` is complete and the levels move on to `lv + 1`. */
  lemma AdvanceLevels(data: seq<Record>, queue: Queue, visited: set<int>, lv: nat, done: set<int>)
    requires LevelState(data, queue, visited, lv, done)
    requires AtLevel(queue, lv) == {} && AtLevel(queue, lv + 2) == {}
    ensures done == Frontier(data, BaconId, lv)
    ensures LevelState(data, queue, visited, lv + 1, {})
  {
    var root := BaconId;
    assert Next(data, {}) == {};
    assert Seen(data, root, lv + 1) == Seen(data, root, lv) + Frontier(data, root, lv);
    assert Frontier(data, root, lv + 1) == Next(data, Frontier(data, root, lv)) - Seen(data, root, lv + 1);
  }

  lemma AdvanceDicts(data: seq<Record>, visited: set<int>, dicts: map<int, set<int>>, lv: nat, done: set<int>)
    requires DictsState(data, visited, dicts, lv, done)
    requires done == Frontier(data, BaconId, lv)
    ensures DictsState(data, visited, dicts, lv + 1, {})
  {
    forall l | 1 <= l < lv + 1
      ensures l in dicts <==> Frontier(data, BaconId, l) != {}
      ensures l in dicts ==> dicts[l] == Frontier(data, BaconId, l)
    {
      if l == lv {
        assert lv >= 1;
      }
    }
    assert lv + 1 !in dicts;
  }

  /** When the queue reaches level `lv + 1`, level `lv` is complete and the search moves on. */
  lemma SearchAdvance(data: seq<Record>, queue: Queue, visited: set<int>, dicts: map<int, set<int>>, lv: nat, done: set<int>)
    requires SearchState(data, queue, visited, dicts, lv, done)
    requires queue != [] && queue[0].1 == lv + 1
    ensures SearchState(data, queue, visited, dicts, lv + 1, {})
  {
    HeadAtNextLevel(data, queue, lv);
    AdvanceLevels(data, queue, visited, lv, done);
    AdvanceDicts(data, visited, dicts, lv, done);
  }

  /** Popping an entry whose actor was already visited keeps the search state. */
  lemma SearchSkip(data: seq<Record>, queue: Queue, visited: set<int>, dicts: map<int, set<int>>, lv: nat, done: set<int>)
    requires SearchState(data, queue, visited, dicts, lv, done)
    requires queue != [] && queue[0].1 == lv && queue[0].0 in visited
    ensures SearchState(data, queue[1..], visited, dicts, lv, done)
  {
    var root := BaconId;
    AtLevelPop(queue, lv);
    AtLevelPop(queue, lv + 1);
    FrontierFresh(data, root, lv);
    var t := queue[1..];
    assert forall i | 0 <= i < |t| :: t[i] == queue[i + 1];
  }

  /** Popping the head and queueing co-stars at level `lv + 1` keeps the queue's shape. */
  lemma PushShape(data: seq<Record>, queue: Queue, lv: nat, nbrs: seq<int>)
    requires QueueShape(data, queue, lv)
    requires queue != [] && queue[0].1 == lv
    requires Elems(nbrs) <= Actors(data)
    ensures QueueShape(data, queue[1..] + Tagged(nbrs, lv + 1), lv)
  {
    var q := queue[1..] + Tagged(nbrs, lv + 1);
    forall i | 0 <= i < |q|
      ensures q[i].0 in Actors(data) || q[i].0 == BaconId
      ensures q[i].1 == lv || q[i].1 == lv + 1
    {
      if i < |queue| - 1 {
        assert q[i] == queue[i + 1];
      } else {
        assert q[i] == (nbrs[i - (|queue| - 1)], lv + 1);
      }
    }
    forall i, j | 0 <= i < j < |q|
      ensures q[i].1 <= q[j].1
    {
      if j < |queue| - 1 {
        assert q[i] == queue[i + 1] && q[j] == queue[j + 1];
      } else if i < |queue| - 1 {
        assert q[i] == queue[i + 1];
      }
    }
  }

  /** Popping the level-`lv` head removes it from level `lv`; queueing co-stars adds them to level `lv + 1`. */
  lemma PopPush(queue: Queue, nbrs: seq<int>, lv: int)
    requires queue != [] && queue[0].1 == lv
    ensures AtLevel(queue, lv) == AtLevel(queue[1..] + Tagged(nbrs, lv + 1), lv) + {queue[0].0}
    ensures AtLevel(queue[1..] + Tagged(nbrs, lv + 1), lv + 1) == AtLevel(queue, lv + 1) + Elems(nbrs)
  {
    AtLevelPop(queue, lv);
    AtLevelPop(queue, lv + 1);
    AtLevelPush(queue[1..], nbrs, lv + 1, lv);
    AtLevelPush(queue[1..], nbrs, lv + 1, lv + 1);
  }

  /** Visiting a new level-`lv` actor `b` and queueing its co-stars keeps the levels. */
  lemma VisitLevels(data: seq<Record>, queue: Queue, visited: set<int>, lv: nat, done: set<int>, nbrs: seq<int>)
    requires LevelState(data, queue, visited, lv, done)
    requires queue != [] && queue[0].1 == lv && queue[0].0 !in visited
    requires Elems(nbrs) == CoStars(data, queue[0].0)
    ensures queue[0].0 in Frontier(data, BaconId, lv)
    ensures LevelState(data, queue[1..] + Tagged(nbrs, lv + 1), visited + {queue[0].0}, lv, done + {queue[0].0})
  {
    var b := queue[0].0;
    PopPush(queue, nbrs, lv);
    assert b in AtLevel(queue, lv);
    NextUnion(data, done, {b});
    NextSingle(data, b);
  }

  /** Recording a new level-`lv` actor `b` in `visited` and `dicts` keeps the record of levels. */
  lemma VisitDicts(data: seq<Record>, visited: set<int>, dicts: map<int, set<int>>, lv: nat, done: set<int>, b: int, dicts': map<int, set<int>>)
    requires DictsState(data, visited, dicts, lv, done)
    requires dicts' == (if lv in dicts then dicts[lv := dicts[lv] + {b}] else dicts[lv := {b}])[0 := visited + {b}]
    ensures DictsState(data, visited + {b}, dicts', lv, done + {b})
  {
  }

  /**
   * Popping an entry `(b, lv)` whose actor is new: `b` is at level `lv`, it
   * joins `visited` and `dicts[lv]`, and its co-stars are queued at `lv + 1`.
   */
  lemma SearchVisit(data: seq<Record>, queue: Queue, visited: set<int>, dicts: map<int, set<int>>, lv: nat, done: set<int>,
                    dicts': map<int, set<int>>, nbrs: seq<int>)
    requires SearchState(data, queue, visited, dicts, lv, done)
    requires queue != [] && queue[0].1 == lv && queue[0].0 !in visited
    requires queue[0].0 in Actors(data)
    requires dicts' == (if lv in dicts then dicts[lv := dicts[lv] + {queue[0].0}] else dicts[lv := {queue[0].0}])[0 := visited + {queue[0].0}]
    requires Elems(nbrs) == CoStars(data, queue[0].0)
    ensures SearchState(data, queue[1..] + Tagged(nbrs, lv + 1), visited + {queue[0].0}, dicts', lv, done + {queue[0].0})
  {
    CoStarsAreActors(data, queue[0].0);
    PushShape(data, queue, lv, nbrs);
    VisitLevels(data, queue, visited, lv, done, nbrs);
    VisitDicts(data, visited, dicts, lv, done, queue[0].0, dicts');
  }

  /**
   * The head of the queue is at the current level, and an actor that is not
   * in the neighbour map can only be Bacon, popped first, when no record names him.
   */
  lemma SearchHead(data: seq<Record>, queue: Queue, visited: set<int>, dicts: map<int, set<int>>, lv: nat, done: set<int>)
    requires SearchState(data, queue, visited, dicts, lv, done)
    requires queue != [] && queue[0].1 != lv + 1
    ensures queue[0].1 == lv
    ensures queue[0].0 !in Actors(data) ==> queue[0].0 == BaconId && BaconId !in Actors(data) && queue[0].0 !in visited
  {
  }

  /** With the queue empty, Bacon is in the database and `dicts` answers every level other than 0. */
  lemma SearchDone(data: seq<Record>, visited: set<int>, dicts: map<int, set<int>>, lv: nat, done: set<int>, n: int)
    requires SearchState(data, [], visited, dicts, lv, done)
    requires n != 0
    ensures BaconId in Actors(data)
    ensures (if n in dicts then dicts[n] else {}) == (if n < 0 then {} else Frontier(data, BaconId, n))
  {
    var root := BaconId;
    if n < 0 {
      assert n !in dicts;
      return;
    }
    assert AtLevel([], lv) == {} && AtLevel([], lv + 1) == {};
    assert done == Frontier(data, root, lv);
    if n > lv {
      assert Frontier(data, root, lv + 1) == Next(data, Frontier(data, root, lv)) - Seen(data, root, lv + 1);
      EmptyFromThen(data, root, lv + 1, n);
    }
  }

  /** The loop appending `(b, l)` to the queue for every neighbour `b`, in order. */
  method Enqueue(queue: Queue, nbrs: seq<int>, l: int) returns (q: Queue)
    ensures q == queue + Tagged(nbrs, l)
  {
    q := queue;
    for t := 0 to |nbrs|
      invariant q == queue + Tagged(nbrs[..t], l)
    {
      assert nbrs[..t + 1][..t] == nbrs[..t];
      q := q + [(nbrs[t], l)];
    }
    assert nbrs[..|nbrs|] == nbrs;
  }

  /**
   * One turn of the search loop, at current level `lv`: pop the head `(b, l)`;
   * an actor already visited is dropped, a new one joins `visited` and
   * `dicts[l]` and its co-stars are queued at `l + 1`. `missing` reports the
   * lookup of a new actor that the neighbour map does not hold.
   */
  method SearchStep(data: seq<Record>, adj: map<int, seq<int>>, queue: Queue, visited: set<int>,
                    dicts: map<int, set<int>>, ghost lv: nat, ghost done: set<int>)
    returns (queue': Queue, visited': set<int>, dicts': map<int, set<int>>, ghost done': set<int>, missing: bool)
    requires adj.Keys == Actors(data)
    requires forall a | a in adj :: Elems(adj[a]) == CoStars(data, a)
    requires SearchState(data, queue, visited, dicts, lv, done)
    requires queue != [] && queue[0].1 != lv + 1
    ensures missing <==> queue[0].0 !in visited && queue[0].0 !in adj
    ensures missing ==> BaconId !in Actors(data)
    ensures !missing ==> SearchState(data, queue', visited', dicts', lv, done')
    ensures !missing && queue[0].0 in visited ==> visited' == visited && |queue'| < |queue|
    ensures !missing && queue[0].0 !in visited ==> queue[0].0 in adj && visited' == visited + {queue[0].0}
  {
    SearchHead(data, queue, visited, dicts, lv, done);
    var entry := queue[0];
    queue' := queue[1..];
    var b, l := entry.0, entry.1;
    assert b == queue[0].0 && l == lv;
    if b !in visited {
      queue', visited', dicts', done', missing := Visit(data, adj, queue', b, l, visited, dicts, queue, done);
    } else {
      visited', dicts', done', missing := visited, dicts, done, false;
      SearchSkip(data, queue, visited, dicts, l, done);
    }
  }

  /**
   * The turn for an actor `b` not yet visited, popped at level `l` with `rest`
   * left in the queue: `b` joins `visited` and `dicts[l]` (and `dicts[0]`,
   * the same set as `visited`), then its co-stars are queued at `l + 1`.
   */
  method Visit(data: seq<Record>, adj: map<int, seq<int>>, rest: Queue, b: int, l: nat, visited: set<int>,
               dicts: map<int, set<int>>, ghost queue: Queue, ghost done: set<int>)
    returns (queue': Queue, visited': set<int>, dicts': map<int, set<int>>, ghost done': set<int>, missing: bool)
    requires adj.Keys == Actors(data)
    requires forall a | a in adj :: Elems(adj[a]) == CoStars(data, a)
    requires SearchState(data, queue, visited, dicts, l, done)
    requires queue != [] && queue[0] == (b, l) && rest == queue[1..] && b !in visited
    ensures missing <==> b !in adj
    ensures visited' == visited + {b}
    ensures !missing ==> SearchState(data, queue', visited', dicts', l, done')
  {
    queue', visited', done', missing := rest, visited + {b}, done, false;
    if l !in dicts {
      dicts' := dicts[l := {b}];
    } else {
      dicts' := dicts[l := dicts[l] + {b}];
    }
    dicts' := dicts'[0 := visited'];
    if b !in adj {
      missing := true;
      return;
    }
    var nbrs := adj[b];
    queue' := Enqueue(queue', nbrs, l + 1);
    SearchVisit(data, queue, visited, dicts, l, done, dicts', nbrs);
    done' := done + {b};
  }


  /**
   * `actors_with_bacon_number`: the neighbour map is built first; levels 0 and
   * 1 are answered directly, and every other level by a first-in first-out
   * search from Bacon that records each actor at the level it is first popped.
   * As in the original, `dicts[0]` is the very set `visited`.
   */
  method ActorsWithBaconNumber(data: seq<Record>, n: int) returns (r: Result<set<int>, Error>)
    ensures r == BaconNumber(data, n)
  {
    var adj := NeighborActors(data);
    if n == 0 {
      return Ok({BaconId});
    } else if n == 1 {
      if BaconId !in adj {
        return Err(KeyError);
      }
      return Ok(Elems(adj[BaconId]));
    }
    var queue: Queue := [(BaconId, 0)];
    var visited: set<int> := {};
    var dicts: map<int, set<int>> := map[0 := visited];
    ghost var lv: nat, done: set<int> := 0, {};
    SearchStart(data);
    while queue != []
      invariant SearchState(data, queue, visited, dicts, lv, done)
      decreases (adj.Keys + {BaconId}) - visited, |queue|
    {
      if queue[0].1 == lv + 1 {
        SearchAdvance(data, queue, visited, dicts, lv, done);
        lv, done := lv + 1, {};
      }
      var missing: bool;
      queue, visited, dicts, done, missing := SearchStep(data, adj, queue, visited, dicts, lv, done);
      if missing {
        return Err(KeyError);
      }
    }
    if n !in dicts {
      r := Ok({});
    } else {
      r := Ok(dicts[n]);
    }
    SearchDone(data, visited, dicts, lv, done, n);
  }

  // ---------------------------------------------------------------------------
  // path_helper, get_movie_name, actor_path
  // ---------------------------------------------------------------------------

  /** Following `k` parent links from `c` ends at an actor whose parent is None. */
  ghost predicate Reaches(parents: map<int, Option<int>>, c: int, k: nat)
    decreases k
  {
    c in parents && (if parents[c].None? then k == 0 else k > 0 && Reaches(parents, parents[c].value, k - 1))
  }

  /**
   * `path_helper`: the parent chain from the root down to `child`. The chain
   * must end, after `depth` links, at an actor whose parent is None.
   */
  method PathHelper(child: int, parents: map<int, Option<int>>, ghost depth: nat) returns (path: seq<int>)
    requires Reaches(parents, child, depth)
    ensures |path| == depth + 1
    ensures path[|path| - 1] == child
    ensures path[0] in parents && parents[path[0]] == None
    ensures forall i | 1 <= i < |path| :: path[i] in parents && parents[path[i]] == Some(path[i - 1])
  {
    var up: seq<int> := [];
    var cur: Option<int> := Some(child);
    while cur.Some?
      invariant |up| <= depth + 1
      invariant cur.Some? ==> |up| <= depth && Reaches(parents, cur.value, depth - |up|)
      invariant cur.None? ==> |up| == depth + 1
      invariant up != [] ==> up[0] == child
      invariant forall i | 0 <= i < |up| - 1 :: up[i] in parents && parents[up[i]] == Some(up[i + 1])
      invariant up != [] ==> up[|up| - 1] in parents && parents[up[|up| - 1]] == cur
      invariant up == [] ==> cur == Some(child)
      decreases depth + 1 - |up|
    {
      up := up + [cur.value];
      cur := parents[cur.value];
    }
    path := Reversed(up);
  }

  /** Record `i` is the last one naming its pair of actors. */
  ghost predicate LastForPair(data: seq<Record>, i: int, k: int)
    requires 0 <= i < k <= |data|
  {
    forall j | i < j < k :: Pair(data[j]) != Pair(data[i])
  }

  /** `get_movie_name`: every pair of actors that share a record maps to the film of the last such record. */
  method GetMovieName(data: seq<Record>) returns (out: map<set<int>, int>)
    ensures out.Keys == set i | 0 <= i < |data| :: Pair(data[i])
    ensures forall i | 0 <= i < |data| && LastForPair(data, i, |data|) :: out[Pair(data[i])] == data[i].2
  {
    out := map[];
    for k := 0 to |data|
      invariant out.Keys == set i | 0 <= i < k :: Pair(data[i])
      invariant forall i | 0 <= i < k && LastForPair(data, i, k) :: out[Pair(data[i])] == data[i].2
    {
      out := out[Pair(data[k]) := data[k].2];
      forall i | 0 <= i < k + 1 && LastForPair(data, i, k + 1)
        ensures out[Pair(data[i])] == data[i].2
      {
        if i < k {
          assert LastForPair(data, i, k);
          assert Pair(data[k]) != Pair(data[i]);
        }
      }
    }
  }

  /**
   * `actor_path` as far as it can run: `[start]` when `start` meets the goal;
   * otherwise a KeyError for an actor in no record and, for any other, the
   * NameError of its call to the missing helper.
   */
  function ActorPath(data: seq<Record>, start: int, goal: int -> bool): (r: Result<seq<int>, Error>)
    ensures r.Ok? <==> goal(start)
    ensures r.Ok? ==> r.value == [start]
    ensures r.Err? ==> (r.error == KeyError <==> start !in Actors(data))
  {
    if goal(start) then Ok([start])
    else if start !in Actors(data) then Err(KeyError)
    else Err(NameError)
  }

  /** `actor_to_actor_path`: the path search with the goal "is `b`". */
  function ActorToActorPath(data: seq<Record>, a: int, b: int): (r: Result<seq<int>, Error>)
    ensures r.Ok? <==> a == b
    ensures a == b ==> r == Ok([a])
  {
    ActorPath(data, a, p => p == b)
  }

  /** `bacon_path`: the path from Bacon to `id`. */
  function BaconPath(data: seq<Record>, id: int): (r: Result<seq<int>, Error>)
    ensures r.Ok? <==> id == BaconId
    ensures r.Ok? ==> r.value == [BaconId]
  {
    ActorToActorPath(data, BaconId, id)
  }
}
