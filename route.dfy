/** Route graph extraction (src/xml/route/mod.rs): the route group is found
    by the offset-accumulating walk, its circle children become the route's
    points, each two-vertex path child becomes a connection between the two
    points nearest to its ends, and the connections are indexed in an
    adjacency map. Every panic of the source is a `Failure` here. */
module Route {
  import opened Wrappers
  import opened Document
  import opened Vectors
  import opened XmlIterator
  import opened MapSums

  datatype Connection = Connection(i1: nat, i2: nat)

  datatype Route = Route(
    start: nat,
    points: seq<Vec2>,
    connectionsDict: map<nat, seq<nat>>,
    connections: seq<Connection>)

  /** Why `parse_route` stops: one constructor per kind of failure among
      its `expect`, `unwrap`, `panic!` and out-of-bounds index calls. */
  datatype RouteError =
    | NoRouteGroup        // no `g` labelled "Route"
    | MissingCoordinate   // a circle without `cx` or `cy`
    | BadCoordinate       // a `cx` or `cy` that is not a number
    | MissingPathData     // a path without `d`, or whose `d` has no sub-path
    | TooManyVertices     // a path with more than two vertices
    | TooFewVertices      // a path with fewer than two vertices
    | NoPoints            // a path to snap, but no circle to snap it to

  // ---------------------------------------------------------------------
  // The route group

  predicate IsRouteGroup(n: Node) {
    n.tag == "g" && Label(n) == Some("Route")
  }

  /** Position `i` of the walk holds the first route group. */
  predicate FirstRouteGroupAt(items: seq<(Node, Offset)>, i: int) {
    && 0 <= i < |items|
    && IsRouteGroup(items[i].0)
    && forall j :: 0 <= j < i ==> !IsRouteGroup(items[j].0)
  }

  /** `root.iter().find(...)`: drives the iterator until a route group comes. */
  method FindRouteGroup(root: Node) returns (found: Option<(Node, Offset)>)
    ensures found.None? <==> forall i :: 0 <= i < |Descendants(root)| ==> !IsRouteGroup(Descendants(root)[i].0)
    ensures found.Some? ==> exists i :: FirstRouteGroupAt(Descendants(root), i) && Descendants(root)[i] == found.value
  {
    var it := new XmlIterator(root);
    ghost var items := Descendants(root);
    ghost var n := 0;
    while true
      invariant n <= |items| && it.Pending() == items[n..]
      invariant forall j :: 0 <= j < n ==> !IsRouteGroup(items[j].0)
      decreases |it.Pending()|
    {
      ghost var pending := it.Pending();
      var next := it.Next();
      match next {
        case None =>
          assert n == |items|;
          return None;
        case Some(item) =>
          assert item == items[n];
          if IsRouteGroup(item.0) {
            assert FirstRouteGroupAt(items, n);
            return Some(item);
          }
          assert it.Pending() == items[n + 1..];
          n := n + 1;
      }
    }
  }

  // ---------------------------------------------------------------------
  // Points

  /** `children().filter(|n| n.tag_name().name() == tag)`, in document order. */
  function Tagged(ns: seq<Node>, tag: string): (r: seq<Node>)
    ensures forall n :: n in r <==> n in ns && n.tag == tag
  {
    if ns == [] then []
    else (if ns[0].tag == tag then [ns[0]] else []) + Tagged(ns[1..], tag)
  }

  /** A single child is kept exactly when it has the tag... */
  lemma TaggedOne(n: Node, tag: string)
    ensures Tagged([n], tag) == if n.tag == tag then [n] else []
  {
    assert [n][1..] == [];
  }

  /** ...and the filter works piecewise, so it keeps document order and
      every occurrence. */
  lemma {:induction false} TaggedConcat(a: seq<Node>, b: seq<Node>, tag: string)
    ensures Tagged(a + b, tag) == Tagged(a, tag) + Tagged(b, tag)
  {
    if a == [] {
      assert a + b == b;
    } else {
      assert (a + b)[0] == a[0];
      assert (a + b)[1..] == a[1..] + b;
      TaggedConcat(a[1..], b, tag);
    }
  }

  function Circles(group: Node): seq<Node> {
    Tagged(group.children, "circle")
  }

  function PathNodes(group: Node): seq<Node> {
    Tagged(group.children, "path")
  }

  /** `n.attribute(name).unwrap().parse::<f64>().unwrap()` */
  function Coordinate(n: Node, name: string): Result<real, RouteError> {
    match Attr(n, name)
    case None => Failure(MissingCoordinate)
    case Some(a) =>
      match a.number
      case None => Failure(BadCoordinate)
      case Some(v) => Success(v)
  }

  /** `transform.apply(v)`: the walk's offset added to `v`. */
  function Shift(offset: Offset, v: Vec2): Vec2 {
    Add(v, Vec2(offset.0, offset.1))
  }

  function CirclePoint(n: Node, offset: Offset): Result<Vec2, RouteError> {
    match Coordinate(n, "cx")
    case Failure(e) => Failure(e)
    case Success(x) =>
      match Coordinate(n, "cy")
      case Failure(e) => Failure(e)
      case Success(y) => Success(Shift(offset, Vec2(x, y)))
  }

  predicate HasCoordinates(n: Node) {
    Number(n, "cx").Some? && Number(n, "cy").Some?
  }

  /** The route's points: one per circle child of the group, in document
      order, each its `(cx, cy)` moved by the group's offset. */
  function Points(group: Node, offset: Offset): (r: Result<seq<Vec2>, RouteError>)
    ensures r.Success? <==> forall i :: 0 <= i < |Circles(group)| ==> HasCoordinates(Circles(group)[i])
    ensures r.Success? ==>
      && |r.value| == |Circles(group)|
      && forall i :: 0 <= i < |Circles(group)| ==>
           r.value[i] == Vec2(Number(Circles(group)[i], "cx").value + offset.0,
                              Number(Circles(group)[i], "cy").value + offset.1)
    ensures r.Failure? ==> r.error == MissingCoordinate || r.error == BadCoordinate
  {
    var circles := Circles(group);
    var f := (n: Node) => CirclePoint(n, offset);
    forall i | 0 <= i < |circles|
      ensures f(circles[i]).Success? <==> HasCoordinates(circles[i])
      ensures f(circles[i]).Success? ==> f(circles[i]).value == Vec2(Number(circles[i], "cx").value + offset.0,
                                                                   Number(circles[i], "cy").value + offset.1)
      ensures f(circles[i]).Failure? ==> f(circles[i]).error == MissingCoordinate || f(circles[i]).error == BadCoordinate
    {
      CirclePointMeaning(circles[i], offset);
    }
    MapAll(circles, f)
  }

  lemma CirclePointMeaning(n: Node, offset: Offset)
    ensures CirclePoint(n, offset).Success? <==> HasCoordinates(n)
    ensures CirclePoint(n, offset).Success? ==>
      CirclePoint(n, offset).value == Vec2(Number(n, "cx").value + offset.0, Number(n, "cy").value + offset.1)
    ensures CirclePoint(n, offset).Failure? ==>
      CirclePoint(n, offset).error == MissingCoordinate || CirclePoint(n, offset).error == BadCoordinate
  {
  }

  predicate IsStart(n: Node) {
    Label(n) == Some("start")
  }

  /** `start` is the index of the last circle labelled "start", and 0 when
      there is none. */
  predicate StartOf(circles: seq<Node>, start: nat) {
    && ((exists i :: 0 <= i < |circles| && IsStart(circles[i])) ==>
          && start < |circles|
          && IsStart(circles[start])
          && forall j :: start < j < |circles| ==> !IsStart(circles[j]))
    && ((forall i :: 0 <= i < |circles| ==> !IsStart(circles[i])) ==> start == 0)
  }

  /** The `start_index` the point closure overwrites as it goes. */
  method StartIndex(circles: seq<Node>) returns (start: nat)
    ensures StartOf(circles, start)
  {
    start := 0;
    for i := 0 to |circles|
      invariant start <= i
      invariant i > 0 ==> start < i
      invariant start != 0 ==> IsStart(circles[start])
      invariant forall j :: start < j < i ==> !IsStart(circles[j])
    {
      if IsStart(circles[i]) {
        start := i;
      }
    }
  }

  // ---------------------------------------------------------------------
  // Snapping a path end to the nearest point

  /** `index` is where `reduce` with the strict `<` lands: a point at the
      least squared distance from `q`, and of those the last one. */
  predicate IsNearest(points: seq<Vec2>, q: Vec2, index: int) {
    && 0 <= index < |points|
    && (forall j :: 0 <= j < |points| ==> DistanceSqr(points[index], q) <= DistanceSqr(points[j], q))
    && (forall j :: index < j < |points| ==> DistanceSqr(points[index], q) < DistanceSqr(points[j], q))
  }

  /** The `enumerate().reduce(...)` over the points. */
  function Nearest(points: seq<Vec2>, q: Vec2): (r: nat)
    requires |points| > 0
    ensures IsNearest(points, q, r)
  {
    NearestAmong(points, q, |points|)
  }

  /** The reduce after it has folded in the first `n` points. */
  function NearestAmong(points: seq<Vec2>, q: Vec2, n: nat): (r: nat)
    requires 0 < n <= |points|
    ensures IsNearest(points[..n], q, r)
  {
    if n == 1 then 0
    else
      var acc := NearestAmong(points, q, n - 1);
      assert points[..n - 1][acc] == points[acc];
      assert forall j :: 0 <= j < n - 1 ==> points[..n - 1][j] == points[..n][j];
      if DistanceSqr(points[acc], q) < DistanceSqr(points[n - 1], q) then acc else n - 1
  }

  /** The tie rule pins the answer down: no other index is nearest. */
  lemma NearestUnique(points: seq<Vec2>, q: Vec2, a: int, b: int)
    requires IsNearest(points, q, a)
    requires 0 <= b < |points| && b != a
    ensures !IsNearest(points, q, b)
  {
    if b < a {
      assert DistanceSqr(points[a], q) <= DistanceSqr(points[b], q);
    } else {
      assert DistanceSqr(points[a], q) < DistanceSqr(points[b], q);
    }
  }

  /** A path's endpoint, `(x, y)` of its vertex moved by the group offset. */
  function Vertex(offset: Offset, v: (real, real)): Vec2 {
    Shift(offset, Vec2(v.0, v.1))
  }

  /** The connection a path child yields, or why it panics. */
  function PathConnection(n: Node, points: seq<Vec2>, offset: Offset): (r: Result<Connection, RouteError>)
    ensures r.Success? <==> n.subpath.Some? && |n.subpath.value| == 2 && |points| > 0
    ensures r.Success? ==>
      && IsNearest(points, Vertex(offset, n.subpath.value[0]), r.value.i1)
      && IsNearest(points, Vertex(offset, n.subpath.value[1]), r.value.i2)
    ensures n.subpath.None? ==> r == Failure(MissingPathData)
    ensures n.subpath.Some? && |n.subpath.value| > 2 ==> r == Failure(TooManyVertices)
    ensures n.subpath.Some? && |n.subpath.value| < 2 ==> r == Failure(TooFewVertices)
    ensures r.Failure? ==> r.error != NoRouteGroup
  {
    match n.subpath
    case None => Failure(MissingPathData)
    case Some(path) =>
      if |path| > 2 then Failure(TooManyVertices)
      else if |path| < 2 then Failure(TooFewVertices)
      else
        var start := Vertex(offset, path[0]);
        var end := Vertex(offset, path[1]);
        if |points| == 0 then Failure(NoPoints)
        else Success(Connection(Nearest(points, start), Nearest(points, end)))
  }

  /** The connections: one per path child, in document order, both ends
      indices of points. */
  function Connections(group: Node, points: seq<Vec2>, offset: Offset): (r: Result<seq<Connection>, RouteError>)
    ensures r.Success? <==>
      && (forall i :: 0 <= i < |PathNodes(group)| ==>
            PathNodes(group)[i].subpath.Some? && |PathNodes(group)[i].subpath.value| == 2)
      && (|PathNodes(group)| > 0 ==> |points| > 0)
    ensures r.Success? ==>
      && |r.value| == |PathNodes(group)|
      && forall i :: 0 <= i < |r.value| ==> r.value[i].i1 < |points| && r.value[i].i2 < |points|
    ensures r.Success? ==> forall i :: 0 <= i < |r.value| ==>
      && IsNearest(points, Vertex(offset, PathNodes(group)[i].subpath.value[0]), r.value[i].i1)
      && IsNearest(points, Vertex(offset, PathNodes(group)[i].subpath.value[1]), r.value[i].i2)
    ensures r.Failure? ==> r.error != NoRouteGroup
  {
    var f := (n: Node) => PathConnection(n, points, offset);
    var r := MapAll(PathNodes(group), f);
    assert r.Success? ==> forall i :: 0 <= i < |PathNodes(group)| ==> f(PathNodes(group)[i]).Success?;
    assert |PathNodes(group)| > 0 ==> f(PathNodes(group)[0]).Success? ==> |points| > 0;
    r
  }

  /** Without points, every path child is fatal. */
  lemma PathsNeedPoints(group: Node, offset: Offset)
    requires |PathNodes(group)| > 0
    ensures Connections(group, [], offset).Failure?
  {
  }

  // ---------------------------------------------------------------------
  // The adjacency map

  /** What one connection contributes to the list of key `k`: the far end
      for each of its ends that is `k`, start end first. */
  function Own(c: Connection, k: nat): seq<nat> {
    (if c.i1 == k then [c.i2] else []) + (if c.i2 == k then [c.i1] else [])
  }

  /** The neighbours of `k` in connection order, repeats kept. */
  function Neighbours(cs: seq<Connection>, k: nat): seq<nat> {
    if cs == [] then [] else Neighbours(cs[..|cs| - 1], k) + Own(cs[|cs| - 1], k)
  }

  function Endpoints(cs: seq<Connection>): set<nat> {
    (set c | c in cs :: c.i1) + (set c | c in cs :: c.i2)
  }

  /** The adjacency map a list of connections describes. */
  function Adjacency(cs: seq<Connection>): map<nat, seq<nat>> {
    map k | k in Endpoints(cs) :: Neighbours(cs, k)
  }

  /** `get_mut(key)` and push, or insert a one-element list. */
  function Push(dict: map<nat, seq<nat>>, key: nat, v: nat): map<nat, seq<nat>> {
    if key in dict then dict[key := dict[key] + [v]] else dict[key := [v]]
  }

  ghost function Lengths(dict: map<nat, seq<nat>>): map<nat, nat> {
    map k | k in dict :: |dict[k]|
  }

  /** The `for_each` that pushes into, or inserts, both ends' lists. */
  method BuildAdjacency(connections: seq<Connection>) returns (dict: map<nat, seq<nat>>)
    ensures dict == Adjacency(connections)
  {
    dict := map[];
    assert connections[..0] == [];
    for i := 0 to |connections|
      invariant dict == Adjacency(connections[..i])
    {
      var c := connections[i];
      if c.i1 in dict {
        dict := dict[c.i1 := dict[c.i1] + [c.i2]];
      } else {
        dict := dict[c.i1 := [c.i2]];
      }
      if c.i2 in dict {
        dict := dict[c.i2 := dict[c.i2] + [c.i1]];
      } else {
        dict := dict[c.i2 := [c.i1]];
      }
      assert connections[..i + 1] == connections[..i] + [c];
      AdjacencySnoc(connections[..i], c);
    }
    assert connections[..|connections|] == connections;
  }

  /** Appending a connection `(a, b)` pushes `b` onto `a`'s list, then `a`
      onto `b`'s. */
  lemma AdjacencySnoc(cs: seq<Connection>, c: Connection)
    ensures Adjacency(cs + [c]) == Push(Push(Adjacency(cs), c.i1, c.i2), c.i2, c.i1)
  {
    var after := Push(Push(Adjacency(cs), c.i1, c.i2), c.i2, c.i1);
    EndpointsSnoc(cs, c);
    PushKeys(Adjacency(cs), c.i1, c.i2);
    PushKeys(Push(Adjacency(cs), c.i1, c.i2), c.i2, c.i1);
    assert Adjacency(cs + [c]).Keys == after.Keys;
    forall k | k in after
      ensures Adjacency(cs + [c])[k] == after[k]
    {
      PushedList(cs, c, k);
      NeighboursSnoc(cs, c, k);
    }
  }

  /** The list of `k` after both pushes is its old list followed by what the
      new connection contributes. */
  lemma PushedList(cs: seq<Connection>, c: Connection, k: nat)
    requires k in Push(Push(Adjacency(cs), c.i1, c.i2), c.i2, c.i1)
    ensures Push(Push(Adjacency(cs), c.i1, c.i2), c.i2, c.i1)[k] == Neighbours(cs, k) + Own(c, k)
  {
    var before := Adjacency(cs);
    var middle := Push(before, c.i1, c.i2);
    PushAt(before, c.i1, c.i2, k);
    PushAt(middle, c.i2, c.i1, k);
    if k !in before {
      NeighboursOfOthers(cs, k);
    }
  }

  lemma PushKeys(dict: map<nat, seq<nat>>, key: nat, v: nat)
    ensures Push(dict, key, v).Keys == dict.Keys + {key}
  {
  }

  lemma PushAt(dict: map<nat, seq<nat>>, key: nat, v: nat, k: nat)
    ensures k in Push(dict, key, v) <==> k in dict || k == key
    ensures k in Push(dict, key, v) ==>
      Push(dict, key, v)[k] == (if k in dict then dict[k] else []) + (if k == key then [v] else [])
  {
  }

  lemma EndpointsSnoc(cs: seq<Connection>, c: Connection)
    ensures Endpoints(cs + [c]) == Endpoints(cs) + {c.i1, c.i2}
  {
    var cs' := cs + [c];
    assert forall x :: x in cs' <==> x in cs || x == c;
  }

  lemma NeighboursSnoc(cs: seq<Connection>, c: Connection, k: nat)
    ensures Neighbours(cs + [c], k) == Neighbours(cs, k) + Own(c, k)
  {
    assert (cs + [c])[..|cs|] == cs;
  }

  /** Only an endpoint has neighbours. */
  lemma {:induction false} NeighboursOfOthers(cs: seq<Connection>, k: nat)
    ensures Neighbours(cs, k) != [] <==> k in Endpoints(cs)
  {
    if cs != [] {
      var init, c := cs[..|cs| - 1], cs[|cs| - 1];
      assert cs == init + [c];
      assert Endpoints(cs) == Endpoints(init) + {c.i1, c.i2};
      NeighboursOfOthers(init, k);
    }
  }

  /** `b` is listed under `a` exactly when some connection joins them. */
  lemma {:induction false} NeighbourMembership(cs: seq<Connection>, a: nat, b: nat)
    ensures b in Neighbours(cs, a) <==>
      exists i :: 0 <= i < |cs| && ((cs[i].i1 == a && cs[i].i2 == b) || (cs[i].i2 == a && cs[i].i1 == b))
  {
    if cs != [] {
      var init := cs[..|cs| - 1];
      NeighbourMembership(init, a, b);
      assert forall i :: 0 <= i < |init| ==> init[i] == cs[i];
    }
  }

  /** Symmetry: `b` is listed under `a` as often as `a` under `b`. */
  lemma {:induction false} NeighboursSymmetric(cs: seq<Connection>, a: nat, b: nat)
    ensures multiset(Neighbours(cs, a))[b] == multiset(Neighbours(cs, b))[a]
  {
    if cs != [] {
      var init, c := cs[..|cs| - 1], cs[|cs| - 1];
      NeighboursSymmetric(init, a, b);
      assert multiset(Neighbours(cs, a)) == multiset(Neighbours(init, a)) + multiset(Own(c, a));
      assert multiset(Neighbours(cs, b)) == multiset(Neighbours(init, b)) + multiset(Own(c, b));
      OwnSymmetric(c, a, b);
    }
  }

  lemma OwnSymmetric(c: Connection, a: nat, b: nat)
    ensures multiset(Own(c, a))[b] == multiset(Own(c, b))[a]
  {
  }

  /** A push lengthens one list by one. */
  lemma PushTotal(dict: map<nat, seq<nat>>, key: nat, v: nat)
    ensures Total(Lengths(Push(dict, key, v))) == Total(Lengths(dict)) + 1
  {
    var l := Lengths(dict);
    var s := if key in dict then dict[key] + [v] else [v];
    assert Push(dict, key, v) == dict[key := s];
    LengthsUpdate(dict, key, s);
    TotalUpdate(l, key, |s|);
  }

  lemma LengthsUpdate(dict: map<nat, seq<nat>>, key: nat, s: seq<nat>)
    ensures Lengths(dict[key := s]) == Lengths(dict)[key := |s|]
  {
    var a, b := Lengths(dict[key := s]), Lengths(dict)[key := |s|];
    assert a.Keys == b.Keys;
    forall j | j in a
      ensures a[j] == b[j]
    {
    }
  }

  /** The lists of the adjacency map hold two entries per connection. */
  lemma {:induction false} AdjacencyTotal(cs: seq<Connection>)
    ensures Total(Lengths(Adjacency(cs))) == 2 * |cs|
  {
    if cs == [] {
      assert Lengths(Adjacency(cs)) == map[];
    } else {
      var init, c := cs[..|cs| - 1], cs[|cs| - 1];
      assert cs == init + [c];
      AdjacencyTotal(init);
      AdjacencySnoc(init, c);
      PushTotal(Adjacency(init), c.i1, c.i2);
      PushTotal(Push(Adjacency(init), c.i1, c.i2), c.i2, c.i1);
    }
  }

  /** The adjacency map is symmetric and keyed by exactly the endpoints. */
  lemma AdjacencySymmetric(cs: seq<Connection>, a: nat, b: nat)
    requires a in Adjacency(cs) && b in Adjacency(cs)[a]
    ensures b in Adjacency(cs) && a in Adjacency(cs)[b]
    ensures multiset(Adjacency(cs)[a])[b] == multiset(Adjacency(cs)[b])[a]
  {
    NeighboursSymmetric(cs, a, b);
    NeighboursOfOthers(cs, b);
  }

  // ---------------------------------------------------------------------
  // The whole extraction

  /** `route` is what the group at `offset` describes. */
  predicate RouteOf(group: Node, offset: Offset, route: Route) {
    && Points(group, offset) == Success(route.points)
    && StartOf(Circles(group), route.start)
    && Connections(group, route.points, offset) == Success(route.connections)
    && route.connectionsDict == Adjacency(route.connections)
  }

  /** `parse_route` */
  method ParseRoute(root: Node) returns (r: Result<Route, RouteError>)
    ensures r == Failure(NoRouteGroup) <==>
      forall i :: 0 <= i < |Descendants(root)| ==> !IsRouteGroup(Descendants(root)[i].0)
    ensures r.Success? ==>
      exists i :: FirstRouteGroupAt(Descendants(root), i)
                  && RouteOf(Descendants(root)[i].0, Descendants(root)[i].1, r.value)
    ensures r.Failure? && r.error != NoRouteGroup ==>
      exists i :: FirstRouteGroupAt(Descendants(root), i)
                  && var (group, offset) := Descendants(root)[i];
                     || Points(group, offset) == Failure(r.error)
                     || (&& Points(group, offset).Success?
                         && Connections(group, Points(group, offset).value, offset) == Failure(r.error))
  {
    var found := FindRouteGroup(root);
    if found.None? {
      return Failure(NoRouteGroup);
    }
    var (group, offset) := found.value;
    var points := Points(group, offset);
    if points.Failure? {
      return Failure(points.error);
    }
    var start := StartIndex(Circles(group));
    var connections := Connections(group, points.value, offset);
    if connections.Failure? {
      return Failure(connections.error);
    }
    var dict := BuildAdjacency(connections.value);
    r := Success(Route(start, points.value, dict, connections.value));
  }

  /** What every extracted route satisfies: one point per circle, one
      connection per path, indices in range, and a start index in range
      when there is a point. */
  lemma RouteShape(group: Node, offset: Offset, route: Route)
    requires RouteOf(group, offset, route)
    ensures |route.points| == |Circles(group)|
    ensures |route.connections| == |PathNodes(group)|
    ensures forall c :: c in route.connections ==> c.i1 < |route.points| && c.i2 < |route.points|
    ensures |route.points| > 0 ==> route.start < |route.points|
  {
    assert |route.points| > 0 ==> route.start < |route.points| by {
      if |route.points| > 0 && route.start != 0 {
        assert IsStart(Circles(group)[route.start]);
      }
    }
  }
}
