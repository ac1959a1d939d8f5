/** Shelf marker grouping (`parse_shelves`, src/xml/mod.rs): the marker
    circles found by the offset-accumulating walk become shelf positions
    named by their labels, the positions are grouped by corridor, and each
    corridor gets the mean of its shelves' coordinates. */
module Shelves {
  import opened Wrappers
  import opened Document
  import opened XmlIterator
  import opened MapSums

  datatype NodePosition = NodePosition(corridorName: string, shelfName: string, x: real, y: real)

  datatype Corridor = Corridor(
    averagePosition: (real, real),
    name: string,
    section: string,
    shelves: seq<NodePosition>)

  /** Why `parse_shelves` stops. `BadCoordinate` is the one returned as an
      error; the others are panics. */
  datatype ShelfError =
    | MissingLabel        // a marker without a `label` attribute
    | MissingShelfName    // a label without '-'
    | MissingCoordinate   // a marker without `cx` or `cy`
    | BadCoordinate       // a `cx` or `cy` that is not a number

  // ---------------------------------------------------------------------
  // Selecting markers

  /** A position marker: a circle with an `is-position="true"` attribute in
      any namespace. */
  predicate IsMarker(n: Node) {
    n.tag == "circle" && exists a :: a in n.attributes && a.name == "is-position" && a.value == "true"
  }

  /** The walk's markers, in walk order. */
  function Markers(items: seq<(Node, Offset)>): (r: seq<(Node, Offset)>)
    ensures forall x :: x in r <==> x in items && IsMarker(x.0)
  {
    if items == [] then []
    else (if IsMarker(items[0].0) then [items[0]] else []) + Markers(items[1..])
  }

  /** The filter keeps a single pair exactly when it is a marker... */
  lemma MarkersOne(x: (Node, Offset))
    ensures Markers([x]) == if IsMarker(x.0) then [x] else []
  {
    assert [x][1..] == [];
  }

  /** ...and works piecewise, so it keeps the markers in walk order, each as
      often as it occurs. */
  lemma {:induction false} MarkersConcat(a: seq<(Node, Offset)>, b: seq<(Node, Offset)>)
    ensures Markers(a + b) == Markers(a) + Markers(b)
  {
    if a == [] {
      assert a + b == b;
    } else {
      assert (a + b)[0] == a[0];
      assert (a + b)[1..] == a[1..] + b;
      MarkersConcat(a[1..], b);
    }
  }

  // ---------------------------------------------------------------------
  // Labels

  /** The text of `s` before the first `sep`, or all of `s`. */
  function Before(s: string, sep: char): (r: string)
    ensures r <= s
    ensures sep !in r
    ensures |r| < |s| ==> s[|r|] == sep
  {
    if s == [] then []
    else if s[0] == sep then []
    else [s[0]] + Before(s[1..], sep)
  }

  /** The first two fields of `text.split('-')`; `None` when there is no
      second field. */
  function SplitLabel(text: string): (r: Option<(string, string)>)
    ensures r.None? <==> '-' !in text
    ensures r.Some? ==>
      && '-' !in r.value.0 && '-' !in r.value.1
      && r.value.0 + "-" + r.value.1 <= text
      && var n := |r.value.0| + 1 + |r.value.1|;
         n == |text| || text[n] == '-'
  {
    var corridor := Before(text, '-');
    if |corridor| == |text| then
      assert corridor == text;
      None
    else
      var tail := text[|corridor| + 1..];
      var shelf := Before(tail, '-');
      assert text == corridor + "-" + tail;
      Some((corridor, shelf))
  }

  /** `Before` stops at the first separator. */
  lemma {:induction false} BeforeJoin(a: string, sep: char, b: string)
    requires sep !in a
    ensures Before(a + [sep] + b, sep) == a
    ensures Before(a, sep) == a
  {
    if a != [] {
      assert (a + [sep] + b)[1..] == a[1..] + [sep] + b;
      BeforeJoin(a[1..], sep, b);
    }
  }

  /** Splitting inverts joining: a corridor and a shelf name without '-',
      followed by nothing or by more '-'-separated fields, split back into
      themselves. */
  lemma SplitLabelJoin(corridor: string, shelf: string, rest: string)
    requires '-' !in corridor && '-' !in shelf
    requires rest == [] || rest[0] == '-'
    ensures SplitLabel(corridor + "-" + shelf + rest) == Some((corridor, shelf))
  {
    var text := corridor + "-" + shelf + rest;
    assert text == corridor + ['-'] + (shelf + rest);
    BeforeJoin(corridor, '-', shelf + rest);
    assert text[|corridor| + 1..] == shelf + rest;
    if rest == [] {
      BeforeJoin(shelf, '-', []);
      assert shelf + rest == shelf;
    } else {
      assert shelf + rest == shelf + ['-'] + rest[1..];
      BeforeJoin(shelf, '-', rest[1..]);
    }
  }

  /** `"A1-12"` names shelf 12 of corridor A1. */
  lemma SplitTwoFields()
    ensures SplitLabel("A1-12") == Some(("A1", "12"))
  {
    SplitLabelJoin("A1", "12", "");
    assert "A1-12" == "A1" + "-" + "12" + "";
  }

  /** Fields after the second are dropped. */
  lemma SplitThreeFields()
    ensures SplitLabel("A1-12-back") == Some(("A1", "12"))
  {
    SplitLabelJoin("A1", "12", "-back");
    assert "A1-12-back" == "A1" + "-" + "12" + "-back";
  }

  // ---------------------------------------------------------------------
  // Positions

  /** `node.attribute(name).unwrap().parse::<f64>()?` */
  function Coordinate(n: Node, name: string): Result<real, ShelfError> {
    match Attr(n, name)
    case None => Failure(MissingCoordinate)
    case Some(a) =>
      match a.number
      case None => Failure(BadCoordinate)
      case Some(v) => Success(v)
  }

  /** The position a marker yields, or why it stops the whole call. */
  function ParsePosition(n: Node, offset: Offset): Result<NodePosition, ShelfError> {
    match AttrAnyNs(n, "label")
    case None => Failure(MissingLabel)
    case Some(text) =>
      match SplitLabel(text.value)
      case None => Failure(MissingShelfName)
      case Some((corridor, shelf)) =>
        match Coordinate(n, "cx")
        case Failure(e) => Failure(e)
        case Success(x) =>
          match Coordinate(n, "cy")
          case Failure(e) => Failure(e)
          case Success(y) => Success(NodePosition(corridor, shelf, x + offset.0, y + offset.1))
  }

  /** A marker yields a position exactly when it has a label with a '-' and
      numeric `cx` and `cy`; the label's first two fields name it and the
      accumulated offset shifts it. */
  lemma ParsePositionMeaning(n: Node, offset: Offset)
    ensures ParsePosition(n, offset).Success? <==>
      && AttrAnyNs(n, "label").Some?
      && '-' in AttrAnyNs(n, "label").value.value
      && Number(n, "cx").Some? && Number(n, "cy").Some?
    ensures ParsePosition(n, offset).Success? ==>
      var p := ParsePosition(n, offset).value;
      && SplitLabel(AttrAnyNs(n, "label").value.value) == Some((p.corridorName, p.shelfName))
      && p.x == Number(n, "cx").value + offset.0
      && p.y == Number(n, "cy").value + offset.1
    ensures AttrAnyNs(n, "label").None? ==> ParsePosition(n, offset) == Failure(MissingLabel)
    ensures AttrAnyNs(n, "label").Some? && '-' !in AttrAnyNs(n, "label").value.value ==>
      ParsePosition(n, offset) == Failure(MissingShelfName)
  {
  }

  /** The closure `collect` applies to each walked marker. */
  function MarkerPosition(item: (Node, Offset)): Result<NodePosition, ShelfError> {
    ParsePosition(item.0, item.1)
  }

  /** The positions of all markers, in walk order, or the first marker's
      failure. */
  function Positions(items: seq<(Node, Offset)>): (r: Result<seq<NodePosition>, ShelfError>)
    ensures (forall i :: 0 <= i < |Markers(items)| ==> MarkerPosition(Markers(items)[i]).Success?) ==> r.Success?
    ensures r.Success? ==>
      && |r.value| == |Markers(items)|
      && (forall i :: 0 <= i < |r.value| ==> MarkerPosition(Markers(items)[i]).Success?)
      && forall i :: 0 <= i < |r.value| ==> r.value[i] == MarkerPosition(Markers(items)[i]).value
    ensures r.Failure? ==> exists i ::
      && 0 <= i < |Markers(items)|
      && MarkerPosition(Markers(items)[i]) == Failure(r.error)
      && forall j :: 0 <= j < i ==> MarkerPosition(Markers(items)[j]).Success?
  {
    var markers := Markers(items);
    var f: ((Node, Offset)) -> Result<NodePosition, ShelfError> := MarkerPosition;
    forall i | 0 <= i < |markers|
      ensures f(markers[i]) == MarkerPosition(markers[i])
    {
    }
    MapAll(markers, f)
  }

  // ---------------------------------------------------------------------
  // Grouping into corridors

  /** The positions of corridor `k`, in order. */
  function ShelvesOf(ps: seq<NodePosition>, k: string): seq<NodePosition> {
    if ps == [] then []
    else ShelvesOf(ps[..|ps| - 1], k) + (if ps[|ps| - 1].corridorName == k then [ps[|ps| - 1]] else [])
  }

  function CorridorNames(ps: seq<NodePosition>): set<string> {
    set p | p in ps :: p.corridorName
  }

  /** The corridors the positions describe, before averaging. */
  function Grouped(ps: seq<NodePosition>): map<string, Corridor> {
    map k | k in CorridorNames(ps) :: Corridor((0.0, 0.0), k, "", ShelvesOf(ps, k))
  }

  /** One step of the fold: append `p` to its corridor's shelves, or insert
      a corridor holding just `p`. */
  function AddShelf(m: map<string, Corridor>, p: NodePosition): (r: map<string, Corridor>)
    ensures r.Keys == m.Keys + {p.corridorName}
    ensures forall k :: k in m && k != p.corridorName ==> r[k] == m[k]
    ensures p.corridorName in m ==> r[p.corridorName] == m[p.corridorName].(shelves := m[p.corridorName].shelves + [p])
    ensures p.corridorName !in m ==> r[p.corridorName] == Corridor((0.0, 0.0), p.corridorName, "", [p])
  {
    if p.corridorName in m
    then m[p.corridorName := m[p.corridorName].(shelves := m[p.corridorName].shelves + [p])]
    else m[p.corridorName := Corridor((0.0, 0.0), p.corridorName, "", [p])]
  }

  /** The `fold` that appends each position to its corridor, or inserts a
      new corridor holding it. */
  method GroupCorridors(positions: seq<NodePosition>) returns (m: map<string, Corridor>)
    ensures m == Grouped(positions)
  {
    m := map[];
    assert positions[..0] == [];
    for i := 0 to |positions|
      invariant m == Grouped(positions[..i])
    {
      var p := positions[i];
      ghost var before := m;
      if p.corridorName in m {
        var corridor := m[p.corridorName];
        m := m[p.corridorName := corridor.(shelves := corridor.shelves + [p])];
      } else {
        m := m[p.corridorName := Corridor((0.0, 0.0), p.corridorName, "", [p])];
      }
      assert m == Grouped(positions[..i + 1]) by {
        assert m == AddShelf(before, p);
        assert positions[..i + 1] == positions[..i] + [p];
        GroupedSnoc(positions[..i], p);
      }
    }
    assert positions[..|positions|] == positions;
  }

  /** One more position extends its own corridor and no other. */
  lemma GroupedSnoc(ps: seq<NodePosition>, p: NodePosition)
    ensures Grouped(ps + [p]) == AddShelf(Grouped(ps), p)
  {
    var after := AddShelf(Grouped(ps), p);
    CorridorNamesSnoc(ps, p);
    assert Grouped(ps + [p]).Keys == after.Keys;
    forall k | k in after
      ensures Grouped(ps + [p])[k] == after[k]
    {
      ShelvesOfSnoc(ps, p, k);
      AddedShelves(ps, p, k);
    }
  }

  /** After the fold step, corridor `k` holds its old shelves followed by
      `p` if `p` belongs to it. */
  lemma AddedShelves(ps: seq<NodePosition>, p: NodePosition, k: string)
    requires k in AddShelf(Grouped(ps), p)
    ensures AddShelf(Grouped(ps), p)[k] == Corridor((0.0, 0.0), k, "", ShelvesOf(ps, k) + (if p.corridorName == k then [p] else []))
  {
    if k !in Grouped(ps) {
      ShelvesOfOthers(ps, k);
    }
  }

  lemma ShelvesOfSnoc(ps: seq<NodePosition>, p: NodePosition, k: string)
    ensures ShelvesOf(ps + [p], k) == ShelvesOf(ps, k) + (if p.corridorName == k then [p] else [])
  {
    assert (ps + [p])[..|ps|] == ps;
  }

  lemma CorridorNamesSnoc(ps: seq<NodePosition>, p: NodePosition)
    ensures CorridorNames(ps + [p]) == CorridorNames(ps) + {p.corridorName}
  {
    assert forall x :: x in ps + [p] <==> x in ps || x == p;
  }

  /** A name has shelves exactly when some position carries it. */
  lemma {:induction false} ShelvesOfOthers(ps: seq<NodePosition>, k: string)
    ensures ShelvesOf(ps, k) != [] <==> k in CorridorNames(ps)
  {
    if ps != [] {
      var init := ps[..|ps| - 1];
      assert ps == init + [ps[|ps| - 1]];
      CorridorNamesSnoc(init, ps[|ps| - 1]);
      ShelvesOfOthers(init, k);
    }
  }

  /** A corridor's shelves are exactly the positions with its name, with
      repeats kept. */
  lemma {:induction false} ShelvesOfCount(ps: seq<NodePosition>, k: string, x: NodePosition)
    ensures multiset(ShelvesOf(ps, k))[x] == (if x.corridorName == k then multiset(ps)[x] else 0)
  {
    if ps != [] {
      var init := ps[..|ps| - 1];
      assert ps == init + [ps[|ps| - 1]];
      ShelvesOfCount(init, k, x);
    }
  }

  ghost function Counts(m: map<string, Corridor>): map<string, nat> {
    map k | k in m :: |m[k].shelves|
  }

  /** Every position lands in exactly one corridor: the corridors' shelf
      counts add up to the number of positions. */
  lemma {:induction false} GroupedTotal(ps: seq<NodePosition>)
    ensures Total(Counts(Grouped(ps))) == |ps|
  {
    if ps == [] {
      assert Counts(Grouped(ps)) == map[];
    } else {
      var init, p := ps[..|ps| - 1], ps[|ps| - 1];
      assert ps == init + [p];
      GroupedTotal(init);
      GroupedSnoc(init, p);
      AddShelfTotal(Grouped(init), p);
    }
  }

  /** A fold step adds one shelf to the count. */
  lemma AddShelfTotal(m: map<string, Corridor>, p: NodePosition)
    ensures Total(Counts(AddShelf(m, p))) == Total(Counts(m)) + 1
  {
    var c := Counts(m);
    var corridor := if p.corridorName in m then m[p.corridorName].(shelves := m[p.corridorName].shelves + [p])
                    else Corridor((0.0, 0.0), p.corridorName, "", [p]);
    assert AddShelf(m, p) == m[p.corridorName := corridor];
    CountsUpdate(m, p.corridorName, corridor);
    TotalUpdate(c, p.corridorName, |corridor.shelves|);
  }

  lemma CountsUpdate(m: map<string, Corridor>, k: string, corridor: Corridor)
    ensures Counts(m[k := corridor]) == Counts(m)[k := |corridor.shelves|]
  {
    var a, b := Counts(m[k := corridor]), Counts(m)[k := |corridor.shelves|];
    assert a.Keys == b.Keys;
    forall j | j in a
      ensures a[j] == b[j]
    {
    }
  }

  // ---------------------------------------------------------------------
  // Averages

  /** `shelves.iter().fold(0, |sum, s| sum + s.x)` */
  function SumX(ps: seq<NodePosition>): real {
    if ps == [] then 0.0 else SumX(ps[..|ps| - 1]) + ps[|ps| - 1].x
  }

  function SumY(ps: seq<NodePosition>): real {
    if ps == [] then 0.0 else SumY(ps[..|ps| - 1]) + ps[|ps| - 1].y
  }

  /** The componentwise mean of the shelves' coordinates. */
  function Mean(ps: seq<NodePosition>): (r: (real, real))
    requires ps != []
    ensures r.0 * |ps| as real == SumX(ps) && r.1 * |ps| as real == SumY(ps)
  {
    (SumX(ps) / |ps| as real, SumY(ps) / |ps| as real)
  }

  /** The `values_mut().for_each(...)` that sets every corridor's average. */
  method SetAverages(m: map<string, Corridor>) returns (result: map<string, Corridor>)
    requires forall k :: k in m ==> m[k].shelves != []
    ensures result.Keys == m.Keys
    ensures forall k :: k in m ==> result[k] == m[k].(averagePosition := Mean(m[k].shelves))
  {
    result := m;
    var todo := m.Keys;
    while todo != {}
      invariant todo <= m.Keys && result.Keys == m.Keys
      invariant forall k :: k in m ==>
        result[k] == if k in todo then m[k] else m[k].(averagePosition := Mean(m[k].shelves))
      decreases |todo|
    {
      var k :| k in todo;
      var corridor := result[k];
      var count := |corridor.shelves| as real;
      var avgX := SumX(corridor.shelves) / count;
      var avgY := SumY(corridor.shelves) / count;
      result := result[k := corridor.(averagePosition := (avgX, avgY))];
      todo := todo - {k};
    }
  }

  /** Each component of the mean lies between the least and the greatest
      value of that component. */
  lemma MeanBounds(ps: seq<NodePosition>, loX: real, hiX: real, loY: real, hiY: real)
    requires ps != []
    requires forall i :: 0 <= i < |ps| ==> loX <= ps[i].x <= hiX
    requires forall i :: 0 <= i < |ps| ==> loY <= ps[i].y <= hiY
    ensures loX <= Mean(ps).0 <= hiX
    ensures loY <= Mean(ps).1 <= hiY
  {
    SumXBounds(ps, loX, hiX);
    SumYBounds(ps, loY, hiY);
    DivideBounds(SumX(ps), |ps|, loX, hiX);
    DivideBounds(SumY(ps), |ps|, loY, hiY);
  }

  lemma {:induction false} SumXBounds(ps: seq<NodePosition>, lo: real, hi: real)
    requires forall i :: 0 <= i < |ps| ==> lo <= ps[i].x <= hi
    ensures Repeat(|ps|, lo) <= SumX(ps) <= Repeat(|ps|, hi)
  {
    if ps != [] {
      var init := ps[..|ps| - 1];
      assert forall i :: 0 <= i < |init| ==> init[i] == ps[i];
      SumXBounds(init, lo, hi);
    }
  }

  lemma {:induction false} SumYBounds(ps: seq<NodePosition>, lo: real, hi: real)
    requires forall i :: 0 <= i < |ps| ==> lo <= ps[i].y <= hi
    ensures Repeat(|ps|, lo) <= SumY(ps) <= Repeat(|ps|, hi)
  {
    if ps != [] {
      var init := ps[..|ps| - 1];
      assert forall i :: 0 <= i < |init| ==> init[i] == ps[i];
      SumYBounds(init, lo, hi);
    }
  }

  /** `n` copies of `a` added up. */
  function Repeat(n: nat, a: real): real {
    if n == 0 then 0.0 else Repeat(n - 1, a) + a
  }

  lemma {:induction false} RepeatIsProduct(n: nat, a: real)
    ensures Repeat(n, a) == n as real * a
  {
    if n > 0 {
      RepeatIsProduct(n - 1, a);
      assert (n - 1) as real * a + a == n as real * a;
    }
  }

  /** A sum between `k` copies of `lo` and `k` copies of `hi`, divided by
      `k`, lies between `lo` and `hi`. */
  lemma DivideBounds(sum: real, k: nat, lo: real, hi: real)
    requires k > 0 && Repeat(k, lo) <= sum <= Repeat(k, hi)
    ensures lo <= sum / k as real <= hi
  {
    var n := k as real;
    RepeatIsProduct(k, lo);
    RepeatIsProduct(k, hi);
    assert sum / n - lo == (sum - n * lo) / n;
    assert hi - sum / n == (n * hi - sum) / n;
  }

  /** A corridor with one shelf sits at that shelf. */
  lemma MeanSingle(p: NodePosition)
    ensures Mean([p]) == (p.x, p.y)
  {
    assert [p][..0] == [];
    assert SumX([p]) == p.x;
    assert SumY([p]) == p.y;
  }

  // ---------------------------------------------------------------------
  // The whole extraction

  /** `parse_shelves` */
  method ParseShelves(root: Node) returns (r: Result<map<string, Corridor>, ShelfError>)
    ensures r.Success? <==> Positions(Descendants(root)).Success?
    ensures r.Failure? ==> r.error == Positions(Descendants(root)).error
    ensures r.Success? ==>
      var ps := Positions(Descendants(root)).value;
      && r.value.Keys == CorridorNames(ps)
      && forall k :: k in r.value ==>
           && ShelvesOf(ps, k) != []
           && r.value[k] == Corridor(Mean(ShelvesOf(ps, k)), k, "", ShelvesOf(ps, k))
  {
    var items := CollectDescendants(root);
    var positions := Positions(items);
    if positions.Failure? {
      return Failure(positions.error);
    }
    var grouped := GroupCorridors(positions.value);
    forall k | k in grouped
      ensures grouped[k].shelves != []
    {
      ShelvesOfOthers(positions.value, k);
    }
    var averaged := SetAverages(grouped);
    r := Success(averaged);
  }

  /** What every extracted corridor map satisfies: a corridor per name, each
      holding exactly that name's positions, none empty, and every position
      in exactly one corridor. */
  lemma CorridorsPartition(ps: seq<NodePosition>, k: string, x: NodePosition)
    ensures k in Grouped(ps) <==> exists p :: p in ps && p.corridorName == k
    ensures k in Grouped(ps) ==> Grouped(ps)[k].name == k && Grouped(ps)[k].shelves != []
    ensures k in Grouped(ps) ==> (x in Grouped(ps)[k].shelves <==> x in ps && x.corridorName == k)
    ensures Total(Counts(Grouped(ps))) == |ps|
  {
    ShelvesOfOthers(ps, k);
    ShelvesOfCount(ps, k, x);
    GroupedTotal(ps);
  }
}
