/** The pre-order walk over a document that pairs every node with the sum of
    the `translate(...)` offsets on it and on its ancestors
    (src/xml/xml_iterator.rs). The Rust iterator is a chain of boxed
    sub-iterators; here the chain is an explicit stack of frames. */
module XmlIterator {
  import opened Wrappers
  import opened Document

  /** An accumulated translation `(x, y)`. */
  type Offset = (real, real)

  /** The offset a node gets: its own translation added to its parent's, or
      the parent's unchanged when it has none. A missing second component
      counts as 0. */
  function NodeOffset(n: Node, parent: Offset): Offset {
    match n.translate
    case Some(t) => (t.tx + parent.0, t.ty.GetOr(0.0) + parent.1)
    case None => parent
  }

  /** The pre-order sequence of (node, offset) pairs for a run of siblings
      whose parent has offset `offset`: each node, then its subtree, then the
      following siblings. */
  function Flatten(nodes: seq<Node>, offset: Offset): seq<(Node, Offset)>
    decreases ForestSize(nodes)
  {
    if nodes == [] then []
    else
      assert ForestSize(nodes) == 1 + ForestSize(nodes[0].children) + ForestSize(nodes[1..]);
      var o := NodeOffset(nodes[0], offset);
      [(nodes[0], o)] + Flatten(nodes[0].children, o) + Flatten(nodes[1..], offset)
  }

  /** What `node.iter()` yields: every node strictly below `node`, with the
      walk starting from offset (0, 0). */
  function Descendants(node: Node): seq<(Node, Offset)> {
    Flatten(node.children, (0.0, 0.0))
  }

  /** One level of the walk: the siblings not yet visited and the offset
      they inherit. */
  datatype Frame = Frame(siblings: seq<Node>, offset: Offset)

  /** Everything a stack of frames will still yield, innermost frame first. */
  function StackPending(frames: seq<Frame>): seq<(Node, Offset)> {
    if frames == [] then []
    else
      var top := frames[|frames| - 1];
      Flatten(top.siblings, top.offset) + StackPending(frames[..|frames| - 1])
  }

  class XmlIterator {
    /** The innermost frame is last. */
    var frames: seq<Frame>

    /** The pairs this iterator has still to yield. */
    function Pending(): seq<(Node, Offset)>
      reads this
    {
      StackPending(frames)
    }

    /** `XmlIterator::new(node)` and `node.iter()`. */
    constructor (node: Node)
      ensures Pending() == Descendants(node)
    {
      var start := [Frame(node.children, (0.0, 0.0))];
      assert start[..0] == [];
      assert StackPending(start) == Flatten(node.children, (0.0, 0.0)) + [];
      frames := start;
    }

    /** `Iterator::next`: the first pending pair, or `None` once the walk is
        over. */
    method Next() returns (item: Option<(Node, Offset)>)
      modifies this
      ensures old(Pending()) == [] ==> item == None && Pending() == []
      ensures old(Pending()) != [] ==> item == Some(old(Pending())[0]) && Pending() == old(Pending())[1..]
    {
      while frames != []
        invariant Pending() == old(Pending())
        decreases |frames|
      {
        var base, top := frames[..|frames| - 1], frames[|frames| - 1];
        assert Pending() == Flatten(top.siblings, top.offset) + StackPending(base);
        if top.siblings == [] {
          frames := base;
        } else {
          var n := top.siblings[0];
          var o := NodeOffset(n, top.offset);
          var rest := Frame(top.siblings[1..], top.offset);
          var inner := Frame(n.children, o);
          frames := base + [rest, inner];
          assert frames[..|frames| - 1] == base + [rest];
          assert (base + [rest])[..|base|] == base;
          assert StackPending(base + [rest]) == Flatten(rest.siblings, rest.offset) + StackPending(base);
          assert Pending() == Flatten(n.children, o) + StackPending(base + [rest]);
          assert Flatten(top.siblings, top.offset)
              == [(n, o)] + Flatten(n.children, o) + Flatten(rest.siblings, rest.offset);
          return Some((n, o));
        }
      }
      return None;
    }
  }

  /** Runs `node.iter()` to the end and collects what it yields. */
  method CollectDescendants(node: Node) returns (items: seq<(Node, Offset)>)
    ensures items == Descendants(node)
  {
    var it := new XmlIterator(node);
    items := [];
    while true
      invariant items + it.Pending() == Descendants(node)
      decreases |it.Pending()|
    {
      var next := it.Next();
      match next {
        case None => return;
        case Some(item) =>
          items := items + [item];
      }
    }
  }

  // ---------------------------------------------------------------------
  // What the walk yields, stated against an independent description of the
  // tree: index paths from the start node.

  /** The walk yields one pair per node below the start node. */
  lemma {:induction false} FlattenLength(nodes: seq<Node>, offset: Offset)
    ensures |Flatten(nodes, offset)| == ForestSize(nodes)
    decreases ForestSize(nodes)
  {
    if nodes != [] {
      var o := NodeOffset(nodes[0], offset);
      assert ForestSize(nodes) == 1 + ForestSize(nodes[0].children) + ForestSize(nodes[1..]);
      FlattenLength(nodes[0].children, o);
      FlattenLength(nodes[1..], offset);
    }
  }

  /** The start node itself is never yielded: exactly `Size(node) - 1` pairs. */
  lemma DescendantCount(node: Node)
    ensures |Descendants(node)| == Size(node) - 1
  {
    FlattenLength(node.children, (0.0, 0.0));
  }

  /** Consecutive runs of siblings are walked one after the other. */
  lemma {:induction false} FlattenAppend(a: seq<Node>, b: seq<Node>, offset: Offset)
    ensures Flatten(a + b, offset) == Flatten(a, offset) + Flatten(b, offset)
    decreases |a|
  {
    if a == [] {
      assert a + b == b;
    } else {
      assert (a + b)[0] == a[0];
      assert (a + b)[1..] == a[1..] + b;
      FlattenAppend(a[1..], b, offset);
    }
  }

  /** Pre-order: the `i`-th sibling comes after everything from the earlier
      siblings, immediately followed by its whole subtree, and only then by
      the later siblings. */
  lemma SiblingOrder(nodes: seq<Node>, offset: Offset, i: nat)
    requires i < |nodes|
    ensures var o := NodeOffset(nodes[i], offset);
      Flatten(nodes, offset)
        == Flatten(nodes[..i], offset) + [(nodes[i], o)] + Flatten(nodes[i].children, o)
           + Flatten(nodes[i + 1..], offset)
  {
    assert nodes == nodes[..i] + nodes[i..];
    FlattenAppend(nodes[..i], nodes[i..], offset);
    assert nodes[i..][0] == nodes[i];
    assert nodes[i..][1..] == nodes[i + 1..];
  }

  /** `p` leads from a run of siblings to a node: `[i]` is the `i`-th
      sibling, `[i] + q` the node at `q` among its children. */
  predicate ValidPath(nodes: seq<Node>, p: seq<nat>)
    decreases |p|
  {
    |p| > 0 && p[0] < |nodes| && (|p| == 1 || ValidPath(nodes[p[0]].children, p[1..]))
  }

  function NodeAt(nodes: seq<Node>, p: seq<nat>): Node
    requires ValidPath(nodes, p)
    decreases |p|
  {
    if |p| == 1 then nodes[p[0]] else NodeAt(nodes[p[0]].children, p[1..])
  }

  /** The offset reached by walking down `p`, one `NodeOffset` per level. */
  function OffsetAt(nodes: seq<Node>, offset: Offset, p: seq<nat>): Offset
    requires ValidPath(nodes, p)
    decreases |p|
  {
    var o := NodeOffset(nodes[p[0]], offset);
    if |p| == 1 then o else OffsetAt(nodes[p[0]].children, o, p[1..])
  }

  /** A node's own translation, `(0, 0)` when it has none. */
  function OwnTranslation(n: Node): Offset {
    match n.translate
    case Some(t) => (t.tx, t.ty.GetOr(0.0))
    case None => (0.0, 0.0)
  }

  /** A node's offset is its parent's plus its own translation, which is
      (0, 0) without a `translate` and has second component 0 when only one
      number is given. */
  lemma NodeOffsetAddsOwn(n: Node, parent: Offset)
    ensures NodeOffset(n, parent) == (parent.0 + OwnTranslation(n).0, parent.1 + OwnTranslation(n).1)
  {
  }

  /** The sum of the translations of every node on `p`. */
  function TranslationSum(nodes: seq<Node>, p: seq<nat>): Offset
    requires ValidPath(nodes, p)
    decreases |p|
  {
    var own := OwnTranslation(nodes[p[0]]);
    if |p| == 1 then own
    else
      var below := TranslationSum(nodes[p[0]].children, p[1..]);
      (own.0 + below.0, own.1 + below.1)
  }

  /** A node's offset is the starting offset plus the translations on
      itself and on each of its ancestors below the start node. */
  lemma {:induction false} OffsetIsTranslationSum(nodes: seq<Node>, offset: Offset, p: seq<nat>)
    requires ValidPath(nodes, p)
    ensures OffsetAt(nodes, offset, p)
         == (offset.0 + TranslationSum(nodes, p).0, offset.1 + TranslationSum(nodes, p).1)
    decreases |p|
  {
    if |p| > 1 {
      OffsetIsTranslationSum(nodes[p[0]].children, NodeOffset(nodes[p[0]], offset), p[1..]);
    }
  }

  function Bumped(p: seq<nat>): seq<nat>
    requires |p| > 0
  {
    [p[0] + 1] + p[1..]
  }

  /** Every path of a run of siblings, in pre-order. */
  function Paths(nodes: seq<Node>): seq<seq<nat>>
    decreases ForestSize(nodes)
  {
    if nodes == [] then []
    else
      assert ForestSize(nodes) == 1 + ForestSize(nodes[0].children) + ForestSize(nodes[1..]);
      [[0]] + UnderFirst(Paths(nodes[0].children)) + Shifted(Paths(nodes[1..]))
  }

  /** Paths into the first sibling's subtree, from paths among its children. */
  function UnderFirst(ps: seq<seq<nat>>): (r: seq<seq<nat>>)
    ensures |r| == |ps|
    ensures forall k :: 0 <= k < |ps| ==> r[k] == [0] + ps[k]
  {
    if ps == [] then [] else [[0] + ps[0]] + UnderFirst(ps[1..])
  }

  /** Paths among the later siblings, from paths in `nodes[1..]`. */
  function Shifted(ps: seq<seq<nat>>): (r: seq<seq<nat>>)
    ensures |r| == |ps|
    ensures forall k :: 0 <= k < |ps| && ps[k] != [] ==> r[k] == Bumped(ps[k])
  {
    if ps == [] then []
    else (if ps[0] == [] then [[]] else [Bumped(ps[0])]) + Shifted(ps[1..])
  }

  lemma BumpedPath(nodes: seq<Node>, offset: Offset, q: seq<nat>)
    requires nodes != [] && ValidPath(nodes[1..], q)
    ensures ValidPath(nodes, Bumped(q))
    ensures NodeAt(nodes, Bumped(q)) == NodeAt(nodes[1..], q)
    ensures OffsetAt(nodes, offset, Bumped(q)) == OffsetAt(nodes[1..], offset, q)
  {
    var p := Bumped(q);
    assert p[1..] == q[1..];
    assert nodes[p[0]] == nodes[1..][q[0]];
  }

  lemma FirstChildPath(nodes: seq<Node>, offset: Offset, q: seq<nat>)
    requires nodes != [] && ValidPath(nodes[0].children, q)
    ensures ValidPath(nodes, [0] + q)
    ensures NodeAt(nodes, [0] + q) == NodeAt(nodes[0].children, q)
    ensures OffsetAt(nodes, offset, [0] + q) == OffsetAt(nodes[0].children, NodeOffset(nodes[0], offset), q)
  {
    assert ([0] + q)[1..] == q;
  }

  /** The `k`-th pair the walk yields is the node at the `k`-th path, with
      the offset accumulated along that path. */
  lemma {:induction false} FlattenFollowsPaths(nodes: seq<Node>, offset: Offset)
    ensures |Flatten(nodes, offset)| == |Paths(nodes)|
    ensures forall k :: 0 <= k < |Paths(nodes)| ==>
      ValidPath(nodes, Paths(nodes)[k])
      && Flatten(nodes, offset)[k] == (NodeAt(nodes, Paths(nodes)[k]), OffsetAt(nodes, offset, Paths(nodes)[k]))
    decreases ForestSize(nodes)
  {
    if nodes != [] {
      assert ForestSize(nodes) == 1 + ForestSize(nodes[0].children) + ForestSize(nodes[1..]);
      var o := NodeOffset(nodes[0], offset);
      var inner, later := Paths(nodes[0].children), Paths(nodes[1..]);
      FlattenFollowsPaths(nodes[0].children, o);
      FlattenFollowsPaths(nodes[1..], offset);
      var f := Flatten(nodes, offset);
      var ps := Paths(nodes);
      var fi, fl := Flatten(nodes[0].children, o), Flatten(nodes[1..], offset);
      assert f == [(nodes[0], o)] + fi + fl;
      forall k | 0 <= k < |ps|
        ensures ValidPath(nodes, ps[k]) && f[k] == (NodeAt(nodes, ps[k]), OffsetAt(nodes, offset, ps[k]))
      {
        if k == 0 {
          assert ps[k] == [0];
        } else if k <= |inner| {
          assert ps[k] == [0] + inner[k - 1];
          assert f[k] == fi[k - 1];
          FirstChildPath(nodes, offset, inner[k - 1]);
        } else {
          var j := k - 1 - |inner|;
          assert later[j] != [];
          assert ps[k] == Bumped(later[j]);
          assert f[k] == fl[j];
          BumpedPath(nodes, offset, later[j]);
        }
      }
    }
  }

  /** How `Paths` of a non-empty run is laid out: the first sibling, the
      paths into its subtree, then the later siblings' paths shifted by one. */
  lemma PathsLayout(nodes: seq<Node>)
    requires nodes != []
    ensures var inner, later := Paths(nodes[0].children), Paths(nodes[1..]);
      && |Paths(nodes)| == 1 + |inner| + |later|
      && Paths(nodes)[0] == [0]
      && (forall j :: 0 <= j < |inner| ==> Paths(nodes)[1 + j] == [0] + inner[j])
      && (forall j :: 0 <= j < |later| ==> later[j] != [] ==> Paths(nodes)[1 + |inner| + j] == Bumped(later[j]))
  {
    var inner, later := Paths(nodes[0].children), Paths(nodes[1..]);
    PathsUnfold(nodes);
    ConcatLayout(UnderFirst(inner), Shifted(later), inner, later);
  }

  lemma PathsUnfold(nodes: seq<Node>)
    requires nodes != []
    ensures Paths(nodes) == [[0]] + UnderFirst(Paths(nodes[0].children)) + Shifted(Paths(nodes[1..]))
  {
  }

  /** The index arithmetic of `PathsLayout`, on plain sequences. */
  lemma ConcatLayout(under: seq<seq<nat>>, shifted: seq<seq<nat>>, inner: seq<seq<nat>>, later: seq<seq<nat>>)
    requires |under| == |inner| && |shifted| == |later|
    requires forall k :: 0 <= k < |inner| ==> under[k] == [0] + inner[k]
    requires forall k :: 0 <= k < |later| && later[k] != [] ==> shifted[k] == Bumped(later[k])
    ensures var all := [[0]] + under + shifted;
      && |all| == 1 + |inner| + |later|
      && all[0] == [0]
      && (forall j :: 0 <= j < |inner| ==> all[1 + j] == [0] + inner[j])
      && (forall j :: 0 <= j < |later| ==> later[j] != [] ==> all[1 + |inner| + j] == Bumped(later[j]))
  {
    var all := [[0]] + under + shifted;
    forall j | 0 <= j < |inner|
      ensures all[1 + j] == [0] + inner[j]
    {
      assert all[1 + j] == under[j];
    }
    forall j | 0 <= j < |later| && later[j] != []
      ensures all[1 + |inner| + j] == Bumped(later[j])
    {
      assert all[1 + |inner| + j] == shifted[j];
    }
  }

  /** Every node below the start node has its path among `Paths`. */
  lemma {:induction false} PathsComplete(nodes: seq<Node>, p: seq<nat>)
    requires ValidPath(nodes, p)
    ensures p in Paths(nodes)
    decreases ForestSize(nodes)
  {
    assert ForestSize(nodes) == 1 + ForestSize(nodes[0].children) + ForestSize(nodes[1..]);
    if p[0] == 0 && |p| == 1 {
      PathsLayout(nodes);
      assert Paths(nodes)[0] == p;
    } else if p[0] == 0 {
      PathsComplete(nodes[0].children, p[1..]);
      InnerPathListed(nodes, p[1..]);
      assert [0] + p[1..] == p;
    } else {
      var q := [p[0] - 1] + p[1..];
      ShiftedPathValid(nodes, p, q);
      PathsComplete(nodes[1..], q);
      LaterPathListed(nodes, q);
      assert Bumped(q) == p;
    }
  }

  lemma InnerPathListed(nodes: seq<Node>, q: seq<nat>)
    requires nodes != [] && q in Paths(nodes[0].children)
    ensures [0] + q in Paths(nodes)
  {
    PathsLayout(nodes);
    var inner := Paths(nodes[0].children);
    var j :| 0 <= j < |inner| && inner[j] == q;
    assert Paths(nodes)[1 + j] == [0] + q;
  }

  lemma LaterPathListed(nodes: seq<Node>, q: seq<nat>)
    requires nodes != [] && q in Paths(nodes[1..]) && q != []
    ensures Bumped(q) in Paths(nodes)
  {
    PathsLayout(nodes);
    var inner, later := Paths(nodes[0].children), Paths(nodes[1..]);
    var j :| 0 <= j < |later| && later[j] == q;
    assert Paths(nodes)[1 + |inner| + j] == Bumped(q);
  }

  lemma ShiftedPathValid(nodes: seq<Node>, p: seq<nat>, q: seq<nat>)
    requires ValidPath(nodes, p) && p[0] > 0
    requires q == [p[0] - 1] + p[1..]
    ensures ValidPath(nodes[1..], q)
  {
    assert q[1..] == p[1..];
    assert nodes[1..][q[0]] == nodes[p[0]];
  }

  predicate NoDuplicates<T(==)>(s: seq<T>) {
    forall i, j :: 0 <= i < j < |s| ==> s[i] != s[j]
  }

  /** No path is listed twice, so no node is yielded twice. */
  lemma {:induction false} PathsDistinct(nodes: seq<Node>)
    ensures NoDuplicates(Paths(nodes))
    decreases ForestSize(nodes)
  {
    if nodes != [] {
      assert ForestSize(nodes) == 1 + ForestSize(nodes[0].children) + ForestSize(nodes[1..]);
      PathsDistinct(nodes[0].children);
      PathsDistinct(nodes[1..]);
      PathsNonEmpty(nodes[0].children);
      PathsNonEmpty(nodes[1..]);
      forall i, j | 0 <= i < j < |Paths(nodes)|
        ensures Paths(nodes)[i] != Paths(nodes)[j]
      {
        DistinctAt(nodes, i, j);
      }
    }
  }

  /** Every listed path is non-empty. */
  lemma {:induction false} PathsNonEmpty(nodes: seq<Node>)
    ensures forall k :: 0 <= k < |Paths(nodes)| ==> Paths(nodes)[k] != []
    decreases ForestSize(nodes)
  {
    if nodes != [] {
      assert ForestSize(nodes) == 1 + ForestSize(nodes[0].children) + ForestSize(nodes[1..]);
      PathsNonEmpty(nodes[1..]);
      PathsLayout(nodes);
    }
  }

  /** Two positions of a non-empty run's path list hold different paths,
      given that the lists it is built from have no repeats. */
  lemma DistinctAt(nodes: seq<Node>, i: int, j: int)
    requires nodes != []
    requires NoDuplicates(Paths(nodes[0].children)) && NoDuplicates(Paths(nodes[1..]))
    requires forall k :: 0 <= k < |Paths(nodes[0].children)| ==> Paths(nodes[0].children)[k] != []
    requires forall k :: 0 <= k < |Paths(nodes[1..])| ==> Paths(nodes[1..])[k] != []
    requires 0 <= i < j < |Paths(nodes)|
    ensures Paths(nodes)[i] != Paths(nodes)[j]
  {
    PathsLayout(nodes);
    LayoutDistinct(Paths(nodes), Paths(nodes[0].children), Paths(nodes[1..]), i, j);
  }

  /** The same, for any list laid out as `PathsLayout` describes. */
  lemma LayoutDistinct(ps: seq<seq<nat>>, inner: seq<seq<nat>>, later: seq<seq<nat>>, i: int, j: int)
    requires |ps| == 1 + |inner| + |later| && ps[0] == [0]
    requires forall k :: 0 <= k < |inner| ==> inner[k] != [] && ps[1 + k] == [0] + inner[k]
    requires forall k :: 0 <= k < |later| ==> later[k] != [] && ps[1 + |inner| + k] == Bumped(later[k])
    requires NoDuplicates(inner) && NoDuplicates(later)
    requires 0 <= i < j < |ps|
    ensures ps[i] != ps[j]
  {
    // The entries at `i` and `j`, each built from one entry of `inner` or `later`.
    if 1 <= i <= |inner| {
      assert inner[i - 1] != [] && ps[1 + (i - 1)] == [0] + inner[i - 1];
    }
    if 1 <= j <= |inner| {
      assert inner[j - 1] != [] && ps[1 + (j - 1)] == [0] + inner[j - 1];
    }
    if i > |inner| {
      var k := i - 1 - |inner|;
      assert later[k] != [] && ps[1 + |inner| + k] == Bumped(later[k]);
    }
    if j > |inner| {
      var k := j - 1 - |inner|;
      assert later[k] != [] && ps[1 + |inner| + k] == Bumped(later[k]);
    }
    if i == 0 {
      if j <= |inner| {
        assert |ps[j]| >= 2;
      } else {
        assert ps[j][0] >= 1;
      }
    } else if i <= |inner| {
      if j <= |inner| {
        assert ps[i][1..] == inner[i - 1];
        assert ps[j][1..] == inner[j - 1];
      } else {
        assert ps[i][0] == 0 && ps[j][0] >= 1;
      }
    } else {
      var a, b := later[i - 1 - |inner|], later[j - 1 - |inner|];
      assert a != b;
      assert Bumped(a)[1..] == a[1..] && Bumped(b)[1..] == b[1..];
      assert a == [a[0]] + a[1..] && b == [b[0]] + b[1..];
    }
  }

  /** The walk from `node` yields each node below it exactly once: the
      `k`-th pair is the node at the `k`-th path with the sum of the
      translations along it, the paths are all different, and every node
      below `node` has its path among them. */
  lemma DescendantsExactlyOnce(node: Node, p: seq<nat>)
    requires ValidPath(node.children, p)
    ensures exists k ::
      && 0 <= k < |Paths(node.children)|
      && k < |Descendants(node)|
      && Paths(node.children)[k] == p
      && Descendants(node)[k] == (NodeAt(node.children, p), TranslationSum(node.children, p))
    ensures forall k, l :: 0 <= k < l < |Paths(node.children)| ==> Paths(node.children)[k] != Paths(node.children)[l]
  {
    FlattenFollowsPaths(node.children, (0.0, 0.0));
    PathsComplete(node.children, p);
    PathsDistinct(node.children);
    OffsetIsTranslationSum(node.children, (0.0, 0.0), p);
    var k :| 0 <= k < |Paths(node.children)| && Paths(node.children)[k] == p;
    assert Descendants(node)[k] == (NodeAt(node.children, p), TranslationSum(node.children, p));
  }
}
