# walmart-goback-map core, modelled in Dafny

The program reads an Inkscape SVG floor plan and extracts two things from it:

- a **route graph**: the circles of the group labelled `Route` become points, and each two-vertex path in that group becomes a connection between the points nearest to its two ends. The connections are also indexed in an adjacency map;
- **shelf positions**: circles marked `is-position="true"` are named by their `corridor-shelf` label and grouped into corridors. Each corridor gets the mean of its shelves' coordinates.

Both extractions walk the document with an iterator. The iterator yields every node below the root together with the sum of the `translate(...)` offsets on that node and on its ancestors. Segment projection (`Vec2::project_line_segment`) is part of the vector arithmetic module.

The model has these files:

- `wrappers.dfy` (`Wrappers`): `Option`, `Result`, and `MapAll`, which is `collect::<Result<Vec<_>, _>>()` and stops at the first failure.
- `vec2.dfy` (`Vectors`): the vector operations over exact reals, and the projection with its optimality proofs.
- `document.dfy` (`Document`): the parsed document tree. Each node has a tag, namespaced attributes, its already-parsed `translate`, its already-decoded first SVG sub-path, and its children. This file also holds the attribute lookups.
- `xml_iterator.dfy` (`XmlIterator`): the iterator as a class over an explicit stack of frames. Each frame holds the siblings still to visit and the offset they inherit. The class is proved equal to a recursive pre-order `Flatten`, and `Flatten` is characterised by index paths into the tree.
- `map_sum.dfy` (`MapSums`): the sum of the values of a finite map, used for the counting properties.
- `route.dfy` (`Route`): `parse_route`.
- `shelves.dfy` (`Shelves`): `parse_shelves`.

Where the source panics (`unwrap`, `expect`, `panic!`, an out-of-bounds index), the model returns a `Failure`. Each kind of failure has its own error constructor, so a missing `cx` and a missing `cy` share one. Where the source returns `Err`, so does the model.

## Model

| member | source | states |
|---|---|---|
| Wrappers.MapAll | src/xml/mod.rs:55 | Collecting results succeeds exactly when every element succeeds. Then it has one value per element, in order. Otherwise its error is the error of some element, and every earlier element succeeded. |
| Vectors.ScaleModulus | src/vec2.rs:10-15 | `scale(factor)` multiplies the squared length by `factor²`. |
| Vectors.ModulusSqrProperties | src/vec2.rs:16-18 | `modulus_sqr` is never negative and is zero only for the zero vector. |
| Vectors.Clamp | src/vec2.rs:46 | `clamp(lo, hi)` lies in `[lo, hi]`. It is the value itself when that is inside, `lo` below and `hi` above. |
| Vectors.SubtractAddInverse | src/vec2.rs:20-32 | `subtract` is undone by `add`: `a.subtract(b).add(b) == a`. |
| Vectors.AddSubtractInverse | src/vec2.rs:20-32 | `add` is undone by `subtract`: `a.add(b).subtract(b) == a`. |
| Vectors.AddCommutative | src/vec2.rs:20-25 | `add` is commutative. |
| Vectors.DotSelf | src/vec2.rs:34-36 | `dot(a, a)` equals `modulus_sqr(a)` (lines 16-18). |
| Vectors.DistanceSqrProperties | src/vec2.rs:38-40 | `distance_sqr` is non-negative and symmetric, is zero exactly on equal points, and equals `modulus_sqr` of `other - self`. |
| Vectors.NonDegenerate | src/vec2.rs:45-47 | A segment with distinct endpoints has a positive squared length, so the division is defined. |
| Vectors.ProjectLineSegment | src/vec2.rs:42-49 | For `p1 != p2`, the returned `t` is in `[0, 1]`. The returned point is `p1 + t·(p2 − p1)`. |
| Vectors.LerpEndpoints | src/vec2.rs:48 | Parameter 0 gives `p1` and parameter 1 gives `p2`. |
| Vectors.DistanceAlong | src/vec2.rs:38-40 | The squared distance from `p` to the segment point at parameter `s` is a quadratic in `s` whose coefficients are `modulus_sqr` and `dot` terms. |
| Vectors.ProjectionIsNearest | src/vec2.rs:42-49 | No point of the segment is closer to `p` than its projection. |
| Vectors.ProjectionCloserThanEndpoints | src/vec2.rs:42-49 | The projection is no farther from `p` than either endpoint. |
| Vectors.ProjectionIdempotent | src/vec2.rs:42-49 | Projecting the projected point again returns the same point and the same `t`. |
| Document.FindAttributeFirst | src/xml/mod.rs:36-38 | `attributes().find(pred)` is `None` exactly when no attribute satisfies `pred`. Otherwise it is the first attribute that does. |
| XmlIterator.XmlIterator.constructor | src/xml/xml_iterator.rs:57-64 | A new iterator has exactly the pre-order walk of the node's descendants still to yield, starting from offset (0, 0). |
| XmlIterator.XmlIterator.Next | src/xml/xml_iterator.rs:12-53 | `next` returns the first pair still to yield and removes it. Once nothing is left, it returns `None` and the state stays exhausted. |
| XmlIterator.CollectDescendants | src/xml/xml_iterator.rs:71-75 | Driving `node.iter()` to the end yields exactly the pre-order walk of the descendants. |
| XmlIterator.FlattenLength | src/xml/xml_iterator.rs:12-53 | The walk yields one pair per node in the subtrees it visits. |
| XmlIterator.DescendantCount | src/xml/xml_iterator.rs:57-64 | The start node is never yielded: the walk yields `Size(node) - 1` pairs. |
| XmlIterator.FlattenAppend | src/xml/xml_iterator.rs:13-50 | Consecutive runs of siblings are walked one after the other. |
| XmlIterator.SiblingOrder | src/xml/xml_iterator.rs:13-49 | Pre-order. The `i`-th sibling comes after everything from the earlier siblings. Its whole subtree follows it directly, and only then come the later siblings. |
| XmlIterator.NodeOffsetAddsOwn | src/xml/xml_iterator.rs:21-43 | A node's offset is its parent's offset plus its own translation. The translation is (0, 0) when there is no `translate`, and its second component is 0 when only one number is given. |
| XmlIterator.OffsetIsTranslationSum | src/xml/xml_iterator.rs:21-43 | A node's offset is the starting offset plus the translations on the node and on each ancestor below the start node. A missing translation counts as (0, 0), and a missing second component as 0. |
| XmlIterator.FlattenFollowsPaths | src/xml/xml_iterator.rs:12-53 | `Flatten`, the pre-order walk the iterator is proved equal to, follows the index paths. Its `k`-th pair is the node at the `k`-th index path in pre-order, paired with the offset accumulated along that path. |
| XmlIterator.PathsComplete | src/xml/xml_iterator.rs:12-53 | Every node below the start node has its index path among those the walk enumerates. |
| XmlIterator.PathsDistinct | src/xml/xml_iterator.rs:12-53 | The enumerated index paths are pairwise different, so no node is yielded twice. |
| XmlIterator.DescendantsExactlyOnce | src/xml/xml_iterator.rs:57-64 | Every node below the start node is yielded, at a position no other node shares, with the sum of the translations along its path. |
| Route.FindRouteGroup | src/xml/route/mod.rs:26-33 | There is no result exactly when no node in the walk is a `g` labelled `Route` in the Inkscape namespace. Otherwise the result is the first such pair in walk order. |
| Route.Tagged | src/xml/route/mod.rs:37-38 | Filtering children by tag keeps exactly the children with that tag. |
| Route.TaggedOne | src/xml/route/mod.rs:37-38 | A single child is kept exactly when it has the tag. |
| Route.TaggedConcat | src/xml/route/mod.rs:37-38 | The filter distributes over concatenation. Together with `TaggedOne`, this pins it down: it keeps the tagged children in document order, each as often as it occurs. |
| Route.Points | src/xml/route/mod.rs:36-50 | Points succeed exactly when every `circle` child has numeric `cx` and `cy`. Then there is one point per circle, in order, each `(cx, cy)` plus the group offset. Otherwise the error is a missing or non-numeric coordinate. |
| Route.CirclePointMeaning | src/xml/route/mod.rs:40-48 | One circle yields `(cx, cy)` plus the offset exactly when both coordinates are numeric. |
| Route.StartIndex | src/xml/route/mod.rs:35-47 | `start` is the index of the last circle labelled `start`, or 0 when there is none. |
| Route.Nearest | src/xml/route/mod.rs:72-82 | The `reduce` returns an in-range index whose squared distance to the query is at most every other point's, and strictly less than every later point's. Ties go to the later index. |
| Route.NearestAmong | src/xml/route/mod.rs:75-81 | After folding in the first `n` points, the accumulator is the nearest of those `n` points under the same tie rule. |
| Route.NearestUnique | src/xml/route/mod.rs:76 | The tie rule leaves exactly one nearest index. |
| Route.PathConnection | src/xml/route/mod.rs:57-96 | A path yields a connection exactly when its first sub-path has exactly two vertices and there is a point. Its ends are the points nearest to the two shifted vertices. Missing `d`, more than two vertices and fewer than two vertices each fail with their own error. |
| Route.Connections | src/xml/route/mod.rs:54-98 | Connections succeed exactly when every `path` child has two vertices and points exist whenever there is a path. Then there is one connection per path, in document order. The `i`-th connection's ends are the points nearest (under the tie rule) to the `i`-th path's two shifted vertices, so both indices are less than the number of points. |
| Route.PathsNeedPoints | src/xml/route/mod.rs:82 | With no points, any path child is fatal. |
| Route.BuildAdjacency | src/xml/route/mod.rs:99-113 | The in-place loop builds the adjacency map of the connections. Each key is a connection endpoint, and its list holds the far ends of the connections at that key, in order. |
| Route.AdjacencySnoc | src/xml/route/mod.rs:101-112 | One more connection `(a, b)` pushes `b` onto `a`'s list, then `a` onto `b`'s. |
| Route.NeighboursOfOthers | src/xml/route/mod.rs:99-113 | A key has a list exactly when it is an endpoint of some connection. |
| Route.NeighbourMembership | src/xml/route/mod.rs:99-113 | `b` is in `a`'s list exactly when some connection joins `a` and `b`. |
| Route.NeighboursSymmetric | src/xml/route/mod.rs:99-113 | `b` appears in `a`'s list as often as `a` in `b`'s. |
| Route.AdjacencySymmetric | src/xml/route/mod.rs:99-113 | The adjacency map is symmetric, with multiplicities. |
| Route.AdjacencyTotal | src/xml/route/mod.rs:99-113 | The lists hold `2·|connections|` entries in total. |
| Route.ParseRoute | src/xml/route/mod.rs:24-121 | The route-group error happens exactly when there is no route group. A success is the route of the first route group: its points, start index, connections and adjacency map. Any other failure carries the error of that group's points or, when they succeed, of its connections. |
| Route.RouteShape | src/xml/route/mod.rs:115-120 | An extracted route has one point per circle, one connection per path and indices in range. When there is a point, the start index is in range too. |
| Shelves.Markers | src/xml/mod.rs:29-33 | The walk is filtered to exactly the `circle` nodes with an `is-position="true"` attribute in any namespace. |
| Shelves.MarkersOne | src/xml/mod.rs:29-33 | A single walked pair is kept exactly when it is a marker. |
| Shelves.MarkersConcat | src/xml/mod.rs:29-33 | The filter distributes over concatenation. Together with `MarkersOne`, this pins it down: it keeps the markers in walk order, each as often as it occurs. |
| Shelves.Before | src/xml/mod.rs:42-43 | The first field of a split is a prefix that contains no separator and is followed by the separator or the end. |
| Shelves.SplitLabel | src/xml/mod.rs:42-44 | The second field is missing exactly when the label has no `-`. Otherwise both fields lack `-`, `first-second` is a prefix of the label, and that prefix is followed by `-` or by the end. |
| Shelves.SplitLabelJoin | src/xml/mod.rs:42-44 | Splitting inverts joining. `corridor-shelf`, alone or followed by more `-` fields, splits back into `(corridor, shelf)`. |
| Shelves.SplitTwoFields | src/xml/mod.rs:42-44 | `"A1-12"` gives `("A1", "12")`. |
| Shelves.SplitThreeFields | src/xml/mod.rs:42-44 | Fields after the second are dropped. |
| Shelves.ParsePositionMeaning | src/xml/mod.rs:35-54 | `ParsePosition`, the per-marker closure: a marker yields a position exactly when it has a `label` with `-` and numeric `cx` and `cy`. The label's first two fields name it, and its coordinates are shifted by the walk offset. A missing label and a label without `-` each fail with their own error. |
| Shelves.Positions | src/xml/mod.rs:29-55 | Positions succeed exactly when every marker parses. Then there is one position per marker, in walk order. Otherwise the error is the error of the first marker that fails: every earlier marker parses. That marker decides between a panic and an `Err`. |
| Shelves.AddShelf | src/xml/mod.rs:58-70 | One fold step adds the position's corridor name to the keys and leaves every other corridor unchanged. It appends the position to an existing corridor's shelves, or inserts a corridor holding just it, named by its corridor, with an empty section and a zero average. |
| Shelves.GroupCorridors | src/xml/mod.rs:57-71 | The in-place fold produces the grouping of the positions by corridor name. |
| Shelves.GroupedSnoc | src/xml/mod.rs:58-70 | One more position is appended to its own corridor, or a corridor holding just that position is inserted. No other corridor changes. |
| Shelves.ShelvesOfOthers | src/xml/mod.rs:57-71 | A corridor exists exactly when some position carries its name. |
| Shelves.ShelvesOfCount | src/xml/mod.rs:57-71 | A corridor's shelves are exactly the positions with its name, repeats kept. |
| Shelves.GroupedTotal | src/xml/mod.rs:57-71 | The corridors' shelf counts add up to the number of positions. |
| Shelves.Mean | src/xml/mod.rs:72-78 | Each component of the average, multiplied by the number of shelves, gives the sum of that component: it is the arithmetic mean. |
| Shelves.SetAverages | src/xml/mod.rs:72-78 | Every corridor keeps its key, name, section and shelves, and its average becomes the mean of its shelves' coordinates. |
| Shelves.SumXBounds | src/xml/mod.rs:73-74 | If every shelf's `x` lies in `[lo, hi]`, the fold sum of `n` of them lies between `n` copies of `lo` and `n` copies of `hi`. |
| Shelves.SumYBounds | src/xml/mod.rs:75-76 | The same bound for the `y` fold sum. |
| Shelves.MeanBounds | src/xml/mod.rs:72-78 | Componentwise: a corridor's average `x` lies between the least and the greatest `x` of its shelves, and likewise for `y`, with separate bounds per component. |
| Shelves.MeanSingle | src/xml/mod.rs:72-78 | A corridor with one shelf sits at that shelf. |
| Shelves.ParseShelves | src/xml/mod.rs:25-80 | The call succeeds exactly when every marker parses. On failure there is no partial map, and the error is that of the first failing marker. On success there is a corridor per name, each holding exactly that name's positions in walk order, never empty, named by its key, with an empty section and the mean of its shelves as its average. |
| Shelves.CorridorsPartition | src/xml/mod.rs:57-71 | A key exists exactly when some position carries it. Its corridor is named by it, is non-empty, and holds exactly the positions with that name. Every position lands in exactly one corridor. |

## Left out

- XML text parsing (`roxmltree`), the regex that finds `translate(...)`, `f64` parsing of numbers, and SVG path decoding (`svg_path_parser`) are foreign code. Each node carries their results: an optional translation with an optional second component, an optional parsed number per attribute, and an optional first sub-path.
- Floating point: coordinates are exact reals. IEEE rounding, overflow and NaN are not modelled.
- `HashMap` iteration order is not observable in the result and is not modelled. Dafny `map`s stand for the hash maps. `SetAverages` visits the corridors in an arbitrary order.
- `src/main.rs` (argument parsing, `include_str!`, JSON serialisation, file writes) is I/O and is not part of this model. It calls `parse_shelves(&xml, &route)`, but the shown `parse_shelves` takes only the document and does no projection onto the route. The model follows the one-argument definition.
- `INKSCAPE_SCOPE` is imported from `crate::xml` but not defined in the shown files. The model uses Inkscape's standard namespace URI, `http://www.inkscape.org/namespaces/inkscape`.
- `transform.apply(v)` (src/xml/route/mod.rs:48, 63-70) is called on the plain `(f64, f64)` offset that the iterator yields. The model takes it as adding the offset, as the shelf code does (src/xml/mod.rs:45-46).
- Vectors.ProjectLineSegment: requires `p1 != p2`. The source divides by the zero squared length and produces NaN, which exact reals cannot express.
- Route.Nearest: the nearest-point `reduce` keeps the right operand unless the left one is strictly closer, so ties go to the later index. The model follows the code, although "first nearest point wins" is the usual reading of such a snap.
- Text and comment nodes are nodes with an empty tag. The walk yields them like any other node, and no filter here selects them.
- The Rust iterator keeps a chain of boxed sub-iterators. The model keeps the same state as a stack of frames, so the aliasing of the boxed chain is not represented.
