/**
 * The collision visitor `collide(node)` and the loop in `tick` that runs it for every node but the
 * first. The quadtree is abstracted to a tree of rectangular regions, each holding at most one
 * node and a list of child regions; visiting calls the visitor on a region and descends into its
 * children, in order, only when the visitor returns false. The positional correction itself is
 * not modelled: a visit yields the ids of the nodes the visitor would correct against.
 */
module Collide {
  import opened Wrappers
  import opened Bounds
  import opened NodeSet

  /** The closed rectangle [x1, x2] x [y1, y2]. */
  datatype Box = Box(x1: real, y1: real, x2: real, y2: real)

  predicate Ordered(b: Box) {
    b.x1 <= b.x2 && b.y1 <= b.y2
  }

  predicate Contains(b: Box, px: real, py: real) {
    b.x1 <= px <= b.x2 && b.y1 <= py <= b.y2
  }

  predicate Within(inner: Box, outer: Box) {
    outer.x1 <= inner.x1 && inner.x2 <= outer.x2 && outer.y1 <= inner.y1 && inner.y2 <= outer.y2
  }

  /** The box `[x - half, x + half] x [y - half, y + half]` that `collide(node)` computes once, before visiting. */
  function NodeBox(n: Node, half: real): Box {
    Box(n.x - half, n.y - half, n.x + half, n.y + half)
  }

  /** The half-width the source gives that box: `r = radius`. */
  const AsWrittenHalf: real := Radius
  /** The half-width that covers every centre within the overlap distance `2 * radius`. */
  const CorrectedHalf: real := 2.0 * Radius

  /** The visitor's return value: skip the children of region `quad` (`x1 > nx2 || x2 < nx1 || y1 > ny2 || y2 < ny1`). */
  predicate Prune(quad: Box, nb: Box): (r: bool)
    ensures r ==> forall px: real, py: real :: Contains(quad, px, py) ==> !Contains(nb, px, py)
    ensures !r && Ordered(quad) && Ordered(nb) ==>
      var px, py := Max(quad.x1, nb.x1), Max(quad.y1, nb.y1);
      Contains(quad, px, py) && Contains(nb, px, py)
  {
    quad.x1 > nb.x2 || quad.x2 < nb.x1 || quad.y1 > nb.y2 || quad.y2 < nb.y1
  }

  /** Two boxes share a point. */
  ghost predicate Meet(a: Box, b: Box) {
    exists px: real, py: real :: Contains(a, px, py) && Contains(b, px, py)
  }

  /** The visitor prunes exactly the regions that are disjoint from the node's box. */
  lemma PruneIffDisjoint(quad: Box, nb: Box)
    requires Ordered(quad) && Ordered(nb)
    ensures Prune(quad, nb) <==> !Meet(quad, nb)
  {
    if !Prune(quad, nb) {
      var px, py := Max(quad.x1, nb.x1), Max(quad.y1, nb.y1);
      assert Contains(quad, px, py) && Contains(nb, px, py);
    }
  }

  function SquaredDistance(a: Node, b: Node): real {
    (a.x - b.x) * (a.x - b.x) + (a.y - b.y) * (a.y - b.y)
  }

  /** The two circles overlap: their centres are closer than `2 * radius`, stated on squares. */
  predicate Overlapping(a: Node, b: Node) {
    SquaredDistance(a, b) < (2.0 * Radius) * (2.0 * Radius)
  }

  /** The source's test `l < r`, with `l = Math.sqrt(x * x + y * y)` and `r = radius * 2`, is the squared test. */
  lemma SqrtFreeGuard(l: real, a: Node, b: Node)
    requires 0.0 <= l && l * l == SquaredDistance(a, b)
    ensures l < 2.0 * Radius <==> Overlapping(a, b)
  {
    if l >= 2.0 * Radius {
      assert l * l >= (2.0 * Radius) * l >= (2.0 * Radius) * (2.0 * Radius);
    } else {
      assert l * l <= (2.0 * Radius) * l;
      assert (2.0 * Radius) * l < (2.0 * Radius) * (2.0 * Radius);
    }
  }

  /** The visitor corrects the pair (active, other): a different node whose circle overlaps. */
  predicate ShouldCorrect(active: Node, other: Node): (r: bool)
    ensures r ==> other.id != active.id
    ensures r ==> -2.0 * Radius <= active.x - other.x <= 2.0 * Radius && -2.0 * Radius <= active.y - other.y <= 2.0 * Radius
    ensures other.id != active.id && !r ==> SquaredDistance(active, other) >= (2.0 * Radius) * (2.0 * Radius)
  {
    if other.id != active.id && Overlapping(active, other) then
      OverlapIsNear(active, other);
      true
    else
      false
  }

  /** Overlapping centres are within `2 * radius` of each other along both axes. */
  lemma OverlapIsNear(a: Node, p: Node)
    requires Overlapping(a, p)
    ensures -2.0 * Radius <= a.x - p.x <= 2.0 * Radius && -2.0 * Radius <= a.y - p.y <= 2.0 * Radius
  {
    if !(-2.0 * Radius <= a.x - p.x <= 2.0 * Radius && -2.0 * Radius <= a.y - p.y <= 2.0 * Radius) {
      FarAlongAnAxis(a, p);
    }
  }

  /** Whether a pair is corrected does not depend on which of the two is the active node. */
  lemma ShouldCorrectSymmetric(a: Node, b: Node)
    ensures ShouldCorrect(a, b) <==> ShouldCorrect(b, a)
  {
    assert (a.x - b.x) * (a.x - b.x) == (b.x - a.x) * (b.x - a.x);
    assert (a.y - b.y) * (a.y - b.y) == (b.y - a.y) * (b.y - a.y);
  }

  /**
   * Two distinct nodes at the same point pass the guard, so the correction that follows it divides
   * by the distance 0.
   */
  lemma CoincidentNodesPassTheGuard(a: Node, b: Node)
    requires a.id != b.id && a.x == b.x && a.y == b.y
    ensures ShouldCorrect(a, b) && SquaredDistance(a, b) == 0.0
  {
  }

  /** A centre more than `2 * radius` away along one axis does not overlap. */
  lemma FarAlongAnAxis(a: Node, p: Node)
    requires a.x - p.x > 2.0 * Radius || p.x - a.x > 2.0 * Radius || a.y - p.y > 2.0 * Radius || p.y - a.y > 2.0 * Radius
    ensures !Overlapping(a, p)
  {
    var dx, dy := a.x - p.x, a.y - p.y;
    assert dx * dx >= 0.0 && dy * dy >= 0.0;
    if dx > 2.0 * Radius || -dx > 2.0 * Radius {
      assert dx * dx > (2.0 * Radius) * (2.0 * Radius);
    } else {
      assert dy * dy > (2.0 * Radius) * (2.0 * Radius);
    }
  }

  /** With the corrected half-width, a pruned region holds no centre that overlaps the active node. */
  lemma CorrectedPruneIsSound(quad: Box, active: Node, p: Node)
    requires Prune(quad, NodeBox(active, CorrectedHalf)) && Contains(quad, p.x, p.y)
    ensures !Overlapping(active, p)
  {
    FarAlongAnAxis(active, p);
  }

  /** With the source's half-width, a pruned region can hold a centre that overlaps the active node. */
  lemma AsWrittenPruneIsUnsound()
    ensures var quad, a, b := Box(150.0, 150.0, 161.25, 161.25), Node(0, 150.0, 150.0), Node(1, 195.0, 155.0);
      Prune(quad, NodeBox(b, AsWrittenHalf)) && Contains(quad, a.x, a.y) && ShouldCorrect(b, a)
  {
  }

  /** A region of the spatial index: its rectangle, the node it holds, if any, and its child regions. */
  datatype Quad = Quad(box: Box, point: Option<Node>, kids: seq<Quad>)

  /** Every region's node lies in its rectangle and every child's rectangle lies in its parent's. */
  ghost predicate WellFormed(t: Quad)
    decreases t
  {
    Ordered(t.box) &&
    (t.point.Some? ==> Contains(t.box, t.point.value.x, t.point.value.y)) &&
    forall i :: 0 <= i < |t.kids| ==> Within(t.kids[i].box, t.box) && WellFormed(t.kids[i])
  }

  /** Node p is held by t or by one of its descendants. */
  ghost predicate Holds(t: Quad, p: Node)
    decreases t
  {
    t.point == Some(p) || exists i :: 0 <= i < |t.kids| && Holds(t.kids[i], p)
  }

  /** The visitor on one region: the id of the region's node when the pair is corrected. */
  function Here(t: Quad, active: Node): seq<int> {
    if t.point.Some? && ShouldCorrect(active, t.point.value) then [t.point.value.id] else []
  }

  /** `q.visit(collide(active))`: the ids the visitor corrects against, in visiting order. */
  function Visit(t: Quad, active: Node, half: real): (r: seq<int>)
    ensures forall k :: 0 <= k < |r| ==> r[k] != active.id
    decreases t
  {
    Here(t, active) + (if Prune(t.box, NodeBox(active, half)) then [] else VisitKids(t.kids, active, half))
  }

  /** Visiting the child regions in order. */
  function VisitKids(ts: seq<Quad>, active: Node, half: real): (r: seq<int>)
    ensures forall k :: 0 <= k < |r| ==> r[k] != active.id
    decreases ts
  {
    if ts == [] then [] else Visit(ts[0], active, half) + VisitKids(ts[1..], active, half)
  }

  /** A visit reports only distinct overlapping nodes that the tree holds. */
  lemma {:induction false} VisitReportsOnlyOverlaps(t: Quad, active: Node, half: real, id: int)
    requires id in Visit(t, active, half)
    ensures exists p :: Holds(t, p) && p.id == id && ShouldCorrect(active, p)
    decreases t
  {
    if id in Here(t, active) {
      assert Holds(t, t.point.value);
    } else {
      VisitKidsReportsOnlyOverlaps(t.kids, active, half, id);
      var i :| 0 <= i < |t.kids| && exists p :: Holds(t.kids[i], p) && p.id == id && ShouldCorrect(active, p);
      var p :| Holds(t.kids[i], p) && p.id == id && ShouldCorrect(active, p);
      assert Holds(t, p);
    }
  }

  lemma {:induction false} VisitKidsReportsOnlyOverlaps(ts: seq<Quad>, active: Node, half: real, id: int)
    requires id in VisitKids(ts, active, half)
    ensures exists i :: 0 <= i < |ts| && exists p :: Holds(ts[i], p) && p.id == id && ShouldCorrect(active, p)
    decreases ts
  {
    if id in Visit(ts[0], active, half) {
      VisitReportsOnlyOverlaps(ts[0], active, half, id);
    } else {
      VisitKidsReportsOnlyOverlaps(ts[1..], active, half, id);
      var i :| 0 <= i < |ts[1..]| && exists p :: Holds(ts[1..][i], p) && p.id == id && ShouldCorrect(active, p);
      assert ts[1..][i] == ts[i + 1];
    }
  }

  /** A node held by a well-formed region lies in its rectangle. */
  lemma {:induction false} HeldNodeInBox(t: Quad, p: Node)
    requires WellFormed(t) && Holds(t, p)
    ensures Contains(t.box, p.x, p.y)
    decreases t
  {
    if t.point != Some(p) {
      var i :| 0 <= i < |t.kids| && Holds(t.kids[i], p);
      HeldNodeInBox(t.kids[i], p);
    }
  }

  /** Visiting a list of regions reports everything that visiting one of them reports. */
  lemma {:induction false} VisitKidsIncludes(ts: seq<Quad>, i: int, active: Node, half: real, id: int)
    requires 0 <= i < |ts| && id in Visit(ts[i], active, half)
    ensures id in VisitKids(ts, active, half)
    decreases i
  {
    if i > 0 {
      assert ts[1..][i - 1] == ts[i];
      VisitKidsIncludes(ts[1..], i - 1, active, half, id);
    }
  }

  /** With the corrected half-width, a visit reaches every node of the tree that the active node overlaps. */
  lemma {:induction false} VisitFindsEveryOverlap(t: Quad, active: Node, p: Node)
    requires WellFormed(t) && Holds(t, p) && ShouldCorrect(active, p)
    ensures p.id in Visit(t, active, CorrectedHalf)
    decreases t
  {
    if t.point == Some(p) {
      assert p.id in Here(t, active);
    } else {
      HeldNodeInBox(t, p);
      if Prune(t.box, NodeBox(active, CorrectedHalf)) {
        CorrectedPruneIsSound(t.box, active, p);
        assert false;
      }
      var i :| 0 <= i < |t.kids| && Holds(t.kids[i], p);
      VisitFindsEveryOverlap(t.kids[i], active, p);
      VisitKidsIncludes(t.kids, i, active, half := CorrectedHalf, id := p.id);
    }
  }

  /** The pairs (active id, other id) one visit corrects. */
  function Pairs(active: int, others: seq<int>): (r: seq<(int, int)>)
    ensures |r| == |others| && forall k :: 0 <= k < |r| ==> r[k] == (active, others[k])
  {
    seq(|others|, k requires 0 <= k < |others| => (active, others[k]))
  }

  /** The pairs corrected by the visits of nodes[1], ..., nodes[i - 1]: nodes[0] is never the active node. */
  function ChecksUpTo(t: Quad, nodes: seq<Node>, half: real, i: nat): seq<(int, int)>
    requires i <= |nodes|
  {
    if i <= 1 then [] else ChecksUpTo(t, nodes, half, i - 1) + Pairs(nodes[i - 1].id, Visit(t, nodes[i - 1], half))
  }

  /** The pairs corrected by one run of the loop `while (++i < n) q.visit(collide(nodes[i]))`. */
  function Checks(t: Quad, nodes: seq<Node>, half: real): seq<(int, int)> {
    ChecksUpTo(t, nodes, half, |nodes|)
  }

  /** The loop in `tick` that visits the index once per node after the first. */
  method CollisionChecks(t: Quad, nodes: seq<Node>, half: real) returns (checks: seq<(int, int)>)
    ensures checks == Checks(t, nodes, half)
  {
    var n := |nodes|;
    checks := [];
    var i := 1;
    while i < n
      invariant 1 <= i && (i <= n || n == 0)
      invariant checks == ChecksUpTo(t, nodes, half, if n == 0 then 0 else i)
    {
      var found := Visit(t, nodes[i], half);
      checks := checks + Pairs(nodes[i].id, found);
      i := i + 1;
    }
  }

  /** Every pair of ChecksUpTo(i) has an active node among nodes[1..i] and is reported by its visit. */
  lemma {:induction false} ChecksComeFromLaterNodes(t: Quad, nodes: seq<Node>, half: real, i: nat, k: int)
    requires i <= |nodes| && 0 <= k < |ChecksUpTo(t, nodes, half, i)|
    ensures exists j :: 1 <= j < i && ChecksUpTo(t, nodes, half, i)[k].0 == nodes[j].id
                                    && ChecksUpTo(t, nodes, half, i)[k].1 in Visit(t, nodes[j], half)
    decreases i
  {
    var prev := ChecksUpTo(t, nodes, half, i - 1);
    if k < |prev| {
      ChecksComeFromLaterNodes(t, nodes, half, i - 1, k);
    } else {
      var c := ChecksUpTo(t, nodes, half, i)[k];
      assert c == (nodes[i - 1].id, Visit(t, nodes[i - 1], half)[k - |prev|]);
    }
  }

  /**
   * The loop never makes the first node the active one: with unique ids, no corrected pair has it
   * as its active side, and every corrected pair is a distinct overlapping pair of held nodes.
   */
  lemma FirstNodeNeverActive(t: Quad, nodes: seq<Node>, half: real, k: int)
    requires UniqueIds(nodes) && 0 <= k < |Checks(t, nodes, half)|
    ensures Checks(t, nodes, half)[k].0 != nodes[0].id
    ensures exists p :: Holds(t, p) && p.id == Checks(t, nodes, half)[k].1 && p.id != Checks(t, nodes, half)[k].0
  {
    ChecksComeFromLaterNodes(t, nodes, half, |nodes|, k);
    var j :| 1 <= j < |nodes| && Checks(t, nodes, half)[k].0 == nodes[j].id
                              && Checks(t, nodes, half)[k].1 in Visit(t, nodes[j], half);
    VisitReportsOnlyOverlaps(t, nodes[j], half, Checks(t, nodes, half)[k].1);
  }

  /** ChecksUpTo(m) includes the pairs of every visit it runs. */
  lemma {:induction false} ChecksUpToIncludes(t: Quad, nodes: seq<Node>, half: real, m: nat, j: nat, id: int)
    requires 1 <= j < m <= |nodes| && id in Visit(t, nodes[j], half)
    ensures (nodes[j].id, id) in ChecksUpTo(t, nodes, half, m)
    decreases m
  {
    if j < m - 1 {
      ChecksUpToIncludes(t, nodes, half, m - 1, j, id);
    } else {
      var found := Visit(t, nodes[j], half);
      var k :| 0 <= k < |found| && found[k] == id;
      assert Pairs(nodes[j].id, found)[k] == (nodes[j].id, id);
    }
  }

  /**
   * With the corrected half-width, skipping the first node loses nothing: every distinct
   * overlapping pair of nodes held by a well-formed index is corrected from its later node's side.
   */
  lemma CorrectedChecksCoverEveryPair(t: Quad, nodes: seq<Node>, i: int, j: int)
    requires WellFormed(t) && forall k :: 0 <= k < |nodes| ==> Holds(t, nodes[k])
    requires 0 <= i < j < |nodes| && ShouldCorrect(nodes[j], nodes[i])
    ensures (nodes[j].id, nodes[i].id) in Checks(t, nodes, CorrectedHalf)
  {
    VisitFindsEveryOverlap(t, nodes[j], nodes[i]);
    ChecksUpToIncludes(t, nodes, CorrectedHalf, |nodes|, j, nodes[i].id);
  }

  /** Three nodes, in array order, for which the source's loop misses an overlapping pair. */
  const NodeA: Node := Node(0, 150.0, 150.0)
  const NodeB: Node := Node(1, 195.0, 155.0)
  const NodeD: Node := Node(2, 158.0, 158.0)

  /**
   * The regions of the quadtree d3 builds when NodeA, NodeB and NodeD are inserted in that order:
   * the extent [150, 195] x [150, 158] squared to [150, 195] x [150, 195], then split until each
   * node has a region of its own.
   */
  const LeafA: Quad := Quad(Box(150.0, 150.0, 155.625, 155.625), Some(NodeA), [])
  const LeafD: Quad := Quad(Box(155.625, 155.625, 161.25, 161.25), Some(NodeD), [])
  const CellAD: Quad := Quad(Box(150.0, 150.0, 161.25, 161.25), None, [LeafA, LeafD])
  const TopLeft: Quad := Quad(Box(150.0, 150.0, 172.5, 172.5), None, [CellAD])
  const TopRight: Quad := Quad(Box(172.5, 150.0, 195.0, 172.5), Some(NodeB), [])
  const ExampleIndex: Quad := Quad(Box(150.0, 150.0, 195.0, 195.0), None, [TopLeft, TopRight])

  lemma ExampleIndexHoldsItsNodes()
    ensures WellFormed(ExampleIndex)
    ensures Holds(ExampleIndex, NodeA) && Holds(ExampleIndex, NodeB) && Holds(ExampleIndex, NodeD)
  {
    assert WellFormed(LeafA) && WellFormed(LeafD) && WellFormed(TopRight);
    assert WellFormed(CellAD);
    assert WellFormed(TopLeft);
    assert CellAD.kids[0] == LeafA && CellAD.kids[1] == LeafD && TopLeft.kids[0] == CellAD;
    assert ExampleIndex.kids[0] == TopLeft && ExampleIndex.kids[1] == TopRight;
    assert Holds(LeafA, NodeA) && Holds(CellAD, NodeA) && Holds(TopLeft, NodeA);
    assert Holds(LeafD, NodeD) && Holds(CellAD, NodeD) && Holds(TopLeft, NodeD);
    assert Holds(TopRight, NodeB);
  }

  /** With the source's half-width, NodeB's box prunes the region holding NodeA and NodeD. */
  lemma ExampleVisitOfBAsWritten()
    ensures Visit(ExampleIndex, NodeB, AsWrittenHalf) == []
  {
    assert Prune(CellAD.box, NodeBox(NodeB, AsWrittenHalf));
    assert Visit(CellAD, NodeB, AsWrittenHalf) == [];
    assert VisitKids([CellAD], NodeB, AsWrittenHalf) == [];
    assert Visit(TopLeft, NodeB, AsWrittenHalf) == [];
    assert Visit(TopRight, NodeB, AsWrittenHalf) == [];
    assert VisitKids([TopRight], NodeB, AsWrittenHalf) == [];
    assert VisitKids([TopLeft, TopRight], NodeB, AsWrittenHalf) == [];
  }

  lemma ExampleVisitOfD(half: real)
    requires half == AsWrittenHalf || half == CorrectedHalf
    ensures Visit(ExampleIndex, NodeD, half) == [0, 1]
  {
    assert Visit(LeafA, NodeD, half) == [0];
    assert Visit(LeafD, NodeD, half) == [];
    assert VisitKids([LeafD], NodeD, half) == [];
    assert Visit(CellAD, NodeD, half) == [0];
    assert VisitKids([CellAD], NodeD, half) == [0];
    assert Visit(TopLeft, NodeD, half) == [0];
    assert Visit(TopRight, NodeD, half) == [1];
    assert VisitKids([TopRight], NodeD, half) == [1];
  }

  lemma ExampleVisitOfBCorrected()
    ensures Visit(ExampleIndex, NodeB, CorrectedHalf) == [0, 2]
  {
    assert Visit(LeafA, NodeB, CorrectedHalf) == [0];
    assert Visit(LeafD, NodeB, CorrectedHalf) == [2];
    assert VisitKids([LeafD], NodeB, CorrectedHalf) == [2];
    assert Visit(CellAD, NodeB, CorrectedHalf) == [0, 2];
    assert VisitKids([CellAD], NodeB, CorrectedHalf) == [0, 2];
    assert Visit(TopLeft, NodeB, CorrectedHalf) == [0, 2];
    assert Visit(TopRight, NodeB, CorrectedHalf) == [];
    assert VisitKids([TopRight], NodeB, CorrectedHalf) == [];
  }

  /**
   * With the source's half-width the loop misses an overlapping pair: NodeA = nodes[0] is never
   * active, and NodeB's box prunes the region holding NodeA, so the pair, at distance about
   * 45.3 < 60, is never corrected; with the corrected half-width it is.
   */
  lemma AsWrittenChecksMissAPair()
    ensures WellFormed(ExampleIndex) && ShouldCorrect(NodeB, NodeA)
    ensures forall n :: n in [NodeA, NodeB, NodeD] ==> Holds(ExampleIndex, n)
    ensures Checks(ExampleIndex, [NodeA, NodeB, NodeD], AsWrittenHalf) == [(2, 0), (2, 1)]
    ensures Checks(ExampleIndex, [NodeA, NodeB, NodeD], CorrectedHalf) == [(1, 0), (1, 2), (2, 0), (2, 1)]
  {
    ExampleIndexHoldsItsNodes();
    ExampleVisitOfBAsWritten();
    ExampleVisitOfD(AsWrittenHalf);
    ExampleVisitOfD(CorrectedHalf);
    ExampleVisitOfBCorrected();
    var nodes := [NodeA, NodeB, NodeD];
    assert ChecksUpTo(ExampleIndex, nodes, AsWrittenHalf, 2) == [];
    assert ChecksUpTo(ExampleIndex, nodes, CorrectedHalf, 2) == [(1, 0), (1, 2)];
  }
}
