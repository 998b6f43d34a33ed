# People-in-elevator editing model

A Dafny model of the editing core of `app.js`, a D3 demo that draws circular nodes on a 300 x 300
surface. Users add nodes by clicking empty space, select a node by clicking it, and delete the
selection with Backspace or Delete. On every frame the demo clamps the nodes inside the surface.
It then runs a quadtree-pruned collision pass.

The model has five modules:

- `Bounds`: the surface constants (`width`, `height`, `radius` = 300, 300, 30) and `boundingBox`,
  the clamp that keeps a circle on the surface.
- `NodeSet`: the node records `{id, x, y}` and the array operations the handlers use:
  - `indexOf`;
  - `splice(k, 1)`, including JavaScript's meaning of a negative start;
  - a reference definition of deletion by id;
  - the per-frame clamp pass.
- `Collide`: the collision visitor `collide(node)` and the loop `while (++i < n) q.visit(...)`.
  - The quadtree is abstracted to a tree of rectangular regions. Each region holds at most one node
    and has a list of child regions.
  - A visit calls the visitor on a region. It descends into the children only when the visitor
    returns false.
  - A visit yields the ids of the nodes the visitor would correct against.
- `Interaction`: the class `Session`, which holds the module-level state of app.js. The fields are
  `nodes`, `lastNodeId`, `selected_node`, `mousedown_node`, `mouseup_node` and `lastKeyDown`.
  - Its methods are the handlers: surface mousedown and mouseup, node mousedown, keydown, keyup and
    `tick`.
  - `Valid()` is the invariant every handler keeps:
    - ids are unique;
    - every live id was issued;
    - issued ids lie in `[0, lastNodeId]`;
    - the selection is a live node.
  - A ghost set of issued ids shows that deleted ids are never reused.
- `Wrappers`: `Option`, used for node references that may be `null`.

Nodes are identified by id. `restart` keys the rendered elements by id (app.js:63-64). With unique
ids, comparing references and comparing ids agree.

Two facts about app.js shape the model:

- A new node is placed at the centre of the surface, because `point` (app.js:124) is computed and
  never used. A click at (10, 10) yields a node at (150, 150).
- `tick` builds the quadtree (app.js:44) before the clamp loop (app.js:48-51).

## Model

| member | source | states |
|---|---|---|
| `Bounds.Clamp` | app.js:172 | `Math.max(lo, Math.min(hi, v))` lies in `[lo, hi]` when that interval is not empty; it is the identity inside the interval and gives the nearer end outside it |
| `Bounds.ClampIdempotent` | app.js:170-176 | clamping twice is clamping once |
| `Bounds.ClampIsNearest` | app.js:170-176 | the clamped value is the point of `[lo, hi]` nearest the input |
| `Bounds.BoundingBox` | app.js:170-176 | `boundingBox` lies in `[radius, dimension - radius]` for x (width) and for y (height), and leaves a value already in that range unchanged |
| `Bounds.BoundingBoxIdempotent` | app.js:170-176 | `boundingBox` is idempotent on both axes |
| `NodeSet.IndexOf` | app.js:154 | `indexOf` gives the first position holding the node, or -1 exactly when no node has that id |
| `NodeSet.Splice` | app.js:154 | `splice(start, 1)` removes the element at start; a negative start counts from the end; a start past the end removes nothing |
| `NodeSet.Without` | app.js:150-157 | the reference meaning of deletion by id, written as an in-order filter; its contract proves the remaining ids are exactly the other ids and stay unique |
| `NodeSet.SpliceAtIndexOfIsWithout` | app.js:154 | with unique ids and a live selection, `nodes.splice(nodes.indexOf(selected_node), 1)` removes exactly the selected node and keeps the others in order |
| `NodeSet.WithoutRemovesOne` | app.js:154 | deleting a live id removes exactly one node |
| `NodeSet.SpliceOfMissingDropsLast` | app.js:154 | if the selection were not in the array, the same statement would remove the last node |
| `NodeSet.ClampNode` | app.js:49-50 | one iteration of the clamp loop keeps the node's id, puts it inside the surface, and leaves a node already inside unchanged |
| `NodeSet.ClampAll` | app.js:48-51 | the clamp pass keeps the count, order and ids; it puts every node inside the surface and leaves nodes already inside where they are |
| `NodeSet.ClampAllKeepsIds` | app.js:48-51 | the clamp pass keeps the set of ids and their uniqueness |
| `NodeSet.ClampAllIdempotent` | app.js:48-51 | a second clamp pass moves nothing |
| `Collide.Prune` | app.js:198 | the visitor's return value: when true, no point of the region lies in the node's box; when false (ordered boxes), the point at the larger lower corners lies in both |
| `Collide.PruneIffDisjoint` | app.js:178-183 | the visitor's return value (the region lies wholly beyond the node's box along x or along y) holds exactly when the region and the node's box share no point |
| `Collide.SqrtFreeGuard` | app.js:186-190 | `l < radius * 2` with `l = sqrt(x*x + y*y)` holds exactly when the squared distance is below `4 * radius^2` |
| `Collide.ShouldCorrect` | app.js:185-190 | the condition under which the visitor corrects a pair: only for a different node; such a node lies within `2 * radius` along both axes, and a different node it rejects is at least `2 * radius` away |
| `Collide.ShouldCorrectSymmetric` | app.js:185-190 | whether a pair is corrected (distinct nodes, overlapping circles) does not depend on which node is active |
| `Collide.CoincidentNodesPassTheGuard` | app.js:185-191 | two distinct nodes at the same point pass the guard, so the correction divides by a zero distance |
| `Collide.AsWrittenPruneIsUnsound` | app.js:179-183 | with the source's half-width `radius`, a pruned region can hold a centre that overlaps the active node |
| `Collide.CorrectedPruneIsSound` | app.js:198 | with half-width `2 * radius`, a pruned region holds no centre that overlaps the active node |
| `Collide.Visit` | app.js:184-199 | `q.visit(collide(node))`: the visitor runs on a region and its children are visited only when it returns false; the active node never corrects against itself |
| `Collide.VisitKids` | app.js:184-199 | the child regions are visited in order; none of them reports the active node |
| `Collide.VisitReportsOnlyOverlaps` | app.js:184-199 | a visit corrects only against distinct, overlapping nodes that the index holds |
| `Collide.VisitFindsEveryOverlap` | app.js:184-199 | with the corrected half-width, a visit of a well-formed index reaches every node the active node overlaps |
| `Collide.CollisionChecks` | app.js:45-53 | the loop `while (++i < n)` visits once for each of `nodes[1..n-1]`, in order, and collects the corrected pairs |
| `Collide.FirstNodeNeverActive` | app.js:45-53 | `nodes[0]` is never the active side of a corrected pair, and every corrected pair consists of two distinct nodes held by the index |
| `Collide.CorrectedChecksCoverEveryPair` | app.js:53 | with the corrected half-width, skipping `nodes[0]` loses no pair: every overlapping pair is corrected from its later node's side |
| `Collide.AsWrittenChecksMissAPair` | app.js:44-53 | with the source's half-width, one frame over nodes (150,150), (195,155), (158,158) never corrects the overlapping pair of nodes 0 and 1; the corrected half-width does correct it |
| `Interaction.Session.constructor` | app.js:14-19 | start-up state: nodes 0, 1, 2, `lastNodeId` = 2, nothing selected or pressed, `lastKeyDown` = -1, invariant established |
| `Interaction.Session.ResetMouseVars` | app.js:37-40 | clears `mousedown_node` and `mouseup_node` and changes nothing else |
| `Interaction.Session.MouseUp` | app.js:133-136 | surface mouseup resets the mouse variables only |
| `Interaction.Session.BackgroundMouseDown` | app.js:120-131 | with ctrl held or a node pressed, nothing changes. Otherwise it appends one node with id `lastNodeId + 1` at the centre (150, 150), whatever the pointer position. It increments the counter, keeps the existing nodes, and issues an id never issued before |
| `Interaction.Session.NodeMouseDown` | app.js:87-96 | with ctrl held, nothing changes. Otherwise the node becomes `mousedown_node`, and its selection toggles: selected becomes null, anything else becomes selected |
| `Interaction.Session.KeyDown` | app.js:138-159 | with a key already down, nothing changes. Otherwise it records the key code. Backspace or Delete with a selection removes exactly the selected node, keeps the others in order and clears the selection. Any other case leaves nodes and selection unchanged. The counter and issued ids never change |
| `Interaction.Session.KeyUp` | app.js:161-168 | resets `lastKeyDown` to -1 so that the next key can act |
| `Interaction.Session.Tick` | app.js:43-58 | the clamp loop makes the nodes `ClampAll` of the old nodes, keeping the invariant; every node but the first then visits the index with `collide`'s box of half-width `radius`, so the pairs returned are those app.js:53 corrects (the ones `Collide.AsWrittenChecksMissAPair` shows can miss an overlap) |
| `Interaction.SelectAndDeleteScenario` | app.js:87-96 | clicking node 1 selects it without adding a node, since the surface handler sees `mousedown_node`; Delete then removes it, leaving ids [0, 2], no selection and counter 2 |
| `Interaction.KeyRepeatScenario` | app.js:138-159 | a second Delete before the key-up does nothing: ids [1, 2] remain and node 1 stays selected |
| `Interaction.AddAfterDeleteScenario` | app.js:120-128 | after deleting node 2, a click at (10, 10) adds node 3 (id 2 is not reused) at (150, 150), where the clamp pass leaves it |

## Left out

- Rendering is not modelled. That covers SVG creation, the enter/update/exit binding in `restart`,
  colours, the mouseover/mouseout scaling, the node `mouseup` handler (which only re-renders),
  `svg.classed`, `preventDefault` and the event wiring at app.js:203-209.
- The D3 force layout is not modelled: charge, gravity, `force.start`, tick scheduling and
  `force.drag`. It is library code and floating-point physics. The initial positions it assigns
  are constructor parameters. Drag moves are not modelled.
- `d3.geom.quadtree` construction is left out. `Tick` takes the index as a parameter. The coverage
  lemmas assume the index is well formed for the positions the visits read. The source does not
  guarantee this when the clamp moves a node, because it builds the index before clamping.
- The correction arithmetic (app.js:188-195) is left out: the square root, the displacement of both
  nodes, and the NaN that a zero distance produces. Only the guard that admits a pair is modelled.
  Visits are evaluated on fixed positions, so the model does not capture how a correction moves the
  nodes that later checks in the same frame read.
- JavaScript numbers are modelled as exact reals: there is no rounding and no NaN.
- `Interaction.Session.Tick`: the index `q` is a value whose regions hold snapshots of the nodes, not
  references to the objects the clamp loop updates. In app.js, `quad.point.x` reads the clamped
  position. The model reads the position stored in `q`, and nothing ties it to the clamped nodes.
- `Interaction.Session.NodeMouseDown` requires the pressed node to be live. D3 dispatches the
  handler only on the circles that `restart` keeps for live nodes.
- `mouseup_node` is never set to a node anywhere in app.js. The model keeps it only so that
  `resetMouseVars` has something to clear.

## Findings

| source | as written | input that shows it | evidently intended | confidence | as-written member | corrected member |
|---|---|---|---|---|---|---|
| app.js:179-183 | The pruning box around the active node has half-width `radius`, but the overlap test (app.js:189) corrects centres up to `radius * 2` apart. A region that holds an overlapping node can therefore be pruned. | Nodes in array order: id 0 at (150,150), id 1 at (195,155), id 2 at (158,158). The quadtree over [150,195]² puts node 0 under the cell [150,161.25]². Node 1's box [165,225]×[125,185] prunes that cell, and node 0 is never active. So the overlapping pair (0, 1), at distance ≈ 45.3 < 60, is not corrected in that frame. | A box half-width of at least `2 * radius`, so that pruning never skips an overlapping centre. | medium, not executed: the miss depends on the quadtree layout d3 builds, and the charge force may still separate the pair | `Collide.AsWrittenChecksMissAPair` | `Collide.CorrectedChecksCoverEveryPair` |
