/**
 * The module-level editing state of app.js and the handlers that change it: the node array, the
 * id counter, the selected / mouse-down / mouse-up node references and the once-per-key gate.
 * Node references are held as ids; rendering, the force layout and event wiring are not modelled.
 */
module Interaction {
  import opened Wrappers
  import opened Bounds
  import opened NodeSet
  import opened Collide

  const Backspace: int := 8
  const Delete: int := 46
  /** `lastKeyDown` when no key is down. */
  const NoKey: int := -1

  class Session {
    var nodes: seq<Node>
    var lastNodeId: int
    var selected: Option<int>
    var mousedownNode: Option<int>
    var mouseupNode: Option<int>
    var lastKeyDown: int
    /** Every id ever given to a node, including those of deleted nodes. */
    ghost var issued: set<int>

    /**
     * Ids are unique, every live id has been issued, issued ids lie between 0 and the counter, and the
     * selection, when there is one, is a live node.
     */
    ghost predicate Valid()
      reads this
    {
      UniqueIds(nodes) &&
      Ids(nodes) <= issued &&
      0 <= lastNodeId &&
      (forall id :: id in issued ==> 0 <= id <= lastNodeId) &&
      (selected.Some? ==> selected.value in Ids(nodes))
    }

    /**
     * The start-up state: nodes 0, 1 and 2, counter 2, nothing selected, no key down. The initial
     * positions are the ones the force layout assigns when it starts.
     */
    constructor (p0: (real, real), p1: (real, real), p2: (real, real))
      ensures Valid()
      ensures nodes == [Node(0, p0.0, p0.1), Node(1, p1.0, p1.1), Node(2, p2.0, p2.1)]
      ensures lastNodeId == 2 && issued == {0, 1, 2}
      ensures selected == None && mousedownNode == None && mouseupNode == None
      ensures lastKeyDown == NoKey
    {
      var initial := [Node(0, p0.0, p0.1), Node(1, p1.0, p1.1), Node(2, p2.0, p2.1)];
      assert Ids(initial) == {0, 1, 2} by {
        assert initial[0] in initial && initial[1] in initial && initial[2] in initial;
      }
      nodes := initial;
      lastNodeId := 2;
      issued := {0, 1, 2};
      selected, mousedownNode, mouseupNode := None, None, None;
      lastKeyDown := NoKey;
    }

    /** `resetMouseVars`: forgets the mouse-down and mouse-up nodes and nothing else. */
    method ResetMouseVars()
      requires Valid()
      modifies this`mousedownNode, this`mouseupNode
      ensures Valid()
      ensures mousedownNode == None && mouseupNode == None
    {
      mousedownNode := None;
      mouseupNode := None;
    }

    /** `mouseup` on the surface. */
    method MouseUp()
      requires Valid()
      modifies this`mousedownNode, this`mouseupNode
      ensures Valid()
      ensures mousedownNode == None && mouseupNode == None
    {
      ResetMouseVars();
    }

    /**
     * `mousedown` on the surface: unless ctrl is held or a node was just pressed, appends a node
     * with the next id at the centre of the surface (the pointer position is not used) and
     * advances the counter. The new id was never issued before, so deleted ids are not reused.
     */
    method BackgroundMouseDown(ctrl: bool, px: real, py: real)
      requires Valid()
      modifies this`nodes, this`lastNodeId, this`issued
      ensures Valid()
      ensures ctrl || mousedownNode.Some? ==>
        nodes == old(nodes) && lastNodeId == old(lastNodeId) && issued == old(issued)
      ensures !ctrl && mousedownNode.None? ==>
        lastNodeId == old(lastNodeId) + 1 &&
        lastNodeId !in old(issued) && issued == old(issued) + {lastNodeId} &&
        nodes == old(nodes) + [Node(lastNodeId, Width / 2.0, Height / 2.0)]
    {
      if ctrl || mousedownNode.Some? {
        return;
      }
      assert forall i :: 0 <= i < |nodes| ==> nodes[i].id <= lastNodeId by {
        forall i | 0 <= i < |nodes| ensures nodes[i].id <= lastNodeId {
          assert nodes[i] in nodes;
          assert nodes[i].id in Ids(nodes);
        }
      }
      lastNodeId := lastNodeId + 1;
      var node := Node(lastNodeId, Width / 2.0, Height / 2.0);
      IdsOfConcat(nodes, [node]);
      assert Ids([node]) == {node.id};
      nodes := nodes + [node];
      issued := issued + {node.id};
    }

    /**
     * `mousedown` on node id: unless ctrl is held, records the node as pressed and toggles its
     * selection: a selected node becomes unselected, any other node becomes the selection.
     */
    method NodeMouseDown(id: int, ctrl: bool)
      requires Valid() && id in Ids(nodes)
      modifies this`mousedownNode, this`selected
      ensures Valid()
      ensures ctrl ==> mousedownNode == old(mousedownNode) && selected == old(selected)
      ensures !ctrl ==> mousedownNode == Some(id)
      ensures !ctrl && old(selected) == Some(id) ==> selected == None
      ensures !ctrl && old(selected) != Some(id) ==> selected == Some(id)
    {
      if ctrl {
        return;
      }
      mousedownNode := Some(id);
      if mousedownNode == selected {
        selected := None;
      } else {
        selected := mousedownNode;
      }
    }

    /**
     * `keydown`: acts only when no key is down; then records the key and, when it is Backspace or
     * Delete and a node is selected, removes exactly that node, keeping the order of the others,
     * and clears the selection. The counter and the issued ids never change.
     */
    method KeyDown(keyCode: int)
      requires Valid()
      modifies this`lastKeyDown, this`nodes, this`selected
      ensures Valid()
      ensures old(lastKeyDown) != NoKey ==>
        lastKeyDown == old(lastKeyDown) && nodes == old(nodes) && selected == old(selected)
      ensures old(lastKeyDown) == NoKey ==> lastKeyDown == keyCode
      ensures old(lastKeyDown) == NoKey && old(selected).Some? && (keyCode == Backspace || keyCode == Delete) ==>
        nodes == Without(old(nodes), old(selected).value) && selected == None &&
        |nodes| == |old(nodes)| - 1 && Ids(nodes) == Ids(old(nodes)) - {old(selected).value}
      ensures old(lastKeyDown) == NoKey && (old(selected).None? || (keyCode != Backspace && keyCode != Delete)) ==>
        nodes == old(nodes) && selected == old(selected)
    {
      if lastKeyDown != NoKey {
        return;
      }
      lastKeyDown := keyCode;
      if selected.None? {
        return;
      }
      if keyCode == Backspace || keyCode == Delete {
        var k := IndexOf(nodes, selected.value);
        SpliceAtIndexOfIsWithout(nodes, selected.value);
        WithoutRemovesOne(nodes, selected.value);
        nodes := Splice(nodes, k);
        selected := None;
      }
    }

    /** `keyup`: reopens the gate for the next key. */
    method KeyUp()
      requires Valid()
      modifies this`lastKeyDown
      ensures Valid()
      ensures lastKeyDown == NoKey
    {
      lastKeyDown := NoKey;
    }

    /**
     * `tick`: the clamp loop brings every node inside the surface, keeping the nodes, their order
     * and ids; then every node but the first visits the index q, which d3 builds from the nodes
     * before the clamp loop runs, with the box of half-width `radius` that `collide` computes.
     */
    method Tick(q: Quad) returns (checks: seq<(int, int)>)
      requires Valid()
      modifies this`nodes
      ensures Valid()
      ensures nodes == ClampAll(old(nodes))
      ensures checks == Checks(q, nodes, AsWrittenHalf)
    {
      var idx := 0;
      while idx < |nodes|
        invariant 0 <= idx <= |nodes| == |old(nodes)|
        invariant forall k :: 0 <= k < idx ==> nodes[k] == ClampNode(old(nodes)[k])
        invariant forall k :: idx <= k < |nodes| ==> nodes[k] == old(nodes)[k]
      {
        nodes := nodes[idx := nodes[idx].(x := BoundingBox(X, nodes[idx].x))];
        nodes := nodes[idx := nodes[idx].(y := BoundingBox(Y, nodes[idx].y))];
        idx := idx + 1;
      }
      ClampAllKeepsIds(old(nodes));
      checks := CollisionChecks(q, nodes, AsWrittenHalf);
    }
  }

  /**
   * Clicking node 1 (the node handler, then the surface handler the event bubbles to) selects it
   * without adding a node; releasing the mouse and pressing Delete removes it and only it.
   */
  method SelectAndDeleteScenario() returns (ids: seq<int>, sel: Option<int>, last: int)
    ensures ids == [0, 2] && sel == None && last == 2
  {
    var s := new Session((60.0, 60.0), (150.0, 150.0), (240.0, 240.0));
    assert 1 in Ids(s.nodes) by { assert s.nodes[1] in s.nodes; }
    s.NodeMouseDown(1, false);
    s.BackgroundMouseDown(false, 150.0, 150.0);
    s.MouseUp();
    var n0, n2 := Node(0, 60.0, 60.0), Node(2, 240.0, 240.0);
    assert Without(s.nodes[2..], 1) == [n2];
    assert Without(s.nodes[1..], 1) == [n2];
    s.KeyDown(Delete);
    assert s.nodes == [n0, n2];
    s.KeyUp();
    ids, sel, last := IdList(s.nodes), s.selected, s.lastNodeId;
  }

  /**
   * Two presses without a release act once: after the first Delete removes node 0, selecting
   * node 1 and pressing Delete again before the key-up leaves it in place.
   */
  method KeyRepeatScenario() returns (ids: seq<int>, sel: Option<int>)
    ensures ids == [1, 2] && sel == Some(1)
  {
    var s := new Session((60.0, 60.0), (150.0, 150.0), (240.0, 240.0));
    assert 0 in Ids(s.nodes) by { assert s.nodes[0] in s.nodes; }
    s.NodeMouseDown(0, false);
    s.MouseUp();
    var n1, n2 := Node(1, 150.0, 150.0), Node(2, 240.0, 240.0);
    assert Without(s.nodes[2..], 0) == [n2];
    assert Without(s.nodes[1..], 0) == [n1, n2];
    s.KeyDown(Delete);
    assert s.nodes == [n1, n2];
    assert 1 in Ids(s.nodes) by { assert s.nodes[0] in s.nodes; }
    s.NodeMouseDown(1, false);
    s.MouseUp();
    s.KeyDown(Delete);
    ids, sel := IdList(s.nodes), s.selected;
  }

  /**
   * A click on empty space at (10, 10) adds node 3 at the centre of the surface, where the clamp
   * pass leaves it; deleting node 2 first does not make its id available again.
   */
  method AddAfterDeleteScenario(q: Quad) returns (added: Node, count: int)
    ensures added == Node(3, 150.0, 150.0) && count == 3
  {
    var s := new Session((60.0, 60.0), (150.0, 150.0), (240.0, 240.0));
    assert 2 in Ids(s.nodes) by { assert s.nodes[2] in s.nodes; }
    s.NodeMouseDown(2, false);
    s.MouseUp();
    assert Without(s.nodes[2..], 2) == [];
    assert Without(s.nodes[1..], 2) == [s.nodes[1]];
    s.KeyDown(Backspace);
    s.KeyUp();
    s.BackgroundMouseDown(false, 10.0, 10.0);
    var _ := s.Tick(q);
    added, count := s.nodes[|s.nodes| - 1], |s.nodes|;
  }
}
