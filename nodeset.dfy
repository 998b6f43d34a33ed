/**
 * The `nodes` array of app.js: node records identified by `id`, the array operations
 * the handlers apply to it (`indexOf`, `splice(k, 1)`) and the per-frame clamp pass.
 */
module NodeSet {
  import opened Bounds

  /** A node record `{id, x, y}`. */
  datatype Node = Node(id: int, x: real, y: real)

  /** The ids of the nodes in s. */
  ghost function Ids(s: seq<Node>): set<int> {
    set n | n in s :: n.id
  }

  /** No two nodes of s share an id. */
  predicate UniqueIds(s: seq<Node>) {
    forall i, j :: 0 <= i < j < |s| ==> s[i].id != s[j].id
  }

  /** The ids of s, in order. */
  function IdList(s: seq<Node>): (r: seq<int>)
    ensures |r| == |s| && forall i :: 0 <= i < |s| ==> r[i] == s[i].id
  {
    seq(|s|, i requires 0 <= i < |s| => s[i].id)
  }

  /**
   * `nodes.indexOf(node)` on the node with the given id: the first position holding it, or -1 when
   * there is none.
   */
  function IndexOf(s: seq<Node>, id: int): (k: int)
    ensures -1 <= k < |s|
    ensures k == -1 <==> id !in Ids(s)
    ensures 0 <= k ==> s[k].id == id && forall j :: 0 <= j < k ==> s[j].id != id
  {
    if s == [] then -1
    else if s[0].id == id then 0
    else
      var k := IndexOf(s[1..], id);
      assert forall n :: n in s[1..] ==> n in s;
      assert id !in Ids(s[1..]) ==> id !in Ids(s);
      if k == -1 then -1 else k + 1
  }

  /**
   * `s.splice(start, 1)`: removes the element at start, where a negative start counts from the end
   * (and is taken as 0 below -|s|), and a start at or past the end removes nothing.
   */
  function Splice(s: seq<Node>, start: int): (r: seq<Node>)
    ensures 0 <= start < |s| ==> r == s[..start] + s[start + 1..]
    ensures -|s| <= start < 0 ==> r == s[..|s| + start] + s[|s| + start + 1..]
    ensures start >= |s| ==> r == s
  {
    var from := if start < 0 then (if |s| + start < 0 then 0 else |s| + start)
                else if start > |s| then |s| else start;
    var to := if from + 1 > |s| then |s| else from + 1;
    s[..from] + s[to..]
  }

  lemma IdsOfConcat(a: seq<Node>, b: seq<Node>)
    ensures Ids(a + b) == Ids(a) + Ids(b)
  {
    assert forall n :: n in a + b <==> n in a || n in b;
  }

  /** The reference meaning of deleting a node: every node except the one with that id, in the same order. */
  function Without(s: seq<Node>, id: int): (r: seq<Node>)
    ensures Ids(r) == Ids(s) - {id}
    ensures UniqueIds(s) ==> UniqueIds(r)
    ensures |r| <= |s|
  {
    if s == [] then []
    else
      var rest := Without(s[1..], id);
      IdsOfConcat(s[..1], s[1..]);
      assert s == s[..1] + s[1..];
      if s[0].id == id then rest
      else
        IdsOfConcat([s[0]], rest);
        assert UniqueIds(s) ==> s[0].id !in Ids(rest) by {
          if UniqueIds(s) {
            forall n | n in s[1..] ensures n.id != s[0].id {
              var j :| 0 <= j < |s[1..]| && s[1..][j] == n;
              assert s[j + 1] == n;
            }
          }
        }
        assert forall j :: 0 <= j < |rest| ==> rest[j].id in Ids(rest) by {
          forall j | 0 <= j < |rest| ensures rest[j].id in Ids(rest) { assert rest[j] in rest; }
        }
        [s[0]] + rest
  }

  /** Removing an id that no node carries changes nothing. */
  lemma {:induction false} WithoutAbsent(s: seq<Node>, id: int)
    requires id !in Ids(s)
    ensures Without(s, id) == s
  {
    if s != [] {
      assert s[0] in s;
      assert forall n :: n in s[1..] ==> n in s;
      WithoutAbsent(s[1..], id);
    }
  }

  /**
   * The deletion in `keydown` (`nodes.splice(nodes.indexOf(selected_node), 1)`) removes exactly the
   * selected node when it is in the array and ids are unique.
   */
  lemma {:induction false} SpliceAtIndexOfIsWithout(s: seq<Node>, id: int)
    requires UniqueIds(s) && id in Ids(s)
    ensures Splice(s, IndexOf(s, id)) == Without(s, id)
  {
    if s[0].id == id {
      assert id !in Ids(s[1..]) by {
        forall n | n in s[1..] ensures n.id != id {
          var j :| 0 <= j < |s[1..]| && s[1..][j] == n;
          assert s[j + 1] == n;
        }
      }
      WithoutAbsent(s[1..], id);
    } else {
      var t := s[1..];
      assert id in Ids(t) by {
        var n :| n in s && n.id == id;
        assert n != s[0];
        assert n in t;
      }
      SpliceAtIndexOfIsWithout(t, id);
      var k := IndexOf(t, id);
      assert IndexOf(s, id) == k + 1;
      assert s[..k + 1] + s[k + 2..] == [s[0]] + (t[..k] + t[k + 1..]);
    }
  }

  /** With unique ids, deleting a present id removes exactly one node. */
  lemma {:induction false} WithoutRemovesOne(s: seq<Node>, id: int)
    requires UniqueIds(s) && id in Ids(s)
    ensures |Without(s, id)| == |s| - 1
  {
    SpliceAtIndexOfIsWithout(s, id);
  }

  /**
   * Why `keydown` depends on the selection being a live node: for a node that is not in the array,
   * `indexOf` gives -1 and the splice removes the last node instead.
   */
  lemma SpliceOfMissingDropsLast(s: seq<Node>, id: int)
    requires id !in Ids(s) && s != []
    ensures Splice(s, IndexOf(s, id)) == s[..|s| - 1]
    ensures |Splice(s, IndexOf(s, id))| == |s| - 1
  {
  }

  /** The node kept inside the surface (the body of the clamp loop in `tick`). */
  function ClampNode(n: Node): (r: Node)
    ensures r.id == n.id && InBounds(r)
    ensures InBounds(n) ==> r == n
  {
    Node(n.id, BoundingBox(X, n.x), BoundingBox(Y, n.y))
  }

  /** The node's circle lies wholly inside the surface. */
  predicate InBounds(n: Node) {
    Radius <= n.x <= Width - Radius && Radius <= n.y <= Height - Radius
  }

  /**
   * The clamp pass over every node: the same nodes, in the same order, with the same ids, each
   * inside the surface, and a node already inside left where it is.
   */
  function ClampAll(s: seq<Node>): (r: seq<Node>)
    ensures |r| == |s|
    ensures forall i :: 0 <= i < |s| ==> r[i].id == s[i].id && InBounds(r[i])
    ensures forall i :: 0 <= i < |s| && InBounds(s[i]) ==> r[i] == s[i]
    ensures IdList(r) == IdList(s)
  {
    seq(|s|, i requires 0 <= i < |s| => ClampNode(s[i]))
  }

  /** The clamp pass keeps the set of ids and their uniqueness. */
  lemma ClampAllKeepsIds(s: seq<Node>)
    ensures Ids(ClampAll(s)) == Ids(s)
    ensures UniqueIds(s) ==> UniqueIds(ClampAll(s))
  {
    var r := ClampAll(s);
    forall id | id in Ids(s) ensures id in Ids(r) {
      var i :| 0 <= i < |s| && s[i].id == id;
      assert r[i] in r;
    }
    forall id | id in Ids(r) ensures id in Ids(s) {
      var i :| 0 <= i < |r| && r[i].id == id;
      assert s[i] in s;
    }
  }

  /** The clamp pass is idempotent: a second pass in the same frame moves nothing. */
  lemma ClampAllIdempotent(s: seq<Node>)
    ensures ClampAll(ClampAll(s)) == ClampAll(s)
  {
  }
}
