/**
 * The tree of prototype nodes. The source links each node to its parent,
 * its siblings and its first and last child; the model keeps the live nodes
 * of the tree in pre-order (`order`, indices into the node arena), each node
 * with its `parent` and `depth`. Two ghost sequences parallel to `order`
 * describe the shape: `subEnd[k]` is the pre-order position just after the
 * subtree of `order[k]`, and `up[k]` is the position of its parent.
 */
module PrototypeTree {
  import opened Types
  import opened Seqs

  /**
   * One `prototype_node`: its type name, the class name its producer
   * reports, its parent and depth, the three markers into the proxy list
   * (proxy arena indices) and the number of its own objects.
   */
  datatype Node = Node(typeName: string, className: string, parent: int, depth: nat,
                       opFirst: int, opMarker: int, opLast: int, count: nat)

  /** Arena slot of the synthetic root node "OBJECT". */
  const Root: int := 0

  /** `order`, `subEnd` and `up` describe one rooted tree in pre-order. */
  ghost predicate TreeShape(nodes: seq<Node>, order: seq<int>, subEnd: seq<nat>, up: seq<int>) {
    TreeFrame(nodes, order, subEnd, up) && DepthSteps(nodes, order) &&
    SubtreeEnds(nodes, order, subEnd) && ParentLinks(nodes, order, subEnd, up)
  }

  /** The root comes first, the live nodes are distinct arena slots. */
  ghost predicate TreeFrame(nodes: seq<Node>, order: seq<int>, subEnd: seq<nat>, up: seq<int>) {
    && 1 <= |order| && order[0] == Root
    && (forall k :: 0 <= k < |order| ==> 0 <= order[k] < |nodes|)
    && Distinct(order)
    && nodes[Root].parent == Null && nodes[Root].depth == 0
    && |subEnd| == |order| && |up| == |order|
  }

  /** In pre-order the depth grows by at most one from one node to the next. */
  ghost predicate DepthSteps(nodes: seq<Node>, order: seq<int>)
    requires forall k :: 0 <= k < |order| ==> 0 <= order[k] < |nodes|
  {
    forall k {:trigger DepthStep(nodes, order, k)} :: 0 < k < |order| ==> DepthStep(nodes, order, k)
  }

  /** The step into pre-order position `k`. */
  ghost predicate DepthStep(nodes: seq<Node>, order: seq<int>, k: int)
  {
    0 < k < |order| && 0 <= order[k] < |nodes| && 0 <= order[k - 1] < |nodes| &&
    1 <= nodes[order[k]].depth <= nodes[order[k - 1]].depth + 1
  }

  /**
   * The subtree of `order[k]` is the run of deeper nodes that follows it;
   * `subEnd[k]` is where that run stops.
   */
  ghost predicate SubtreeEnds(nodes: seq<Node>, order: seq<int>, subEnd: seq<nat>)
    requires forall k :: 0 <= k < |order| ==> 0 <= order[k] < |nodes|
    requires |subEnd| == |order|
  {
    && (forall k :: 0 <= k < |order| ==> k < subEnd[k] <= |order|)
    && (forall k, i {:trigger Inside(nodes, order, subEnd, k, i)} :: 0 <= k < i < |order| && i < subEnd[k] ==> Inside(nodes, order, subEnd, k, i))
    && (forall k {:trigger EndAt(nodes, order, subEnd, k)} :: 0 <= k < |order| && subEnd[k] < |order| ==> EndAt(nodes, order, subEnd, k))
  }

  /** The node at position `i` is deeper than the one at `k`. */
  ghost predicate Inside(nodes: seq<Node>, order: seq<int>, subEnd: seq<nat>, k: int, i: int)
  {
    0 <= k < i < |order| && 0 <= order[k] < |nodes| && 0 <= order[i] < |nodes| && nodes[order[k]].depth < nodes[order[i]].depth
  }

  /** The node just past the subtree of position `k` is not deeper than it. */
  ghost predicate EndAt(nodes: seq<Node>, order: seq<int>, subEnd: seq<nat>, k: int)
  {
    0 <= k < |order| && k < |subEnd| && subEnd[k] < |order| && 0 <= order[k] < |nodes| && 0 <= order[subEnd[k]] < |nodes| &&
    nodes[order[subEnd[k]]].depth <= nodes[order[k]].depth
  }

  /** Every node but the root has, one level up, a parent whose subtree holds it. */
  ghost predicate ParentLinks(nodes: seq<Node>, order: seq<int>, subEnd: seq<nat>, up: seq<int>)
    requires forall k :: 0 <= k < |order| ==> 0 <= order[k] < |nodes|
    requires |subEnd| == |order| && |up| == |order|
  {
    forall k {:trigger up[k]} :: 0 < k < |order| ==>
      && 0 <= up[k] < k < subEnd[up[k]]
      && nodes[order[k]].depth == nodes[order[up[k]]].depth + 1
      && nodes[order[k]].parent == order[up[k]]
  }

  /** Depth of the node at pre-order position `i`, or -1 outside the order. */
  ghost function DepthAt(nodes: seq<Node>, order: seq<int>, i: int): int {
    if 0 <= i < |order| && 0 <= order[i] < |nodes| then nodes[order[i]].depth else -1
  }

  /** Subtrees nest: a node inside the subtree of `j` has its subtree inside it too. */
  lemma Nesting(nodes: seq<Node>, order: seq<int>, subEnd: seq<nat>, up: seq<int>, j: nat, k: nat)
    requires TreeShape(nodes, order, subEnd, up)
    requires j < k < |order| && k < subEnd[j]
    ensures subEnd[k] <= subEnd[j]
  {
    assert Inside(nodes, order, subEnd, j, k);
    assert subEnd[j] < subEnd[k] ==> EndAt(nodes, order, subEnd, j) && Inside(nodes, order, subEnd, k, subEnd[j]);
  }

  /** `order[j]` is an ancestor of `order[k]` exactly when every node between them is deeper than `order[j]`. */
  lemma AncestorByDepth(nodes: seq<Node>, order: seq<int>, subEnd: seq<nat>, up: seq<int>, j: nat, k: nat)
    requires TreeShape(nodes, order, subEnd, up)
    requires j < k < |order|
    ensures k < subEnd[j] <==> forall i :: j < i <= k ==> nodes[order[j]].depth < nodes[order[i]].depth
  {
    if subEnd[j] <= k {
      assert EndAt(nodes, order, subEnd, j);
    } else {
      forall i | j < i <= k ensures nodes[order[j]].depth < nodes[order[i]].depth {
        assert Inside(nodes, order, subEnd, j, i);
      }
    }
  }

  /**
   * Walking back from position `e`, with `least` the smallest depth met on
   * positions `j + 1 .. e`, the node at `j` is an ancestor of `order[e]`
   * exactly when it is shallower than `least`.
   */
  lemma LeastDecidesAncestor(nodes: seq<Node>, order: seq<int>, subEnd: seq<nat>, up: seq<int>, j: nat, e: nat, w: nat)
    requires TreeShape(nodes, order, subEnd, up)
    requires j < w <= e < |order|
    requires forall i :: j < i <= e ==> DepthAt(nodes, order, w) <= DepthAt(nodes, order, i)
    ensures e < subEnd[j] <==> DepthAt(nodes, order, j) < DepthAt(nodes, order, w)
  {
    if subEnd[j] <= e {
      assert DepthAt(nodes, order, w) <= DepthAt(nodes, order, subEnd[j]);
      assert EndAt(nodes, order, subEnd, j);
    } else {
      assert Inside(nodes, order, subEnd, j, w);
    }
  }

  /** The subtree of `order[k]` ends at the first later node that is not deeper. */
  lemma SubEndIsFirstShallower(nodes: seq<Node>, order: seq<int>, subEnd: seq<nat>, up: seq<int>, k: nat, e: nat)
    requires TreeShape(nodes, order, subEnd, up)
    requires k < e <= |order|
    requires forall i :: k < i < e ==> nodes[order[k]].depth < nodes[order[i]].depth
    requires e == |order| || nodes[order[e]].depth <= nodes[order[k]].depth
    ensures e == subEnd[k]
  {
    assert subEnd[k] < e ==> EndAt(nodes, order, subEnd, k);
    assert e < subEnd[k] ==> Inside(nodes, order, subEnd, k, e);
  }

  /** An ancestor of a node is its parent or an ancestor of its parent. */
  lemma AncestorOfParent(nodes: seq<Node>, order: seq<int>, subEnd: seq<nat>, up: seq<int>, j: nat, k: nat)
    requires TreeShape(nodes, order, subEnd, up)
    requires j < k < |order| && k < subEnd[j]
    ensures j <= up[k] && up[k] < subEnd[j]
  {
    var u := up[k];
    assert Inside(nodes, order, subEnd, j, k);
    assert u < j ==> Inside(nodes, order, subEnd, u, j);
  }

  /**
   * `prototype_node::is_child_of(a)`: walk up the parent links from `n` and
   * report whether `a` is met. The depth test never fails in a well-shaped
   * tree; it only makes the walk total in the model.
   */
  function IsChildOf(nodes: seq<Node>, n: int, a: int): bool
    decreases if 0 <= n < |nodes| then nodes[n].depth else 0
  {
    && 0 <= n < |nodes|
    && var q := nodes[n].parent;
    && 0 <= q < |nodes| && nodes[q].depth < nodes[n].depth
    && (q == a || IsChildOf(nodes, q, a))
  }

  /** Walking the parent links meets `order[j]` exactly when `order[k]` lies in the subtree of `order[j]`. */
  lemma {:induction false} IsChildOfIffInSubtree(nodes: seq<Node>, order: seq<int>, subEnd: seq<nat>, up: seq<int>, j: nat, k: nat)
    requires TreeShape(nodes, order, subEnd, up)
    requires j < |order| && k < |order|
    ensures IsChildOf(nodes, order[k], order[j]) <==> j < k < subEnd[j]
    decreases k
  {
    if k > 0 {
      var u := up[k];
      DistinctAt(order, u, j);
      IsChildOfIffInSubtree(nodes, order, subEnd, up, j, u);
      if j < k < subEnd[j] {
        AncestorOfParent(nodes, order, subEnd, up, j, k);
      }
      if j < u < subEnd[j] {
        Nesting(nodes, order, subEnd, up, j, u);
      }
    }
  }

  /** The next pre-order node after `order[k]`: the first of its children if it has any, else a node whose parent is an ancestor of `order[k]`. */
  lemma NextNodeIsChildOrUncle(nodes: seq<Node>, order: seq<int>, subEnd: seq<nat>, up: seq<int>, k: nat)
    requires TreeShape(nodes, order, subEnd, up)
    requires k + 1 < |order|
    ensures k + 1 < subEnd[k] ==> nodes[order[k + 1]].parent == order[k]
    ensures k + 1 < subEnd[k] ==> Children(nodes, order, order[k]) != [] && Children(nodes, order, order[k])[0] == order[k + 1]
    ensures subEnd[k] == k + 1 ==> up[k + 1] < k && k < subEnd[up[k + 1]]
  {
    var u := up[k + 1];
    if k + 1 < subEnd[k] {
      AncestorOfParent(nodes, order, subEnd, up, k, k + 1);
      assert DepthAt(nodes, order, u) == DepthAt(nodes, order, k);
      NoChildrenBefore(nodes, order, subEnd, up, k);
      var s, t := order[..k + 1], order[k + 1..];
      assert order == s + t;
      ChildrenAppend(nodes, s, t, order[k]);
      assert t[0] == order[k + 1];
    } else {
      if u == k {
        assert false;
      }
    }
  }

  /** Only the root has no parent. */
  lemma NullParentIsRoot(nodes: seq<Node>, order: seq<int>, subEnd: seq<nat>, up: seq<int>, k: nat)
    requires TreeShape(nodes, order, subEnd, up) && k < |order|
    ensures nodes[order[k]].parent == Null <==> k == 0
  {
    if k > 0 {
      assert 0 <= up[k] < k;
    }
  }

  /** The pre-order slice of the subtree of `order[k]` holds `order[k]` and the nodes whose parent walk meets it. */
  lemma InSubtreeIff(nodes: seq<Node>, order: seq<int>, subEnd: seq<nat>, up: seq<int>, k: nat, n: int)
    requires TreeShape(nodes, order, subEnd, up) && k < |order| && n in order
    ensures n in order[k..subEnd[k]] <==> n == order[k] || IsChildOf(nodes, n, order[k])
  {
    var m := Pos(order, n);
    IsChildOfIffInSubtree(nodes, order, subEnd, up, k, m);
    DistinctAt(order, m, k);
    if k <= m < subEnd[k] {
      assert order[k..subEnd[k]][m - k] == n;
    }
    if n in order[k..subEnd[k]] {
      var j :| 0 <= j < subEnd[k] - k && order[k..subEnd[k]][j] == n;
      DistinctAt(order, m, k + j);
    }
  }

  /** Subtree ends once a new leaf is appended as the last child of the node at position `kp`, at position `e`. */
  ghost function SubEndAfterInsert(subEnd: seq<nat>, kp: nat, e: nat): (r: seq<nat>)
    requires kp < e <= |subEnd|
    ensures |r| == |subEnd| + 1
  {
    seq(|subEnd| + 1, j requires 0 <= j <= |subEnd| =>
      if j < e then (if j <= kp && e <= subEnd[j] then subEnd[j] + 1 else subEnd[j])
      else if j == e then e + 1
      else subEnd[j - 1] + 1)
  }

  /** Parent positions once a new leaf is appended as the last child of the node at position `kp`, at position `e`. */
  ghost function UpAfterInsert(up: seq<int>, kp: nat, e: nat): (r: seq<int>)
    requires kp < e <= |up|
    ensures |r| == |up| + 1
  {
    seq(|up| + 1, j requires 0 <= j <= |up| =>
      if j < e then up[j]
      else if j == e then kp
      else if up[j - 1] >= e then up[j - 1] + 1 else up[j - 1])
  }

  /** Subtree ends once the leaf at position `k` is taken out. */
  ghost function SubEndAfterRemove(subEnd: seq<nat>, k: nat): (r: seq<nat>)
    requires 0 < k < |subEnd|
    requires forall j :: 0 <= j < |subEnd| ==> j < subEnd[j]
    ensures |r| == |subEnd| - 1
  {
    seq(|subEnd| - 1, j requires 0 <= j < |subEnd| - 1 =>
      if j < k then (if k < subEnd[j] then subEnd[j] - 1 else subEnd[j])
      else subEnd[j + 1] - 1)
  }

  /** Parent positions once the leaf at position `k` is taken out. */
  ghost function UpAfterRemove(up: seq<int>, k: nat): (r: seq<int>)
    requires 0 < k < |up|
    ensures |r| == |up| - 1
  {
    seq(|up| - 1, j requires 0 <= j < |up| - 1 =>
      if j < k then up[j]
      else if up[j + 1] > k then up[j + 1] - 1 else up[j + 1])
  }

  /** Every subtree end lies past its own position. */
  ghost predicate EndsPast(subEnd: seq<nat>) {
    forall i :: 0 <= i < |subEnd| ==> i < subEnd[i]
  }

  /**
   * Subtree ends once positions `j .. E - 1`, a run of whole subtrees, are
   * cut out: ancestors of the run shrink by its length and later positions
   * move up by it.
   */
  ghost function SubEndAfterCut(subEnd: seq<nat>, j: nat, E: nat): (r: seq<nat>)
    requires j <= E <= |subEnd| && EndsPast(subEnd)
    ensures |r| == |subEnd| - (E - j) && EndsPast(r)
  {
    seq(|subEnd| - (E - j), i requires 0 <= i < |subEnd| - (E - j) =>
      if i < j then (if subEnd[i] >= E then subEnd[i] - (E - j) else subEnd[i])
      else subEnd[i + (E - j)] - (E - j))
  }

  /** Cutting out nothing changes nothing. */
  lemma SubEndCutNone(subEnd: seq<nat>, j: nat)
    requires j <= |subEnd| && EndsPast(subEnd)
    ensures SubEndAfterCut(subEnd, j, j) == subEnd
  {
  }

  /**
   * Cutting `j .. m - 1` out and then the next subtree, of `E - m`
   * positions, is cutting `j .. E - 1` out, when every earlier subtree that
   * reaches past `j` reaches `E`.
   */
  lemma SubEndCutCut(subEnd: seq<nat>, j: nat, m: nat, E: nat)
    requires j <= m <= E <= |subEnd| && EndsPast(subEnd)
    requires forall i :: 0 <= i < j && subEnd[i] > j ==> subEnd[i] >= E
    ensures SubEndAfterCut(SubEndAfterCut(subEnd, j, m), j, j + (E - m)) == SubEndAfterCut(subEnd, j, E)
  {
  }

  /** Every subtree that reaches past position `k` reaches the end of the subtree of `k`. */
  lemma Ancestors(nodes: seq<Node>, order: seq<int>, subEnd: seq<nat>, up: seq<int>, k: nat)
    requires TreeShape(nodes, order, subEnd, up) && k < |order|
    ensures EndsPast(subEnd)
    ensures forall i :: 0 <= i < k && subEnd[i] > k ==> subEnd[i] >= subEnd[k]
  {
    forall i | 0 <= i < k && subEnd[i] > k ensures subEnd[i] >= subEnd[k] {
      Nesting(nodes, order, subEnd, up, i, k);
    }
  }

  /** The node right after the subtree of a child of `order[k]` is the next child, unless the subtree of `order[k]` ends there. */
  lemma SiblingNext(nodes: seq<Node>, order: seq<int>, subEnd: seq<nat>, up: seq<int>, k: nat, m: nat)
    requires TreeShape(nodes, order, subEnd, up)
    requires k < m < |order| && up[m] == k && subEnd[m] < subEnd[k]
    ensures up[subEnd[m]] == k
  {
    var q := subEnd[m];
    assert Inside(nodes, order, subEnd, k, q) && EndAt(nodes, order, subEnd, m);
    AncestorOfParent(nodes, order, subEnd, up, k, q);
    var u := up[q];
    assert k < u ==> Inside(nodes, order, subEnd, k, u);
  }

  /**
   * Walking the children of `order[k]` by subtree ends: at a position `m`
   * that is the end of the subtree or a child, there is a child exactly
   * when the subtree has not ended.
   */
  lemma ChildAt(nodes: seq<Node>, order: seq<int>, subEnd: seq<nat>, up: seq<int>, k: nat, m: nat)
    requires TreeShape(nodes, order, subEnd, up)
    requires k < |order| && k < m <= subEnd[k] && (m == subEnd[k] || up[m] == k)
    ensures (m < |order| && nodes[order[m]].parent == order[k]) <==> m < subEnd[k]
  {
    if m < |order| {
      assert nodes[order[m]].parent == order[up[m]];
      DistinctAt(order, up[m], k);
    }
  }

  /** The subtree of the root spans the whole pre-order. */
  lemma RootSpansAll(nodes: seq<Node>, order: seq<int>, subEnd: seq<nat>, up: seq<int>)
    requires TreeShape(nodes, order, subEnd, up)
    ensures subEnd[0] == |order|
  {
    forall i | 0 < i < |order| ensures nodes[order[0]].depth < nodes[order[i]].depth {
      assert DepthStep(nodes, order, i);
    }
    SubEndIsFirstShallower(nodes, order, subEnd, up, 0, |order|);
  }

  /** The live nodes keep their parent and depth. */
  ghost predicate SameLinks(nodes: seq<Node>, nodes': seq<Node>, order: seq<int>)
    requires forall k :: 0 <= k < |order| ==> 0 <= order[k] < |nodes|
  {
    forall k :: 0 <= k < |order| ==>
      0 <= order[k] < |nodes'| && nodes'[order[k]].parent == nodes[order[k]].parent &&
      nodes'[order[k]].depth == nodes[order[k]].depth
  }

  /** The nodes still listed in `order` keep their counts. */
  ghost predicate CountsKept(nodes: seq<Node>, nodes': seq<Node>, order: seq<int>) {
    |nodes'| == |nodes| && forall n :: n in order ==> 0 <= n < |nodes| && nodes'[n].count == nodes[n].count
  }

  /** A node with its markers and count cleared: the part that stays while objects come and go. */
  function Ident(n: Node): Node {
    n.(opFirst := Null, opMarker := Null, opLast := Null, count := 0)
  }

  /** The arenas differ at most in markers and counts: every slot keeps its names, parent and depth. */
  ghost predicate SameIdents(nodes: seq<Node>, nodes': seq<Node>) {
    |nodes'| == |nodes| && forall n :: 0 <= n < |nodes| ==> Ident(nodes'[n]) == Ident(nodes[n])
  }

  /** Every node but `node` keeps its count. */
  ghost predicate OtherCounts(nodes: seq<Node>, nodes': seq<Node>, node: int) {
    |nodes'| == |nodes| && forall n :: 0 <= n < |nodes| && n != node ==> nodes'[n].count == nodes[n].count
  }

  /**
   * The counts of `nodes'` are those of `nodes` with one object gone from
   * `from` and one added to `to`; `Null` in either place stands for none.
   */
  ghost predicate CountsMoved(nodes: seq<Node>, nodes': seq<Node>, from: int, to: int) {
    |nodes'| == |nodes| && forall n :: 0 <= n < |nodes| ==>
      nodes'[n].count == nodes[n].count - (if n == from then 1 else 0) + (if n == to then 1 else 0)
  }

  /** The hypotheses of appending node `x` as the last child of the node at position `kp`. */
  ghost predicate AppendsChild(nodes: seq<Node>, order: seq<int>, subEnd: seq<nat>, up: seq<int>,
                               nodes': seq<Node>, kp: nat, x: int)
  {
    && TreeShape(nodes, order, subEnd, up)
    && kp < |order| && 0 <= x < |nodes'| && x !in order
    && SameLinks(nodes, nodes', order)
    && nodes'[x].parent == order[kp] && nodes'[x].depth == nodes[order[kp]].depth + 1
  }

  lemma InsertFrame(nodes: seq<Node>, order: seq<int>, subEnd: seq<nat>, up: seq<int>, nodes': seq<Node>, kp: nat, x: int)
    requires AppendsChild(nodes, order, subEnd, up, nodes', kp, x)
    ensures TreeFrame(nodes', InsertAt(order, subEnd[kp], x), SubEndAfterInsert(subEnd, kp, subEnd[kp]), UpAfterInsert(up, kp, subEnd[kp]))
    ensures DepthSteps(nodes', InsertAt(order, subEnd[kp], x))
  {
    var e := subEnd[kp];
    var o' := InsertAt(order, e, x);
    InsertKeepsDistinct(order, e, x);
    assert o'[0] == Root;
    forall j | 0 < j < |o'| ensures DepthStep(nodes', o', j) {
      if j < e {
        assert DepthStep(nodes, order, j);
      } else if j == e {
        if kp < e - 1 {
          assert Inside(nodes, order, subEnd, kp, e - 1);
        }
      } else if j == e + 1 {
        assert DepthStep(nodes, order, e) && EndAt(nodes, order, subEnd, kp);
      } else {
        assert DepthStep(nodes, order, j - 1);
      }
    }
  }

  /** Where the live nodes sit once node `x` is placed at pre-order position `e`. */
  lemma InsertedDepth(nodes: seq<Node>, order: seq<int>, subEnd: seq<nat>, up: seq<int>, nodes': seq<Node>, kp: nat, x: int, j: nat)
    requires AppendsChild(nodes, order, subEnd, up, nodes', kp, x)
    requires j <= |order|
    ensures 0 <= InsertAt(order, subEnd[kp], x)[j] < |nodes'|
    ensures nodes'[InsertAt(order, subEnd[kp], x)[j]].depth ==
      if j < subEnd[kp] then DepthAt(nodes, order, j)
      else if j == subEnd[kp] then DepthAt(nodes, order, kp) + 1
      else DepthAt(nodes, order, j - 1)
  {
  }

  lemma InsertEndsBounds(nodes: seq<Node>, order: seq<int>, subEnd: seq<nat>, up: seq<int>, nodes': seq<Node>, kp: nat, x: int)
    requires AppendsChild(nodes, order, subEnd, up, nodes', kp, x)
    ensures forall j :: 0 <= j <= |order| ==> j < SubEndAfterInsert(subEnd, kp, subEnd[kp])[j] <= |order| + 1
  {
  }

  lemma InsertEndsDeeper(nodes: seq<Node>, order: seq<int>, subEnd: seq<nat>, up: seq<int>, nodes': seq<Node>, kp: nat, x: int, j: nat, i: nat)
    requires AppendsChild(nodes, order, subEnd, up, nodes', kp, x)
    requires j < i <= |order| && i < SubEndAfterInsert(subEnd, kp, subEnd[kp])[j]
    ensures DepthAt(nodes', InsertAt(order, subEnd[kp], x), j) < DepthAt(nodes', InsertAt(order, subEnd[kp], x), i)
  {
    var e := subEnd[kp];
    InsertedDepth(nodes, order, subEnd, up, nodes', kp, x, j);
    InsertedDepth(nodes, order, subEnd, up, nodes', kp, x, i);
    if j < e {
      if j <= kp && e <= subEnd[j] {
        if i < e {
          assert Inside(nodes, order, subEnd, j, i);
        } else if i == e {
          if j < kp {
            assert Inside(nodes, order, subEnd, j, kp);
          }
        } else {
          assert Inside(nodes, order, subEnd, j, i - 1);
        }
      } else {
        if j > kp {
          Nesting(nodes, order, subEnd, up, kp, j);
        }
        assert Inside(nodes, order, subEnd, j, i);
      }
    } else if j > e {
      assert Inside(nodes, order, subEnd, j - 1, i - 1);
    }
  }

  lemma InsertEndsStopAncestor(nodes: seq<Node>, order: seq<int>, subEnd: seq<nat>, up: seq<int>, nodes': seq<Node>, kp: nat, x: int, j: nat)
    requires AppendsChild(nodes, order, subEnd, up, nodes', kp, x)
    requires j <= |order| && SubEndAfterInsert(subEnd, kp, subEnd[kp])[j] <= |order|
    requires j <= kp && subEnd[kp] <= subEnd[j]
    ensures DepthAt(nodes', InsertAt(order, subEnd[kp], x), SubEndAfterInsert(subEnd, kp, subEnd[kp])[j]) <=
            DepthAt(nodes', InsertAt(order, subEnd[kp], x), j)
  {
    var e := subEnd[kp];
    var s := SubEndAfterInsert(subEnd, kp, e)[j];
    InsertedDepth(nodes, order, subEnd, up, nodes', kp, x, j);
    InsertedDepth(nodes, order, subEnd, up, nodes', kp, x, s);
    assert EndAt(nodes, order, subEnd, j);
  }

  lemma InsertEndsStopOther(nodes: seq<Node>, order: seq<int>, subEnd: seq<nat>, up: seq<int>, nodes': seq<Node>, kp: nat, x: int, j: nat)
    requires AppendsChild(nodes, order, subEnd, up, nodes', kp, x)
    requires j <= |order| && SubEndAfterInsert(subEnd, kp, subEnd[kp])[j] <= |order|
    requires j < subEnd[kp] && !(j <= kp && subEnd[kp] <= subEnd[j])
    ensures DepthAt(nodes', InsertAt(order, subEnd[kp], x), SubEndAfterInsert(subEnd, kp, subEnd[kp])[j]) <=
            DepthAt(nodes', InsertAt(order, subEnd[kp], x), j)
  {
    var e := subEnd[kp];
    var s := SubEndAfterInsert(subEnd, kp, e)[j];
    InsertedDepth(nodes, order, subEnd, up, nodes', kp, x, j);
    InsertedDepth(nodes, order, subEnd, up, nodes', kp, x, s);
    var t := subEnd[j];
    var dt := DepthAt(nodes, order, t);
    if j > kp {
      Nesting(nodes, order, subEnd, up, kp, j);
    } else if kp < t {
      Nesting(nodes, order, subEnd, up, j, kp);
    }
    if t < e {
      assert EndAt(nodes, order, subEnd, j);
    } else if j > kp {
      assert Inside(nodes, order, subEnd, kp, j);
    }
  }

  lemma InsertEndsStopLater(nodes: seq<Node>, order: seq<int>, subEnd: seq<nat>, up: seq<int>, nodes': seq<Node>, kp: nat, x: int, j: nat)
    requires AppendsChild(nodes, order, subEnd, up, nodes', kp, x)
    requires j <= |order| && SubEndAfterInsert(subEnd, kp, subEnd[kp])[j] <= |order|
    requires subEnd[kp] <= j
    ensures DepthAt(nodes', InsertAt(order, subEnd[kp], x), SubEndAfterInsert(subEnd, kp, subEnd[kp])[j]) <=
            DepthAt(nodes', InsertAt(order, subEnd[kp], x), j)
  {
    var e := subEnd[kp];
    var s := SubEndAfterInsert(subEnd, kp, e)[j];
    InsertedDepth(nodes, order, subEnd, up, nodes', kp, x, j);
    InsertedDepth(nodes, order, subEnd, up, nodes', kp, x, s);
    if j == e {
      assert EndAt(nodes, order, subEnd, kp);
    } else {
      assert EndAt(nodes, order, subEnd, j - 1);
    }
  }

  lemma InsertEndsStop(nodes: seq<Node>, order: seq<int>, subEnd: seq<nat>, up: seq<int>, nodes': seq<Node>, kp: nat, x: int, j: nat)
    requires AppendsChild(nodes, order, subEnd, up, nodes', kp, x)
    requires j <= |order| && SubEndAfterInsert(subEnd, kp, subEnd[kp])[j] <= |order|
    ensures DepthAt(nodes', InsertAt(order, subEnd[kp], x), SubEndAfterInsert(subEnd, kp, subEnd[kp])[j]) <=
            DepthAt(nodes', InsertAt(order, subEnd[kp], x), j)
  {
    if subEnd[kp] <= j {
      InsertEndsStopLater(nodes, order, subEnd, up, nodes', kp, x, j);
    } else if j <= kp && subEnd[kp] <= subEnd[j] {
      InsertEndsStopAncestor(nodes, order, subEnd, up, nodes', kp, x, j);
    } else {
      InsertEndsStopOther(nodes, order, subEnd, up, nodes', kp, x, j);
    }
  }

  lemma InsertSubtreeEnds(nodes: seq<Node>, order: seq<int>, subEnd: seq<nat>, up: seq<int>, nodes': seq<Node>, kp: nat, x: int)
    requires AppendsChild(nodes, order, subEnd, up, nodes', kp, x)
    requires TreeFrame(nodes', InsertAt(order, subEnd[kp], x), SubEndAfterInsert(subEnd, kp, subEnd[kp]), UpAfterInsert(up, kp, subEnd[kp]))
    ensures SubtreeEnds(nodes', InsertAt(order, subEnd[kp], x), SubEndAfterInsert(subEnd, kp, subEnd[kp]))
  {
    var o' := InsertAt(order, subEnd[kp], x);
    var s' := SubEndAfterInsert(subEnd, kp, subEnd[kp]);
    InsertEndsBounds(nodes, order, subEnd, up, nodes', kp, x);
    forall j, i | 0 <= j < i < |o'| && i < s'[j] ensures Inside(nodes', o', s', j, i) {
      InsertEndsDeeper(nodes, order, subEnd, up, nodes', kp, x, j, i);
    }
    forall j | 0 <= j < |o'| && s'[j] < |o'| ensures EndAt(nodes', o', s', j) {
      InsertEndsStop(nodes, order, subEnd, up, nodes', kp, x, j);
    }
  }

  lemma InsertParentBefore(nodes: seq<Node>, order: seq<int>, subEnd: seq<nat>, up: seq<int>, nodes': seq<Node>, kp: nat, x: int, j: nat)
    requires AppendsChild(nodes, order, subEnd, up, nodes', kp, x)
    requires 0 < j <= |order|
    requires j <= subEnd[kp]
    ensures var o', s', u' := InsertAt(order, subEnd[kp], x), SubEndAfterInsert(subEnd, kp, subEnd[kp]), UpAfterInsert(up, kp, subEnd[kp]);
      && 0 <= u'[j] < j < s'[u'[j]]
      && DepthAt(nodes', o', j) == DepthAt(nodes', o', u'[j]) + 1
      && 0 <= o'[j] < |nodes'| && nodes'[o'[j]].parent == o'[u'[j]]
  {
    InsertedDepth(nodes, order, subEnd, up, nodes', kp, x, j);
    if j < subEnd[kp] {
      InsertedDepth(nodes, order, subEnd, up, nodes', kp, x, up[j]);
    } else {
      InsertedDepth(nodes, order, subEnd, up, nodes', kp, x, kp);
    }
  }

  lemma InsertParentAfterAbove(nodes: seq<Node>, order: seq<int>, subEnd: seq<nat>, up: seq<int>, nodes': seq<Node>, kp: nat, x: int, j: nat)
    requires AppendsChild(nodes, order, subEnd, up, nodes', kp, x)
    requires 0 < j <= |order|
    requires subEnd[kp] < j
    requires up[j - 1] >= subEnd[kp]
    ensures var o', s', u' := InsertAt(order, subEnd[kp], x), SubEndAfterInsert(subEnd, kp, subEnd[kp]), UpAfterInsert(up, kp, subEnd[kp]);
      && 0 <= u'[j] < j < s'[u'[j]]
      && DepthAt(nodes', o', j) == DepthAt(nodes', o', u'[j]) + 1
      && 0 <= o'[j] < |nodes'| && nodes'[o'[j]].parent == o'[u'[j]]
  {
    InsertedDepth(nodes, order, subEnd, up, nodes', kp, x, j);
    InsertedDepth(nodes, order, subEnd, up, nodes', kp, x, up[j - 1] + 1);
  }

  lemma InsertParentAfterBelow(nodes: seq<Node>, order: seq<int>, subEnd: seq<nat>, up: seq<int>, nodes': seq<Node>, kp: nat, x: int, j: nat)
    requires AppendsChild(nodes, order, subEnd, up, nodes', kp, x)
    requires 0 < j <= |order|
    requires subEnd[kp] < j
    requires up[j - 1] < subEnd[kp]
    ensures var o', s', u' := InsertAt(order, subEnd[kp], x), SubEndAfterInsert(subEnd, kp, subEnd[kp]), UpAfterInsert(up, kp, subEnd[kp]);
      && 0 <= u'[j] < j < s'[u'[j]]
      && DepthAt(nodes', o', j) == DepthAt(nodes', o', u'[j]) + 1
      && 0 <= o'[j] < |nodes'| && nodes'[o'[j]].parent == o'[u'[j]]
  {
    InsertedDepth(nodes, order, subEnd, up, nodes', kp, x, j);
    InsertedDepth(nodes, order, subEnd, up, nodes', kp, x, up[j - 1]);
    if up[j - 1] > kp {
      Nesting(nodes, order, subEnd, up, kp, up[j - 1]);
    }
  }

  lemma InsertParentAfter(nodes: seq<Node>, order: seq<int>, subEnd: seq<nat>, up: seq<int>, nodes': seq<Node>, kp: nat, x: int, j: nat)
    requires AppendsChild(nodes, order, subEnd, up, nodes', kp, x)
    requires 0 < j <= |order|
    requires subEnd[kp] < j
    ensures var o', s', u' := InsertAt(order, subEnd[kp], x), SubEndAfterInsert(subEnd, kp, subEnd[kp]), UpAfterInsert(up, kp, subEnd[kp]);
      && 0 <= u'[j] < j < s'[u'[j]]
      && DepthAt(nodes', o', j) == DepthAt(nodes', o', u'[j]) + 1
      && 0 <= o'[j] < |nodes'| && nodes'[o'[j]].parent == o'[u'[j]]
  {
    if up[j - 1] >= subEnd[kp] {
      InsertParentAfterAbove(nodes, order, subEnd, up, nodes', kp, x, j);
    } else {
      InsertParentAfterBelow(nodes, order, subEnd, up, nodes', kp, x, j);
    }
  }

  lemma InsertParentLinks(nodes: seq<Node>, order: seq<int>, subEnd: seq<nat>, up: seq<int>, nodes': seq<Node>, kp: nat, x: int)
    requires AppendsChild(nodes, order, subEnd, up, nodes', kp, x)
    requires TreeFrame(nodes', InsertAt(order, subEnd[kp], x), SubEndAfterInsert(subEnd, kp, subEnd[kp]), UpAfterInsert(up, kp, subEnd[kp]))
    ensures ParentLinks(nodes', InsertAt(order, subEnd[kp], x), SubEndAfterInsert(subEnd, kp, subEnd[kp]), UpAfterInsert(up, kp, subEnd[kp]))
  {
    var o' := InsertAt(order, subEnd[kp], x);
    var s' := SubEndAfterInsert(subEnd, kp, subEnd[kp]);
    var u' := UpAfterInsert(up, kp, subEnd[kp]);
    forall j | 0 < j < |o'| ensures 0 <= u'[j] < j < s'[u'[j]] && nodes'[o'[j]].depth == nodes'[o'[u'[j]]].depth + 1 && nodes'[o'[j]].parent == o'[u'[j]] {
      if j <= subEnd[kp] {
        InsertParentBefore(nodes, order, subEnd, up, nodes', kp, x, j);
      } else {
        InsertParentAfter(nodes, order, subEnd, up, nodes', kp, x, j);
      }
    }
  }

  /** Appending a new leaf as the last child of a node keeps the tree well shaped. */
  lemma InsertKeepsShape(nodes: seq<Node>, order: seq<int>, subEnd: seq<nat>, up: seq<int>, nodes': seq<Node>, kp: nat, x: int)
    requires AppendsChild(nodes, order, subEnd, up, nodes', kp, x)
    ensures TreeShape(nodes', InsertAt(order, subEnd[kp], x), SubEndAfterInsert(subEnd, kp, subEnd[kp]), UpAfterInsert(up, kp, subEnd[kp]))
  {
    InsertFrame(nodes, order, subEnd, up, nodes', kp, x);
    InsertSubtreeEnds(nodes, order, subEnd, up, nodes', kp, x);
    InsertParentLinks(nodes, order, subEnd, up, nodes', kp, x);
  }

  /** The hypotheses of taking the leaf at pre-order position `k` out of the tree. */
  ghost predicate RemovesLeaf(nodes: seq<Node>, order: seq<int>, subEnd: seq<nat>, up: seq<int>, nodes': seq<Node>, k: nat) {
    && TreeShape(nodes, order, subEnd, up)
    && 0 < k < |order| && subEnd[k] == k + 1
    && SameLinks(nodes, nodes', order)
  }

  lemma RemovedDepth(nodes: seq<Node>, order: seq<int>, subEnd: seq<nat>, up: seq<int>, nodes': seq<Node>, k: nat, j: nat)
    requires RemovesLeaf(nodes, order, subEnd, up, nodes', k)
    requires j < |order| - 1
    ensures 0 <= RemoveAt(order, k)[j] < |nodes'|
    ensures nodes'[RemoveAt(order, k)[j]].depth == if j < k then DepthAt(nodes, order, j) else DepthAt(nodes, order, j + 1)
  {
  }

  lemma RemoveFrame(nodes: seq<Node>, order: seq<int>, subEnd: seq<nat>, up: seq<int>, nodes': seq<Node>, k: nat)
    requires RemovesLeaf(nodes, order, subEnd, up, nodes', k)
    ensures TreeFrame(nodes', RemoveAt(order, k), SubEndAfterRemove(subEnd, k), UpAfterRemove(up, k))
    ensures DepthSteps(nodes', RemoveAt(order, k))
  {
    var o' := RemoveAt(order, k);
    RemoveKeepsDistinct(order, k);
    forall j | 0 < j < |o'| ensures DepthStep(nodes', o', j) {
      RemovedDepth(nodes, order, subEnd, up, nodes', k, j);
      RemovedDepth(nodes, order, subEnd, up, nodes', k, j - 1);
      if j < k {
        assert DepthStep(nodes, order, j);
      } else if j == k {
        assert DepthStep(nodes, order, k) && DepthStep(nodes, order, k + 1) && EndAt(nodes, order, subEnd, k);
      } else {
        assert DepthStep(nodes, order, j + 1);
      }
    }
  }

  lemma RemoveEndsDeeper(nodes: seq<Node>, order: seq<int>, subEnd: seq<nat>, up: seq<int>, nodes': seq<Node>, k: nat, j: nat, i: nat)
    requires RemovesLeaf(nodes, order, subEnd, up, nodes', k)
    requires j < i < |order| - 1 && i < SubEndAfterRemove(subEnd, k)[j]
    ensures DepthAt(nodes', RemoveAt(order, k), j) < DepthAt(nodes', RemoveAt(order, k), i)
  {
    RemovedDepth(nodes, order, subEnd, up, nodes', k, j);
    RemovedDepth(nodes, order, subEnd, up, nodes', k, i);
    if j < k {
      if i < k {
        assert Inside(nodes, order, subEnd, j, i);
      } else {
        assert Inside(nodes, order, subEnd, j, i + 1);
      }
    } else {
      assert Inside(nodes, order, subEnd, j + 1, i + 1);
    }
  }

  lemma RemoveEndsStop(nodes: seq<Node>, order: seq<int>, subEnd: seq<nat>, up: seq<int>, nodes': seq<Node>, k: nat, j: nat)
    requires RemovesLeaf(nodes, order, subEnd, up, nodes', k)
    requires j < |order| - 1 && SubEndAfterRemove(subEnd, k)[j] < |order| - 1
    ensures DepthAt(nodes', RemoveAt(order, k), SubEndAfterRemove(subEnd, k)[j]) <= DepthAt(nodes', RemoveAt(order, k), j)
  {
    var s := SubEndAfterRemove(subEnd, k)[j];
    RemovedDepth(nodes, order, subEnd, up, nodes', k, j);
    RemovedDepth(nodes, order, subEnd, up, nodes', k, s);
    if j < k {
      assert EndAt(nodes, order, subEnd, j);
      if subEnd[j] == k {
        assert EndAt(nodes, order, subEnd, k);
      }
    } else {
      assert EndAt(nodes, order, subEnd, j + 1);
    }
  }

  lemma RemoveSubtreeEnds(nodes: seq<Node>, order: seq<int>, subEnd: seq<nat>, up: seq<int>, nodes': seq<Node>, k: nat)
    requires RemovesLeaf(nodes, order, subEnd, up, nodes', k)
    requires TreeFrame(nodes', RemoveAt(order, k), SubEndAfterRemove(subEnd, k), UpAfterRemove(up, k))
    ensures SubtreeEnds(nodes', RemoveAt(order, k), SubEndAfterRemove(subEnd, k))
  {
    var o' := RemoveAt(order, k);
    var s' := SubEndAfterRemove(subEnd, k);
    forall j, i | 0 <= j < i < |o'| && i < s'[j] ensures Inside(nodes', o', s', j, i) {
      RemoveEndsDeeper(nodes, order, subEnd, up, nodes', k, j, i);
    }
    forall j | 0 <= j < |o'| && s'[j] < |o'| ensures EndAt(nodes', o', s', j) {
      RemoveEndsStop(nodes, order, subEnd, up, nodes', k, j);
    }
  }

  lemma RemoveParentAtBefore(nodes: seq<Node>, order: seq<int>, subEnd: seq<nat>, up: seq<int>, nodes': seq<Node>, k: nat, j: nat)
    requires RemovesLeaf(nodes, order, subEnd, up, nodes', k)
    requires 0 < j < |order| - 1
    requires j < k
    ensures var o', s', u' := RemoveAt(order, k), SubEndAfterRemove(subEnd, k), UpAfterRemove(up, k);
      && 0 <= u'[j] < j < s'[u'[j]]
      && DepthAt(nodes', o', j) == DepthAt(nodes', o', u'[j]) + 1
      && 0 <= o'[j] < |nodes'| && nodes'[o'[j]].parent == o'[u'[j]]
  {
    RemovedDepth(nodes, order, subEnd, up, nodes', k, j);
    RemovedDepth(nodes, order, subEnd, up, nodes', k, up[j]);
  }

  lemma RemoveParentAtAbove(nodes: seq<Node>, order: seq<int>, subEnd: seq<nat>, up: seq<int>, nodes': seq<Node>, k: nat, j: nat)
    requires RemovesLeaf(nodes, order, subEnd, up, nodes', k)
    requires 0 < j < |order| - 1
    requires k <= j && up[j + 1] > k
    ensures var o', s', u' := RemoveAt(order, k), SubEndAfterRemove(subEnd, k), UpAfterRemove(up, k);
      && 0 <= u'[j] < j < s'[u'[j]]
      && DepthAt(nodes', o', j) == DepthAt(nodes', o', u'[j]) + 1
      && 0 <= o'[j] < |nodes'| && nodes'[o'[j]].parent == o'[u'[j]]
  {
    RemovedDepth(nodes, order, subEnd, up, nodes', k, j);
    RemovedDepth(nodes, order, subEnd, up, nodes', k, up[j + 1] - 1);
  }

  lemma RemoveParentAtBelow(nodes: seq<Node>, order: seq<int>, subEnd: seq<nat>, up: seq<int>, nodes': seq<Node>, k: nat, j: nat)
    requires RemovesLeaf(nodes, order, subEnd, up, nodes', k)
    requires 0 < j < |order| - 1
    requires k <= j && up[j + 1] <= k
    ensures var o', s', u' := RemoveAt(order, k), SubEndAfterRemove(subEnd, k), UpAfterRemove(up, k);
      && 0 <= u'[j] < j < s'[u'[j]]
      && DepthAt(nodes', o', j) == DepthAt(nodes', o', u'[j]) + 1
      && 0 <= o'[j] < |nodes'| && nodes'[o'[j]].parent == o'[u'[j]]
  {
    RemovedDepth(nodes, order, subEnd, up, nodes', k, j);
    RemovedDepth(nodes, order, subEnd, up, nodes', k, up[j + 1]);
  }

  lemma RemoveParentAt(nodes: seq<Node>, order: seq<int>, subEnd: seq<nat>, up: seq<int>, nodes': seq<Node>, k: nat, j: nat)
    requires RemovesLeaf(nodes, order, subEnd, up, nodes', k)
    requires 0 < j < |order| - 1
    ensures var o', s', u' := RemoveAt(order, k), SubEndAfterRemove(subEnd, k), UpAfterRemove(up, k);
      && 0 <= u'[j] < j < s'[u'[j]]
      && DepthAt(nodes', o', j) == DepthAt(nodes', o', u'[j]) + 1
      && 0 <= o'[j] < |nodes'| && nodes'[o'[j]].parent == o'[u'[j]]
  {
    if j < k {
      RemoveParentAtBefore(nodes, order, subEnd, up, nodes', k, j);
    } else if k <= j && up[j + 1] > k {
      RemoveParentAtAbove(nodes, order, subEnd, up, nodes', k, j);
    } else {
      RemoveParentAtBelow(nodes, order, subEnd, up, nodes', k, j);
    }
  }

  lemma RemoveParentLinks(nodes: seq<Node>, order: seq<int>, subEnd: seq<nat>, up: seq<int>, nodes': seq<Node>, k: nat)
    requires RemovesLeaf(nodes, order, subEnd, up, nodes', k)
    requires TreeFrame(nodes', RemoveAt(order, k), SubEndAfterRemove(subEnd, k), UpAfterRemove(up, k))
    ensures ParentLinks(nodes', RemoveAt(order, k), SubEndAfterRemove(subEnd, k), UpAfterRemove(up, k))
  {
    var o', s', u' := RemoveAt(order, k), SubEndAfterRemove(subEnd, k), UpAfterRemove(up, k);
    forall j | 0 < j < |o'| ensures 0 <= u'[j] < j < s'[u'[j]] && nodes'[o'[j]].depth == nodes'[o'[u'[j]]].depth + 1 && nodes'[o'[j]].parent == o'[u'[j]] {
      RemoveParentAt(nodes, order, subEnd, up, nodes', k, j);
    }
  }

  /** Taking a leaf out of the tree keeps it well shaped. */
  lemma RemoveKeepsShape(nodes: seq<Node>, order: seq<int>, subEnd: seq<nat>, up: seq<int>, nodes': seq<Node>, k: nat)
    requires RemovesLeaf(nodes, order, subEnd, up, nodes', k)
    ensures TreeShape(nodes', RemoveAt(order, k), SubEndAfterRemove(subEnd, k), UpAfterRemove(up, k))
  {
    RemoveFrame(nodes, order, subEnd, up, nodes', k);
    RemoveSubtreeEnds(nodes, order, subEnd, up, nodes', k);
    RemoveParentLinks(nodes, order, subEnd, up, nodes', k);
  }

  /** The tree shape depends only on the parent and depth of the live nodes. */
  lemma SameLinksKeepShape(nodes: seq<Node>, nodes': seq<Node>, order: seq<int>, subEnd: seq<nat>, up: seq<int>)
    requires TreeShape(nodes, order, subEnd, up) && SameLinks(nodes, nodes', order)
    ensures TreeShape(nodes', order, subEnd, up)
  {
    assert nodes'[order[0]].depth == 0;
    forall k | 0 < k < |order| ensures DepthStep(nodes', order, k) {
      assert DepthStep(nodes, order, k);
    }
    forall k, i | 0 <= k < i < |order| && i < subEnd[k] ensures Inside(nodes', order, subEnd, k, i) {
      assert Inside(nodes, order, subEnd, k, i);
    }
    forall k | 0 <= k < |order| && subEnd[k] < |order| ensures EndAt(nodes', order, subEnd, k) {
      assert EndAt(nodes, order, subEnd, k);
    }
  }

  /**
   * The first pre-order position from `i` on whose node is not deeper than
   * `order[k]`: where the subtree of `order[k]` ends when every node from
   * `k + 1` to `i` is deeper.
   */
  function SubtreeEnd(nodes: seq<Node>, order: seq<int>, k: nat, i: nat): (r: nat)
    requires forall j :: 0 <= j < |order| ==> 0 <= order[j] < |nodes|
    requires k < i <= |order|
    ensures i <= r <= |order|
    ensures forall j :: i <= j < r ==> nodes[order[k]].depth < nodes[order[j]].depth
    ensures r < |order| ==> nodes[order[r]].depth <= nodes[order[k]].depth
    decreases |order| - i
  {
    if i == |order| || nodes[order[i]].depth <= nodes[order[k]].depth then i
    else SubtreeEnd(nodes, order, k, i + 1)
  }

  /** The scan for the end of a subtree stops exactly at `subEnd[k]`. */
  lemma SubtreeEndIsSubEnd(nodes: seq<Node>, order: seq<int>, subEnd: seq<nat>, up: seq<int>, k: nat)
    requires TreeShape(nodes, order, subEnd, up) && k < |order|
    ensures SubtreeEnd(nodes, order, k, k + 1) == subEnd[k]
  {
    SubEndIsFirstShallower(nodes, order, subEnd, up, k, SubtreeEnd(nodes, order, k, k + 1));
  }

  /** The children of node `a`, in the order they appear in the tree. */
  function Children(nodes: seq<Node>, order: seq<int>, a: int): (cs: seq<int>)
    requires forall j :: 0 <= j < |order| ==> 0 <= order[j] < |nodes|
  {
    if |order| == 0 then []
    else
      var rest := Children(nodes, order[1..], a);
      if nodes[order[0]].parent == a then [order[0]] + rest else rest
  }

  /** The children of `a` are exactly the listed nodes whose parent is `a`. */
  lemma {:induction false} ChildrenMembers(nodes: seq<Node>, order: seq<int>, a: int, n: int)
    requires forall j :: 0 <= j < |order| ==> 0 <= order[j] < |nodes|
    ensures n in Children(nodes, order, a) <==> n in order && nodes[n].parent == a
    decreases |order|
  {
    if |order| > 0 {
      ChildrenMembers(nodes, order[1..], a, n);
      assert order == [order[0]] + order[1..];
    }
  }

  /** Children of `a` split along a split of the pre-order. */
  lemma {:induction false} ChildrenAppend(nodes: seq<Node>, s: seq<int>, t: seq<int>, a: int)
    requires forall j :: 0 <= j < |s| ==> 0 <= s[j] < |nodes|
    requires forall j :: 0 <= j < |t| ==> 0 <= t[j] < |nodes|
    ensures Children(nodes, s + t, a) == Children(nodes, s, a) + Children(nodes, t, a)
    decreases |s|
  {
    if |s| > 0 {
      assert (s + t)[1..] == s[1..] + t;
      ChildrenAppend(nodes, s[1..], t, a);
    } else {
      assert s + t == t;
    }
  }

  /** A run of nodes none of which hangs below `a` holds no child of `a`. */
  lemma {:induction false} NoChildren(nodes: seq<Node>, s: seq<int>, a: int)
    requires forall j :: 0 <= j < |s| ==> 0 <= s[j] < |nodes| && nodes[s[j]].parent != a
    ensures Children(nodes, s, a) == []
    decreases |s|
  {
    if |s| > 0 {
      NoChildren(nodes, s[1..], a);
    }
  }

  /** The children of `a` within a run depend only on the parents of its nodes. */
  lemma {:induction false} ChildrenFrame(nodes: seq<Node>, nodes': seq<Node>, s: seq<int>, a: int)
    requires forall j :: 0 <= j < |s| ==> 0 <= s[j] < |nodes| && s[j] < |nodes'| && nodes'[s[j]].parent == nodes[s[j]].parent
    ensures Children(nodes', s, a) == Children(nodes, s, a)
    decreases |s|
  {
    if |s| > 0 {
      ChildrenFrame(nodes, nodes', s[1..], a);
    }
  }

  /** No node from the end of the subtree of position `k` on hangs directly below `order[k]`. */
  lemma NoChildrenPast(nodes: seq<Node>, order: seq<int>, subEnd: seq<nat>, up: seq<int>, k: nat)
    requires TreeShape(nodes, order, subEnd, up) && k < |order|
    ensures Children(nodes, order[subEnd[k]..], order[k]) == []
  {
    var t := order[subEnd[k]..];
    forall j | 0 <= j < |t| ensures 0 <= t[j] < |nodes| && nodes[t[j]].parent != order[k] {
      var i := subEnd[k] + j;
      assert t[j] == order[i];
      DistinctAt(order, up[i], k);
    }
    NoChildren(nodes, t, order[k]);
  }

  /** No node up to position `k` hangs directly below `order[k]`: its children all come after it. */
  lemma NoChildrenBefore(nodes: seq<Node>, order: seq<int>, subEnd: seq<nat>, up: seq<int>, k: nat)
    requires TreeShape(nodes, order, subEnd, up) && k < |order|
    ensures Children(nodes, order[..k + 1], order[k]) == []
  {
    var s := order[..k + 1];
    forall j | 0 <= j < |s| ensures 0 <= s[j] < |nodes| && nodes[s[j]].parent != order[k] {
      assert s[j] == order[j];
      if 0 < j {
        DistinctAt(order, up[j], k);
      }
    }
    NoChildren(nodes, s, order[k]);
  }

  /** A node of parent `a` placed at position `e` of the run, past which no child of `a` lies, is its last child. */
  lemma ChildrenInsertAt(nodes: seq<Node>, order: seq<int>, e: nat, c: Node, a: int)
    requires e <= |order| && forall j :: 0 <= j < |order| ==> 0 <= order[j] < |nodes|
    requires c.parent == a && Children(nodes, order[e..], a) == []
    ensures forall j :: 0 <= j < |order| + 1 ==> 0 <= InsertAt(order, e, |nodes|)[j] < |nodes + [c]|
    ensures Children(nodes + [c], InsertAt(order, e, |nodes|), a) == Children(nodes, order, a) + [|nodes|]
  {
    var x, n' := |nodes|, nodes + [c];
    var s, t := order[..e], order[e..];
    InsertAtSplit(order, e, x);
    assert order == s + t;
    ChildrenAppend(n', s + [x], t, a);
    ChildrenAppend(n', s, [x], a);
    ChildrenAppend(nodes, s, t, a);
    ChildrenFrame(nodes, n', s, a);
    ChildrenFrame(nodes, n', t, a);
    assert Children(n', [x], a) == [x] by {
      assert [x][1..] == [];
    }
  }

  /**
   * `insert(child)` on the node at position `kp` puts the new node at the end
   * of the subtree of `order[kp]`: it becomes the last child.
   */
  lemma ChildrenAfterAppend(nodes: seq<Node>, order: seq<int>, subEnd: seq<nat>, up: seq<int>, kp: nat, c: Node)
    requires TreeShape(nodes, order, subEnd, up) && kp < |order| && c.parent == order[kp]
    ensures forall j :: 0 <= j < |order| + 1 ==> 0 <= InsertAt(order, subEnd[kp], |nodes|)[j] < |nodes + [c]|
    ensures Children(nodes + [c], InsertAt(order, subEnd[kp], |nodes|), order[kp]) == Children(nodes, order, order[kp]) + [|nodes|]
  {
    NoChildrenPast(nodes, order, subEnd, up, kp);
    ChildrenInsertAt(nodes, order, subEnd[kp], c, order[kp]);
  }

  /** The depth of a live node never exceeds its pre-order position. */
  lemma {:induction false} DepthBelowPosition(nodes: seq<Node>, order: seq<int>, subEnd: seq<nat>, up: seq<int>, k: nat)
    requires TreeShape(nodes, order, subEnd, up) && k < |order|
    ensures nodes[order[k]].depth <= k
    decreases k
  {
    if k > 0 {
      assert DepthStep(nodes, order, k);
      DepthBelowPosition(nodes, order, subEnd, up, k - 1);
    }
  }
}
