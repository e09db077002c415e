/**
 * The three list markers of every prototype node. Each live node owns a
 * run of the global proxy list: with `starts[k]` the list position of the
 * `op_first` marker of the node at pre-order position `k`, the own objects
 * of that node occupy positions `starts[k] + 1 .. starts[k + 1]`, and the
 * objects of its subtree run on up to `starts[subEnd[k]]`. `op_first` is the
 * entry just before the run (an exclusive boundary), `op_marker` the entry
 * just after the own objects and `op_last` the entry just after the whole
 * subtree's objects.
 */
module Markers {
  import opened Types
  import opened Seqs
  import opened ProxyList
  import opened PrototypeTree

  /** The run boundaries fit the list and step by each node's count. */
  ghost predicate StartsOk(l: seq<int>, nodes: seq<Node>, order: seq<int>, starts: seq<int>)
    requires forall k :: 0 <= k < |order| ==> 0 <= order[k] < |nodes|
  {
    && 2 <= |l|
    && |starts| == |order| + 1
    && starts[0] == 0 && starts[|order|] == |l| - 2
    && (forall k :: 0 <= k <= |order| ==> 0 <= starts[k] <= |l| - 2)
    && (forall k {:trigger StepAt(nodes, order, starts, k)} :: 0 <= k < |order| ==> StepAt(nodes, order, starts, k))
  }

  /** The own run of the node at pre-order position `k` holds its `count` objects. */
  ghost predicate StepAt(nodes: seq<Node>, order: seq<int>, starts: seq<int>, k: int)
  {
    0 <= k < |order| && k + 1 < |starts| && 0 <= order[k] < |nodes| && starts[k + 1] == starts[k] + nodes[order[k]].count
  }

  /** The markers of the node at pre-order position `k` sit where its runs begin and end. */
  ghost predicate MarkAt(l: seq<int>, nodes: seq<Node>, order: seq<int>, subEnd: seq<nat>, starts: seq<int>, k: int)
  {
    0 <= k < |order| && 0 <= order[k] < |nodes| && |subEnd| == |order| && |starts| == |order| + 1 &&
    subEnd[k] <= |order| && 0 <= starts[k] < |l| && 0 <= starts[k + 1] < |l| - 1 && 0 <= starts[subEnd[k]] < |l| - 1 &&
    var n := nodes[order[k]];
    n.opFirst == l[starts[k]] && n.opMarker == l[starts[k + 1] + 1] && n.opLast == l[starts[subEnd[k]] + 1]
  }

  ghost predicate MarkValues(l: seq<int>, nodes: seq<Node>, order: seq<int>, subEnd: seq<nat>, starts: seq<int>) {
    forall k :: 0 <= k < |order| ==> MarkAt(l, nodes, order, subEnd, starts, k)
  }

  /** The list entry at position `i` belongs to the node whose own run holds `i`. */
  ghost predicate OwnedAt(ps: seq<Proxy>, l: seq<int>, order: seq<int>, starts: seq<int>, i: int)
  {
    0 < i < |l| - 1 && 0 <= l[i] < |ps| && ps[l[i]].node in order && |starts| == |order| + 1 &&
    var k := Pos(order, ps[l[i]].node);
    starts[k] < i <= starts[k + 1]
  }

  ghost predicate Owned(ps: seq<Proxy>, l: seq<int>, order: seq<int>, starts: seq<int>) {
    forall i :: 0 < i < |l| - 1 ==> OwnedAt(ps, l, order, starts, i)
  }

  /** The whole marker invariant over a well-shaped list and tree. */
  ghost predicate MarkersOk(ps: seq<Proxy>, l: seq<int>, nodes: seq<Node>, order: seq<int>, subEnd: seq<nat>, up: seq<int>, starts: seq<int>)
  {
    && ListShape(ps, l)
    && TreeShape(nodes, order, subEnd, up)
    && StartsOk(l, nodes, order, starts)
    && MarkValues(l, nodes, order, subEnd, starts)
    && Owned(ps, l, order, starts)
  }

  /** A new arena slot outside the list keeps the whole marker invariant. */
  lemma GrowKeepsMarkers(ps: seq<Proxy>, l: seq<int>, nodes: seq<Node>, order: seq<int>, subEnd: seq<nat>, up: seq<int>, starts: seq<int>, x: Proxy)
    requires MarkersOk(ps, l, nodes, order, subEnd, up, starts) && !Linked(x)
    ensures MarkersOk(ps + [x], l, nodes, order, subEnd, up, starts)
  {
    var ps' := ps + [x];
    forall i | 0 <= i < |l| - 1 ensures NextAt(ps', l, i) {
      assert NextAt(ps, l, i);
    }
    forall i | 0 < i < |l| ensures PrevAt(ps', l, i) {
      assert PrevAt(ps, l, i);
    }
    forall i | 0 < i < |l| - 1 ensures OwnedAt(ps', l, order, starts, i) {
      assert OwnedAt(ps, l, order, starts, i);
    }
  }

  /** Rewriting the payload of one slot, keeping its links and its node, keeps the whole marker invariant. */
  lemma SameLinksKeepMarkers(ps: seq<Proxy>, l: seq<int>, nodes: seq<Node>, order: seq<int>, subEnd: seq<nat>, up: seq<int>, starts: seq<int>,
                             p: int, x: Proxy)
    requires MarkersOk(ps, l, nodes, order, subEnd, up, starts) && 0 <= p < |ps|
    requires x.prev == ps[p].prev && x.next == ps[p].next && x.node == ps[p].node
    ensures MarkersOk(ps[p := x], l, nodes, order, subEnd, up, starts)
  {
    var ps' := ps[p := x];
    forall i | 0 <= i < |l| - 1 ensures NextAt(ps', l, i) {
      assert NextAt(ps, l, i);
    }
    forall i | 0 < i < |l| ensures PrevAt(ps', l, i) {
      assert PrevAt(ps, l, i);
    }
    forall i | 0 < i < |l| - 1 ensures OwnedAt(ps', l, order, starts, i) {
      assert OwnedAt(ps, l, order, starts, i);
    }
  }

  /** A listed proxy other than the sentinels belongs to a live node. */
  lemma ListedOwned(ps: seq<Proxy>, l: seq<int>, nodes: seq<Node>, order: seq<int>, subEnd: seq<nat>, up: seq<int>, starts: seq<int>, p: int)
    requires MarkersOk(ps, l, nodes, order, subEnd, up, starts)
    requires p in l && p != Head && p != Tail
    ensures 0 < Pos(l, p) < |l| - 1 && ps[p].node in order
  {
    assert OwnedAt(ps, l, order, starts, Pos(l, p));
  }

  /** Run boundaries never decrease. */
  lemma {:induction false} StartsMonotone(l: seq<int>, nodes: seq<Node>, order: seq<int>, starts: seq<int>, i: nat, j: nat)
    requires forall k :: 0 <= k < |order| ==> 0 <= order[k] < |nodes|
    requires StartsOk(l, nodes, order, starts)
    requires i <= j <= |order|
    ensures starts[i] <= starts[j]
    decreases j - i
  {
    if i < j {
      assert StepAt(nodes, order, starts, i);
      StartsMonotone(l, nodes, order, starts, i + 1, j);
    }
  }

  /**
   * The list entries of the runs of pre-order positions `a .. b - 1`: those
   * strictly after `op_first` of position `a` up to the entry before the
   * first run past them.
   */
  ghost function Run(l: seq<int>, starts: seq<int>, a: nat, b: nat): seq<int>
    requires a <= b < |starts| && 0 <= starts[a] <= starts[b] < |l|
  {
    l[starts[a] + 1..starts[b] + 1]
  }

  /** The runs of `a .. b - 1` are the front part of the runs of `a .. c - 1`. */
  lemma RunPrefix(l: seq<int>, starts: seq<int>, a: nat, b: nat, c: nat)
    requires a <= b <= c < |starts| && 0 <= starts[a] <= starts[b] <= starts[c] < |l|
    ensures |Run(l, starts, a, b)| <= |Run(l, starts, a, c)| && Run(l, starts, a, c)[..|Run(l, starts, a, b)|] == Run(l, starts, a, b)
  {
  }

  /**
   * The runs of positions `a .. b - 1` hold exactly the listed proxies,
   * sentinels aside, whose node sits at one of those positions.
   */
  lemma RunOwners(ps: seq<Proxy>, l: seq<int>, nodes: seq<Node>, order: seq<int>, subEnd: seq<nat>, up: seq<int>, starts: seq<int>, a: nat, b: nat)
    requires MarkersOk(ps, l, nodes, order, subEnd, up, starts) && a <= b <= |order|
    ensures 0 <= starts[a] <= starts[b] < |l| - 1
    ensures forall x :: x in Run(l, starts, a, b) <==> x in l && x != Head && x != Tail && 0 <= x < |ps| && ps[x].node in order[a..b]
  {
    StartsMonotone(l, nodes, order, starts, a, b);
    var run := Run(l, starts, a, b);
    forall x | x in run ensures x in l && x != Head && x != Tail && 0 <= x < |ps| && ps[x].node in order[a..b] {
      var j :| 0 <= j < |run| && run[j] == x;
      var i := starts[a] + 1 + j;
      assert l[i] == x && OwnedAt(ps, l, order, starts, i);
      DistinctAt(l, i, 0);
      DistinctAt(l, i, |l| - 1);
      var k := Pos(order, ps[x].node);
      if k < a {
        StartsMonotone(l, nodes, order, starts, k + 1, a);
      } else if k >= b {
        StartsMonotone(l, nodes, order, starts, b, k);
      }
      assert order[a..b][k - a] == ps[x].node;
    }
    forall x | x in l && x != Head && x != Tail && 0 <= x < |ps| && ps[x].node in order[a..b] ensures x in run {
      var i := Pos(l, x);
      assert OwnedAt(ps, l, order, starts, i);
      var k := Pos(order, ps[x].node);
      var m :| a <= m < b && order[m] == ps[x].node;
      DistinctAt(order, m, k);
      StartsMonotone(l, nodes, order, starts, a, k);
      StartsMonotone(l, nodes, order, starts, k + 1, b);
      assert run[i - starts[a] - 1] == x;
    }
  }

  /** In a distinct sequence the position of an entry is the index it sits at. */
  lemma PosOf(order: seq<int>, k: int)
    requires Distinct(order) && 0 <= k < |order|
    ensures Pos(order, order[k]) == k
  {
    DistinctAt(order, k, Pos(order, order[k]));
  }

  /**
   * The own objects of node `order[k]` are exactly the entries strictly
   * between its `op_first` and its `op_marker`.
   */
  lemma OwnRange(ps: seq<Proxy>, l: seq<int>, nodes: seq<Node>, order: seq<int>, subEnd: seq<nat>, up: seq<int>, starts: seq<int>, k: nat, i: nat)
    requires MarkersOk(ps, l, nodes, order, subEnd, up, starts)
    requires k < |order| && 0 < i < |l| - 1
    ensures ps[l[i]].node == order[k] <==> starts[k] < i <= starts[k + 1]
  {
    assert OwnedAt(ps, l, order, starts, i);
    var k' := Pos(order, ps[l[i]].node);
    PosOf(order, k);
    if k' < k {
      StartsMonotone(l, nodes, order, starts, k' + 1, k);
    } else if k < k' {
      StartsMonotone(l, nodes, order, starts, k + 1, k');
    }
  }

  /**
   * What `adjust_left_marker(was, now)` does to one predecessor node: an
   * `op_marker` equal to `was` becomes `now`, and so does an `op_last`
   * equal to `was` unless the node is an ancestor of the adjusting node.
   */
  function LeftMark(n: Node, was: int, now: int, ancestor: bool): Node {
    n.(opMarker := if n.opMarker == was then now else n.opMarker,
       opLast := if !ancestor && n.opLast == was then now else n.opLast)
  }

  /** What `adjust_right_marker(was, now)` does to one successor node: an `op_first` equal to `was` becomes `now`. */
  function RightMark(n: Node, was: int, now: int): Node {
    n.(opFirst := if n.opFirst == was then now else n.opFirst)
  }

  /** `nodes'` is `nodes` after `adjust_left_marker(was, now)` on the node at pre-order position `e`. */
  ghost predicate LeftAdjusted(nodes: seq<Node>, nodes': seq<Node>, order: seq<int>, subEnd: seq<nat>, e: int, was: int, now: int) {
    LeftAdjustedFrom(nodes, nodes', order, subEnd, e, 0, was, now)
  }

  /** What `adjust_left_marker` leaves at pre-order position `m` once it has handled positions `lo .. e - 1`. */
  ghost predicate LeftAt(nodes: seq<Node>, nodes': seq<Node>, order: seq<int>, subEnd: seq<nat>, e: int, lo: int, m: int, was: int, now: int) {
    0 <= m < |order| && m < |subEnd| && 0 <= order[m] < |nodes| && order[m] < |nodes'| &&
    nodes'[order[m]] == if lo <= m < e then LeftMark(nodes[order[m]], was, now, e < subEnd[m]) else nodes[order[m]]
  }

  /** What `adjust_right_marker` leaves at pre-order position `m` once it has handled positions `e + 1 .. hi - 1`. */
  ghost predicate RightAt(nodes: seq<Node>, nodes': seq<Node>, order: seq<int>, e: int, hi: int, m: int, was: int, now: int) {
    0 <= m < |order| && 0 <= order[m] < |nodes| && order[m] < |nodes'| &&
    nodes'[order[m]] == if e < m < hi then RightMark(nodes[order[m]], was, now) else nodes[order[m]]
  }

  /** Slot `n` is the same in both arenas. */
  ghost predicate Kept(nodes: seq<Node>, nodes': seq<Node>, n: int) {
    0 <= n < |nodes| && n < |nodes'| && nodes'[n] == nodes[n]
  }

  /** `nodes'` is `nodes` after `adjust_right_marker(was, now)` on the node at pre-order position `e`. */
  ghost predicate RightAdjusted(nodes: seq<Node>, nodes': seq<Node>, order: seq<int>, e: int, was: int, now: int) {
    RightAdjustedUpTo(nodes, nodes', order, e, |order|, was, now)
  }

  /** `adjust_left_marker` has handled the predecessors at positions `lo .. e - 1`. */
  ghost predicate LeftAdjustedFrom(nodes: seq<Node>, nodes': seq<Node>, order: seq<int>, subEnd: seq<nat>, e: int, lo: int, was: int, now: int) {
    && |nodes'| == |nodes| && |subEnd| == |order|
    && (forall m {:trigger LeftAt(nodes, nodes', order, subEnd, e, lo, m, was, now)} :: 0 <= m < |order| ==> LeftAt(nodes, nodes', order, subEnd, e, lo, m, was, now))
    && (forall n {:trigger Kept(nodes, nodes', n)} :: 0 <= n < |nodes| && n !in order ==> Kept(nodes, nodes', n))
  }

  /** One more step back of `adjust_left_marker`. */
  lemma LeftAdjustStep(nodes: seq<Node>, nodes': seq<Node>, order: seq<int>, subEnd: seq<nat>, e: int, m: int, was: int, now: int, ancestor: bool)
    requires LeftAdjustedFrom(nodes, nodes', order, subEnd, e, m, was, now)
    requires Distinct(order) && 0 < m <= e < |order| && ancestor == (e < subEnd[m - 1])
    ensures 0 <= order[m - 1] < |nodes'| && nodes'[order[m - 1]] == nodes[order[m - 1]]
    ensures LeftAdjustedFrom(nodes, nodes'[order[m - 1] := LeftMark(nodes'[order[m - 1]], was, now, ancestor)], order, subEnd, e, m - 1, was, now)
  {
    var k := order[m - 1];
    assert LeftAt(nodes, nodes', order, subEnd, e, m, m - 1, was, now);
    var nodes'' := nodes'[k := LeftMark(nodes'[k], was, now, ancestor)];
    DistinctOthers(order, m - 1);
    var lo := m - 1;
    forall i | 0 <= i < |order| ensures LeftAt(nodes, nodes'', order, subEnd, e, lo, i, was, now) {
      assert LeftAt(nodes, nodes', order, subEnd, e, m, i, was, now);
    }
    forall n | 0 <= n < |nodes| && n !in order ensures Kept(nodes, nodes'', n) {
      assert Kept(nodes, nodes', n);
    }
  }

  /**
   * The state of the backward walk of `adjust_left_marker` from position
   * `e`: positions `m .. e - 1` are handled and `w` is a shallowest
   * position among `m .. e`.
   */
  ghost predicate LeftWalk(nodes: seq<Node>, nodes': seq<Node>, order: seq<int>, subEnd: seq<nat>, e: int, m: int, w: int, was: int, now: int) {
    && 0 <= m <= w <= e < |order|
    && LeftAdjustedFrom(nodes, nodes', order, subEnd, e, m, was, now)
    && (forall i :: m <= i <= e ==> DepthAt(nodes, order, w) <= DepthAt(nodes, order, i))
  }

  /**
   * One more step back: the node at `m - 1` is an ancestor exactly when it
   * is shallower than the shallowest node met so far.
   */
  lemma LeftWalkStep(nodes: seq<Node>, nodes': seq<Node>, order: seq<int>, subEnd: seq<nat>, up: seq<int>, e: int, m: int, w: int, was: int, now: int)
    requires TreeShape(nodes, order, subEnd, up) && LeftWalk(nodes, nodes', order, subEnd, e, m, w, was, now) && 0 < m
    ensures 0 <= order[m - 1] < |nodes'| && nodes'[order[m - 1]].depth == DepthAt(nodes, order, m - 1)
    ensures var ancestor := DepthAt(nodes, order, m - 1) < DepthAt(nodes, order, w);
      LeftWalk(nodes, nodes'[order[m - 1] := LeftMark(nodes'[order[m - 1]], was, now, ancestor)], order, subEnd, e, m - 1, if ancestor then m - 1 else w, was, now)
  {
    LeastDecidesAncestor(nodes, order, subEnd, up, m - 1, e, w);
    var ancestor := DepthAt(nodes, order, m - 1) < DepthAt(nodes, order, w);
    LeftAdjustStep(nodes, nodes', order, subEnd, e, m, was, now, ancestor);
  }

  /** `adjust_right_marker` has handled the successors at positions `e + 1 .. hi - 1`. */
  ghost predicate RightAdjustedUpTo(nodes: seq<Node>, nodes': seq<Node>, order: seq<int>, e: int, hi: int, was: int, now: int) {
    && |nodes'| == |nodes|
    && (forall m {:trigger RightAt(nodes, nodes', order, e, hi, m, was, now)} :: 0 <= m < |order| ==> RightAt(nodes, nodes', order, e, hi, m, was, now))
    && (forall n {:trigger Kept(nodes, nodes', n)} :: 0 <= n < |nodes| && n !in order ==> Kept(nodes, nodes', n))
  }

  /** One more step forward of `adjust_right_marker`. */
  lemma RightAdjustStep(nodes: seq<Node>, nodes': seq<Node>, order: seq<int>, e: int, m: int, was: int, now: int)
    requires RightAdjustedUpTo(nodes, nodes', order, e, m, was, now)
    requires Distinct(order) && 0 <= e < m < |order|
    ensures 0 <= order[m] < |nodes'|
    ensures RightAdjustedUpTo(nodes, nodes'[order[m] := RightMark(nodes'[order[m]], was, now)], order, e, m + 1, was, now)
  {
    var k := order[m];
    assert RightAt(nodes, nodes', order, e, m, m, was, now);
    var nodes'' := nodes'[k := RightMark(nodes'[k], was, now)];
    DistinctOthers(order, m);
    var hi := m + 1;
    forall i | 0 <= i < |order| ensures RightAt(nodes, nodes'', order, e, hi, i, was, now) {
      assert RightAt(nodes, nodes', order, e, m, i, was, now);
    }
    forall n | 0 <= n < |nodes| && n !in order ensures Kept(nodes, nodes'', n) {
      assert Kept(nodes, nodes', n);
    }
  }

  /** Marker adjustments leave the tree links alone. */
  lemma AdjustKeepsShape(nodes: seq<Node>, nodes': seq<Node>, order: seq<int>, subEnd: seq<nat>, up: seq<int>, e: int, was: int, now: int, left: bool)
    requires TreeShape(nodes, order, subEnd, up)
    requires if left then LeftAdjusted(nodes, nodes', order, subEnd, e, was, now) else RightAdjusted(nodes, nodes', order, e, was, now)
    ensures TreeShape(nodes', order, subEnd, up)
  {
    forall k | 0 <= k < |order|
      ensures 0 <= order[k] < |nodes'| && nodes'[order[k]].parent == nodes[order[k]].parent && nodes'[order[k]].depth == nodes[order[k]].depth
    {
      if left {
        assert LeftAt(nodes, nodes', order, subEnd, e, 0, k, was, now);
      } else {
        assert RightAt(nodes, nodes', order, e, |order|, k, was, now);
      }
    }
    SameLinksKeepShape(nodes, nodes', order, subEnd, up);
  }

  /** Marker adjustments change markers only. */
  lemma AdjustKeepsIdents(nodes: seq<Node>, nodes': seq<Node>, order: seq<int>, subEnd: seq<nat>, e: int, was: int, now: int, left: bool)
    requires Distinct(order)
    requires if left then LeftAdjusted(nodes, nodes', order, subEnd, e, was, now) else RightAdjusted(nodes, nodes', order, e, was, now)
    ensures SameIdents(nodes, nodes') && OtherCounts(nodes, nodes', Null)
  {
    forall n | 0 <= n < |nodes| ensures Ident(nodes'[n]) == Ident(nodes[n]) && nodes'[n].count == nodes[n].count {
      if n in order {
        var m := Pos(order, n);
        if left {
          assert LeftAt(nodes, nodes', order, subEnd, e, 0, m, was, now);
        } else {
          assert RightAt(nodes, nodes', order, e, |order|, m, was, now);
        }
      } else {
        assert Kept(nodes, nodes', n);
      }
    }
  }

  /**
   * Where `insert_proxy` links a new proxy into the run of the node at
   * pre-order position `e`: before its last own object when it has one,
   * else just before its `op_marker`.
   */
  ghost function InsertPos(nodes: seq<Node>, order: seq<int>, starts: seq<int>, e: int): int
    requires 0 <= e < |order| && |starts| == |order| + 1 && 0 <= order[e] < |nodes|
  {
    if nodes[order[e]].count >= 1 then starts[e + 1] else starts[e] + 1
  }

  /** Run boundaries once the node at pre-order position `e` has one more object. */
  ghost function StartsAfterInsert(starts: seq<int>, e: int): (r: seq<int>)
    ensures |r| == |starts|
  {
    seq(|starts|, j requires 0 <= j < |starts| => if j <= e then starts[j] else starts[j] + 1)
  }

  /** Run boundaries once the node at pre-order position `e` has one object less. */
  ghost function StartsAfterRemove(starts: seq<int>, e: int): (r: seq<int>)
    ensures |r| == |starts|
  {
    seq(|starts|, j requires 0 <= j < |starts| => if j <= e then starts[j] else starts[j] - 1)
  }

  /** Run boundaries once the node at pre-order position `e` has `d` objects less. */
  ghost function StartsLess(starts: seq<int>, e: int, d: int): (r: seq<int>)
    ensures |r| == |starts|
  {
    seq(|starts|, j requires 0 <= j < |starts| => if j <= e then starts[j] else starts[j] - d)
  }

  lemma StartsLessNone(starts: seq<int>, e: int)
    ensures StartsLess(starts, e, 0) == starts
  {
  }

  /** One more removal from the node at position `e`. */
  lemma StartsLessStep(starts: seq<int>, e: int, d: int)
    ensures StartsAfterRemove(StartsLess(starts, e, d), e) == StartsLess(starts, e, d + 1)
  {
  }

  /**
   * Run boundaries once positions `j .. E - 1` of the pre-order, whole
   * subtrees, are cut out together with their objects.
   */
  ghost function StartsAfterCut(starts: seq<int>, j: nat, E: nat): (r: seq<int>)
    requires j <= E < |starts|
    ensures |r| == |starts| - (E - j)
  {
    seq(|starts| - (E - j), i requires 0 <= i < |starts| - (E - j) =>
      if i <= j then starts[i] else starts[i + (E - j)] - (starts[E] - starts[j]))
  }

  lemma StartsCutNone(starts: seq<int>, j: nat)
    requires j < |starts|
    ensures StartsAfterCut(starts, j, j) == starts
  {
  }

  /** Cutting `j .. m - 1` out and then the next `E - m` positions is cutting `j .. E - 1` out. */
  lemma StartsCutCut(starts: seq<int>, j: nat, m: nat, E: nat)
    requires j <= m <= E < |starts|
    ensures StartsAfterCut(StartsAfterCut(starts, j, m), j, j + (E - m)) == StartsAfterCut(starts, j, E)
  {
  }

  /**
   * Positions `j .. E - 1` of the pre-order `o`, whole subtrees, are cut
   * out together with their objects: `o'`, `e'`, `s'` and `l'` are the
   * pre-order, subtree ends, run boundaries and list that are left.
   */
  ghost predicate CutRun(j: nat, E: nat, o: seq<int>, e: seq<nat>, s: seq<int>, l: seq<int>,
                         o': seq<int>, e': seq<nat>, s': seq<int>, l': seq<int>)
  {
    && j <= E <= |o| && |e| == |o| && EndsPast(e) && |s| == |o| + 1 && 0 <= s[j] <= s[E] < |l|
    && o' == o[..j] + o[E..]
    && e' == SubEndAfterCut(e, j, E)
    && s' == StartsAfterCut(s, j, E)
    && l' == l[..s[j] + 1] + l[s[E] + 1..]
  }

  /** A cut just below position `j - 1` shrinks the subtree of that position, never grows it. */
  lemma CutRunShrinks(j: nat, E: nat, o: seq<int>, e: seq<nat>, s: seq<int>, l: seq<int>,
                      o': seq<int>, e': seq<nat>, s': seq<int>, l': seq<int>)
    requires CutRun(j, E, o, e, s, l, o', e', s', l') && 0 < j
    ensures j - 1 < |e'| && j - 1 < e'[j - 1] <= e[j - 1]
  {
  }

  /** Cutting out every position after the first leaves only the first, and the list keeps only the run of the first and the end. */
  lemma CutAllButFirst(o: seq<int>, e: seq<nat>, s: seq<int>, l: seq<int>,
                       o': seq<int>, e': seq<nat>, s': seq<int>, l': seq<int>)
    requires 0 < |o| && CutRun(1, |o|, o, e, s, l, o', e', s', l') && s[|o|] == |l| - 2
    ensures o' == [o[0]] && 0 <= s[1] < |l| - 1 && l' == l[..s[1] + 1] + [l[|l| - 1]]
  {
    assert l[s[|o|] + 1..] == [l[|l| - 1]];
  }

  /** Cutting out nothing. */
  lemma CutRunNone(j: nat, o: seq<int>, e: seq<nat>, s: seq<int>, l: seq<int>)
    requires j <= |o| && |e| == |o| && EndsPast(e) && |s| == |o| + 1 && 0 <= s[j] < |l|
    ensures CutRun(j, j, o, e, s, l, o, e, s, l)
  {
    SubEndCutNone(e, j);
    StartsCutNone(s, j);
    assert o == o[..j] + o[j..];
    assert l == l[..s[j] + 1] + l[s[j] + 1..];
  }

  /**
   * Cutting `j .. m - 1` out and then the next `E - m` positions is
   * cutting `j .. E - 1` out, when every earlier subtree that reaches past
   * `j` reaches `E`.
   */
  lemma CutRunThen(j: nat, m: nat, E: nat, o: seq<int>, e: seq<nat>, s: seq<int>, l: seq<int>,
                   o1: seq<int>, e1: seq<nat>, s1: seq<int>, l1: seq<int>,
                   o2: seq<int>, e2: seq<nat>, s2: seq<int>, l2: seq<int>)
    requires CutRun(j, m, o, e, s, l, o1, e1, s1, l1)
    requires m <= E <= |o| && s[m] <= s[E]
    requires forall i :: 0 <= i < j && e[i] > j ==> e[i] >= E
    requires CutRun(j, j + (E - m), o1, e1, s1, l1, o2, e2, s2, l2)
    ensures CutRun(j, E, o, e, s, l, o2, e2, s2, l2)
  {
    JoinCut(o, j, m, E);
    SubEndCutCut(e, j, m, E);
    StartsCutCut(s, j, m, E);
    JoinCut(l, s[j] + 1, s[m] + 1, s[E] + 1);
  }

  /**
   * The own objects of the node at pre-order position `k` are cleared: its
   * run leaves the list `l`, giving `l'`, and the later run boundaries move
   * back by its length.
   */
  ghost predicate ClearRun(k: nat, s: seq<int>, l: seq<int>, s': seq<int>, l': seq<int>) {
    && k + 1 < |s| && 0 <= s[k] <= s[k + 1] < |l|
    && s' == StartsLess(s, k, s[k + 1] - s[k])
    && l' == l[..s[k] + 1] + l[s[k + 1] + 1..]
  }

  /** Taking out the leaf at position `k`, once it holds no objects, is cutting `k` out. */
  lemma EmptyLeafCut(k: nat, o: seq<int>, e: seq<nat>, s: seq<int>, l: seq<int>)
    requires 0 < k < |o| && |e| == |o| && EndsPast(e) && e[k] == k + 1 && |s| == |o| + 1 && 0 <= s[k] == s[k + 1] < |l|
    ensures CutRun(k, k + 1, o, e, s, l, RemoveAt(o, k), SubEndAfterRemove(e, k), RemoveAt(s, k), l)
  {
    assert RemoveAt(o, k) == o[..k] + o[k + 1..];
    assert l == l[..s[k] + 1] + l[s[k + 1] + 1..];
  }

  /** Clearing the own objects of the leaf at position `k` and then cutting it out is cutting it out with its objects. */
  lemma ClearThenCut(k: nat, o: seq<int>, e: seq<nat>, s: seq<int>, l: seq<int>, s1: seq<int>, l1: seq<int>,
                     o2: seq<int>, e2: seq<nat>, s2: seq<int>, l2: seq<int>)
    requires ClearRun(k, s, l, s1, l1) && CutRun(k, k + 1, o, e, s1, l1, o2, e2, s2, l2)
    ensures CutRun(k, k + 1, o, e, s, l, o2, e2, s2, l2)
  {
    assert l1[..s1[k] + 1] + l1[s1[k + 1] + 1..] == l1;
  }

  /**
   * Cutting out the subtrees below position `j`, which end at `E`, and
   * then the leaf left at `j`, is cutting `j .. E - 1` out.
   */
  lemma CutRunBefore(j: nat, E: nat, o: seq<int>, e: seq<nat>, s: seq<int>, l: seq<int>,
                     o1: seq<int>, e1: seq<nat>, s1: seq<int>, l1: seq<int>,
                     o2: seq<int>, e2: seq<nat>, s2: seq<int>, l2: seq<int>)
    requires CutRun(j + 1, E, o, e, s, l, o1, e1, s1, l1)
    requires forall i :: 0 <= i < j && e[i] > j ==> e[i] >= E
    requires CutRun(j, j + 1, o1, e1, s1, l1, o2, e2, s2, l2)
    ensures CutRun(j, E, o, e, s, l, o2, e2, s2, l2)
  {
    CutBefore(o, j, j + 1, E);
    assert s1[j] == s[j] && s1[j + 1] == s[j + 1];
    CutBefore(l, s[j] + 1, s[j + 1] + 1, s[E] + 1);
    assert SubEndAfterCut(e1, j, j + 1) == SubEndAfterCut(e, j, E);
    assert StartsAfterCut(s1, j, j + 1) == StartsAfterCut(s, j, E);
  }

  /**
   * The walk over the children of the node at position `k` of the
   * pre-order `o`: `m` is the end of its subtree or the position of its
   * next child.
   */
  ghost predicate ChildWalk(nodes: seq<Node>, o: seq<int>, e: seq<nat>, up: seq<int>, s: seq<int>, l: seq<int>, k: nat, m: nat) {
    && TreeShape(nodes, o, e, up) && EndsPast(e) && StartsOk(l, nodes, o, s)
    && k < |o| && (forall i :: 0 <= i < k && e[i] > k ==> e[i] >= e[k])
    && k + 1 <= m <= e[k] && (m == e[k] || up[m] == k)
  }

  /**
   * Once the children before position `m` are cut out, the child at `m`
   * follows its parent directly, and its subtree spans fewer positions
   * than the parent's.
   */
  lemma ChildFront(nodes: seq<Node>, o: seq<int>, e: seq<nat>, up: seq<int>, s: seq<int>, l: seq<int>, k: nat, m: nat,
                   o1: seq<int>, e1: seq<nat>, s1: seq<int>, l1: seq<int>)
    requires ChildWalk(nodes, o, e, up, s, l, k, m) && m < e[k]
    requires CutRun(k + 1, m, o, e, s, l, o1, e1, s1, l1)
    ensures k + 1 < |o1| && o1[k] == o[k] && o1[k + 1] == o[m]
    ensures e1[k + 1] == k + 1 + (e[m] - m) && e1[k + 1] - (k + 1) < e1[k] - k
  {
    Nesting(nodes, o, e, up, k, m);
  }

  /**
   * Cutting out the subtree of the child at position `m`, which sits at
   * `k + 1` once the earlier children are gone, moves the walk past it.
   */
  lemma ChildStep(nodes: seq<Node>, o: seq<int>, e: seq<nat>, up: seq<int>, s: seq<int>, l: seq<int>, k: nat, m: nat,
                  o1: seq<int>, e1: seq<nat>, s1: seq<int>, l1: seq<int>,
                  o2: seq<int>, e2: seq<nat>, s2: seq<int>, l2: seq<int>)
    requires ChildWalk(nodes, o, e, up, s, l, k, m) && m < e[k]
    requires CutRun(k + 1, m, o, e, s, l, o1, e1, s1, l1)
    requires CutRun(k + 1, e1[k + 1], o1, e1, s1, l1, o2, e2, s2, l2)
    ensures m < e[m] && ChildWalk(nodes, o, e, up, s, l, k, e[m])
    ensures CutRun(k + 1, e[m], o, e, s, l, o2, e2, s2, l2)
  {
    Nesting(nodes, o, e, up, k, m);
    StartsMonotone(l, nodes, o, s, m, e[m]);
    assert e1[k + 1] == k + 1 + (e[m] - m);
    CutRunThen(k + 1, m, e[m], o, e, s, l, o1, e1, s1, l1, o2, e2, s2, l2);
    if e[m] < e[k] {
      SiblingNext(nodes, o, e, up, k, m);
    }
  }

  /**
   * The first own entry of the node at position `e`: the one after its
   * `op_first`. It is its `op_marker` exactly when the node has no own
   * objects, and otherwise belongs to the node.
   */
  lemma FirstOwn(ps: seq<Proxy>, l: seq<int>, nodes: seq<Node>, order: seq<int>, subEnd: seq<nat>, up: seq<int>, starts: seq<int>, e: nat)
    requires MarkersOk(ps, l, nodes, order, subEnd, up, starts) && e < |order|
    ensures var n, i := nodes[order[e]], starts[e] + 1;
      && 0 <= n.opFirst < |ps| && 0 < i < |l| && ps[n.opFirst].next == l[i]
      && (l[i] == n.opMarker <==> n.count == 0)
      && starts[e + 1] == starts[e] + n.count
      && (n.count > 0 ==> i < |l| - 1 && 0 <= l[i] < |ps| && ps[l[i]].node == order[e] && l[i] != Head && l[i] != Tail && Pos(l, l[i]) == i)
  {
    var n, i := nodes[order[e]], starts[e] + 1;
    assert MarkAt(l, nodes, order, subEnd, starts, e) && StepAt(nodes, order, starts, e);
    assert NextAt(ps, l, starts[e]);
    DistinctAt(l, i, starts[e + 1] + 1);
    if n.count > 0 {
      OwnRange(ps, l, nodes, order, subEnd, up, starts, e, i);
      DistinctAt(l, 0, i);
      DistinctAt(l, |l| - 1, i);
      PosOf(l, i);
    }
  }

  /** `insert_proxy` links before `op_marker->prev` when the node has objects and before `op_marker` when it has none: the entry at `InsertPos`. */
  lemma InsertBase(ps: seq<Proxy>, l: seq<int>, nodes: seq<Node>, order: seq<int>, subEnd: seq<nat>, up: seq<int>, starts: seq<int>, e: int)
    requires MarkersOk(ps, l, nodes, order, subEnd, up, starts) && 0 <= e < |order|
    ensures var n, q := nodes[order[e]], InsertPos(nodes, order, starts, e);
      && 0 < q < |l| && 0 <= n.opMarker < |ps|
      && l[q] == if n.count >= 1 then ps[n.opMarker].prev else n.opMarker
  {
    assert MarkAt(l, nodes, order, subEnd, starts, e) && StepAt(nodes, order, starts, e);
    assert PrevAt(ps, l, starts[e + 1] + 1);
  }

  /**
   * The steps of `insert_proxy(order[e], p)`: `ps1` is the arena after
   * linking `p` before the entry at `InsertPos`, `ps'` the arena once `p`
   * names its node; `nodes1` and `nodes2` are the nodes after the left and
   * the right marker adjustment the count calls for, `nodes'` once the
   * count is raised.
   */
  ghost predicate ProxyInsertion(ps: seq<Proxy>, l: seq<int>, nodes: seq<Node>, order: seq<int>, subEnd: seq<nat>, up: seq<int>, starts: seq<int>,
                                 e: int, p: int, ps1: seq<Proxy>, ps': seq<Proxy>, nodes1: seq<Node>, nodes2: seq<Node>, nodes': seq<Node>)
  {
    && MarkersOk(ps, l, nodes, order, subEnd, up, starts)
    && 0 <= e < |order| && 0 <= p < |ps| && p !in l
    && var q := InsertPos(nodes, order, starts, e);
    && var c := nodes[order[e]].count;
    && 0 < q < |l|
    && LinksBefore(ps, ps1, l[q], p)
    && ps' == ps1[p := ps1[p].(node := order[e])]
    && (c >= 2 ==> nodes2 == nodes)
    && (c == 1 ==> LeftAdjusted(nodes, nodes1, order, subEnd, e, l[q], p) && nodes2 == nodes1)
    && (c == 0 ==> LeftAdjusted(nodes, nodes1, order, subEnd, e, l[q], p) && RightAdjusted(nodes1, nodes2, order, e, l[q - 1], p))
    && |nodes2| == |nodes|
    && nodes' == nodes2[order[e] := nodes2[order[e]].(count := c + 1)]
  }

  /** How `insert_proxy` changes one live node: only the markers equal to the neighbours of the new entry, and the count of its own node. */
  lemma InsertedNode(ps: seq<Proxy>, l: seq<int>, nodes: seq<Node>, order: seq<int>, subEnd: seq<nat>, up: seq<int>, starts: seq<int>,
                       e: int, p: int, ps1: seq<Proxy>, ps': seq<Proxy>, nodes1: seq<Node>, nodes2: seq<Node>, nodes': seq<Node>, m: nat)
    requires ProxyInsertion(ps, l, nodes, order, subEnd, up, starts, e, p, ps1, ps', nodes1, nodes2, nodes')
    requires m < |order|
    ensures 0 <= order[m] < |nodes'| && StepAt(nodes, order, starts, e)
    ensures var n, n', q, c := nodes[order[m]], nodes'[order[m]], InsertPos(nodes, order, starts, e), nodes[order[e]].count;
      && n'.parent == n.parent && n'.depth == n.depth
      && n'.count == (if m == e then n.count + 1 else n.count)
      && n'.opFirst == (if c == 0 && m > e && n.opFirst == l[q - 1] then p else n.opFirst)
      && n'.opMarker == (if c <= 1 && m < e && n.opMarker == l[q] then p else n.opMarker)
      && n'.opLast == (if c <= 1 && m < e && !(e < subEnd[m]) && n.opLast == l[q] then p else n.opLast)
  {
    DistinctAt(order, m, e);
    var q := InsertPos(nodes, order, starts, e);
    var c := nodes[order[e]].count;
    if c <= 1 {
      assert LeftAt(nodes, nodes1, order, subEnd, e, 0, m, l[q], p);
    }
    if c == 0 {
      assert RightAt(nodes1, nodes2, order, e, |order|, m, l[q - 1], p);
    }
  }

  lemma InsertFirstAtBefore(ps: seq<Proxy>, l: seq<int>, nodes: seq<Node>, order: seq<int>, subEnd: seq<nat>, up: seq<int>, starts: seq<int>,
                       e: int, p: int, ps1: seq<Proxy>, ps': seq<Proxy>, nodes1: seq<Node>, nodes2: seq<Node>, nodes': seq<Node>, m: nat)
    requires ProxyInsertion(ps, l, nodes, order, subEnd, up, starts, e, p, ps1, ps', nodes1, nodes2, nodes')
    requires m < |order|
    requires m <= e
    ensures nodes'[order[m]].opFirst == InsertAt(l, InsertPos(nodes, order, starts, e), p)[StartsAfterInsert(starts, e)[m]]
  {
    var q := InsertPos(nodes, order, starts, e);
    InsertedNode(ps, l, nodes, order, subEnd, up, starts, e, p, ps1, ps', nodes1, nodes2, nodes', m);
    assert MarkAt(l, nodes, order, subEnd, starts, m);
    StartsMonotone(l, nodes, order, starts, m, e);
  }

  lemma InsertFirstAtAfter(ps: seq<Proxy>, l: seq<int>, nodes: seq<Node>, order: seq<int>, subEnd: seq<nat>, up: seq<int>, starts: seq<int>,
                       e: int, p: int, ps1: seq<Proxy>, ps': seq<Proxy>, nodes1: seq<Node>, nodes2: seq<Node>, nodes': seq<Node>, m: nat)
    requires ProxyInsertion(ps, l, nodes, order, subEnd, up, starts, e, p, ps1, ps', nodes1, nodes2, nodes')
    requires m < |order|
    requires e < m
    ensures nodes'[order[m]].opFirst == InsertAt(l, InsertPos(nodes, order, starts, e), p)[StartsAfterInsert(starts, e)[m]]
  {
    var q := InsertPos(nodes, order, starts, e);
    InsertedNode(ps, l, nodes, order, subEnd, up, starts, e, p, ps1, ps', nodes1, nodes2, nodes', m);
    assert MarkAt(l, nodes, order, subEnd, starts, m);
    StartsMonotone(l, nodes, order, starts, e + 1, m);
    DistinctAt(l, starts[m], q - 1);
  }

  lemma InsertFirstAt(ps: seq<Proxy>, l: seq<int>, nodes: seq<Node>, order: seq<int>, subEnd: seq<nat>, up: seq<int>, starts: seq<int>,
                       e: int, p: int, ps1: seq<Proxy>, ps': seq<Proxy>, nodes1: seq<Node>, nodes2: seq<Node>, nodes': seq<Node>, m: nat)
    requires ProxyInsertion(ps, l, nodes, order, subEnd, up, starts, e, p, ps1, ps', nodes1, nodes2, nodes')
    requires m < |order|
    ensures nodes'[order[m]].opFirst == InsertAt(l, InsertPos(nodes, order, starts, e), p)[StartsAfterInsert(starts, e)[m]]
  {
    if m <= e {
      InsertFirstAtBefore(ps, l, nodes, order, subEnd, up, starts, e, p, ps1, ps', nodes1, nodes2, nodes', m);
    } else {
      InsertFirstAtAfter(ps, l, nodes, order, subEnd, up, starts, e, p, ps1, ps', nodes1, nodes2, nodes', m);
    }
  }

  lemma InsertMarkerAtBefore(ps: seq<Proxy>, l: seq<int>, nodes: seq<Node>, order: seq<int>, subEnd: seq<nat>, up: seq<int>, starts: seq<int>,
                       e: int, p: int, ps1: seq<Proxy>, ps': seq<Proxy>, nodes1: seq<Node>, nodes2: seq<Node>, nodes': seq<Node>, m: nat)
    requires ProxyInsertion(ps, l, nodes, order, subEnd, up, starts, e, p, ps1, ps', nodes1, nodes2, nodes')
    requires m < |order|
    requires m < e
    ensures nodes'[order[m]].opMarker == InsertAt(l, InsertPos(nodes, order, starts, e), p)[StartsAfterInsert(starts, e)[m + 1] + 1]
  {
    var q := InsertPos(nodes, order, starts, e);
    InsertedNode(ps, l, nodes, order, subEnd, up, starts, e, p, ps1, ps', nodes1, nodes2, nodes', m);
    assert MarkAt(l, nodes, order, subEnd, starts, m);
    StartsMonotone(l, nodes, order, starts, m + 1, e);
    DistinctAt(l, starts[m + 1] + 1, q);
  }

  lemma InsertMarkerAtAfter(ps: seq<Proxy>, l: seq<int>, nodes: seq<Node>, order: seq<int>, subEnd: seq<nat>, up: seq<int>, starts: seq<int>,
                       e: int, p: int, ps1: seq<Proxy>, ps': seq<Proxy>, nodes1: seq<Node>, nodes2: seq<Node>, nodes': seq<Node>, m: nat)
    requires ProxyInsertion(ps, l, nodes, order, subEnd, up, starts, e, p, ps1, ps', nodes1, nodes2, nodes')
    requires m < |order|
    requires e <= m
    ensures nodes'[order[m]].opMarker == InsertAt(l, InsertPos(nodes, order, starts, e), p)[StartsAfterInsert(starts, e)[m + 1] + 1]
  {
    var q := InsertPos(nodes, order, starts, e);
    InsertedNode(ps, l, nodes, order, subEnd, up, starts, e, p, ps1, ps', nodes1, nodes2, nodes', m);
    assert MarkAt(l, nodes, order, subEnd, starts, m);
    if m > e {
      StartsMonotone(l, nodes, order, starts, e + 1, m + 1);
    }
  }

  lemma InsertMarkerAt(ps: seq<Proxy>, l: seq<int>, nodes: seq<Node>, order: seq<int>, subEnd: seq<nat>, up: seq<int>, starts: seq<int>,
                       e: int, p: int, ps1: seq<Proxy>, ps': seq<Proxy>, nodes1: seq<Node>, nodes2: seq<Node>, nodes': seq<Node>, m: nat)
    requires ProxyInsertion(ps, l, nodes, order, subEnd, up, starts, e, p, ps1, ps', nodes1, nodes2, nodes')
    requires m < |order|
    ensures nodes'[order[m]].opMarker == InsertAt(l, InsertPos(nodes, order, starts, e), p)[StartsAfterInsert(starts, e)[m + 1] + 1]
  {
    if m < e {
      InsertMarkerAtBefore(ps, l, nodes, order, subEnd, up, starts, e, p, ps1, ps', nodes1, nodes2, nodes', m);
    } else {
      InsertMarkerAtAfter(ps, l, nodes, order, subEnd, up, starts, e, p, ps1, ps', nodes1, nodes2, nodes', m);
    }
  }

  lemma InsertLastInside(ps: seq<Proxy>, l: seq<int>, nodes: seq<Node>, order: seq<int>, subEnd: seq<nat>, up: seq<int>, starts: seq<int>,
                       e: int, p: int, ps1: seq<Proxy>, ps': seq<Proxy>, nodes1: seq<Node>, nodes2: seq<Node>, nodes': seq<Node>, m: nat)
    requires ProxyInsertion(ps, l, nodes, order, subEnd, up, starts, e, p, ps1, ps', nodes1, nodes2, nodes')
    requires m < |order| && subEnd[m] <= e
    ensures nodes'[order[m]].opLast == InsertAt(l, InsertPos(nodes, order, starts, e), p)[StartsAfterInsert(starts, e)[subEnd[m]] + 1]
  {
    var q := InsertPos(nodes, order, starts, e);
    InsertedNode(ps, l, nodes, order, subEnd, up, starts, e, p, ps1, ps', nodes1, nodes2, nodes', m);
    assert MarkAt(l, nodes, order, subEnd, starts, m);
    StartsMonotone(l, nodes, order, starts, subEnd[m], e);
    DistinctAt(l, starts[subEnd[m]] + 1, q);
  }

  lemma InsertLastAround(ps: seq<Proxy>, l: seq<int>, nodes: seq<Node>, order: seq<int>, subEnd: seq<nat>, up: seq<int>, starts: seq<int>,
                       e: int, p: int, ps1: seq<Proxy>, ps': seq<Proxy>, nodes1: seq<Node>, nodes2: seq<Node>, nodes': seq<Node>, m: nat)
    requires ProxyInsertion(ps, l, nodes, order, subEnd, up, starts, e, p, ps1, ps', nodes1, nodes2, nodes')
    requires m < |order| && e < subEnd[m]
    ensures nodes'[order[m]].opLast == InsertAt(l, InsertPos(nodes, order, starts, e), p)[StartsAfterInsert(starts, e)[subEnd[m]] + 1]
  {
    var q := InsertPos(nodes, order, starts, e);
    InsertedNode(ps, l, nodes, order, subEnd, up, starts, e, p, ps1, ps', nodes1, nodes2, nodes', m);
    assert MarkAt(l, nodes, order, subEnd, starts, m);
    StartsMonotone(l, nodes, order, starts, e + 1, subEnd[m]);
  }

  lemma InsertLastAt(ps: seq<Proxy>, l: seq<int>, nodes: seq<Node>, order: seq<int>, subEnd: seq<nat>, up: seq<int>, starts: seq<int>,
                       e: int, p: int, ps1: seq<Proxy>, ps': seq<Proxy>, nodes1: seq<Node>, nodes2: seq<Node>, nodes': seq<Node>, m: nat)
    requires ProxyInsertion(ps, l, nodes, order, subEnd, up, starts, e, p, ps1, ps', nodes1, nodes2, nodes')
    requires m < |order|
    ensures nodes'[order[m]].opLast == InsertAt(l, InsertPos(nodes, order, starts, e), p)[StartsAfterInsert(starts, e)[subEnd[m]] + 1]
  {
    if subEnd[m] <= e {
      InsertLastInside(ps, l, nodes, order, subEnd, up, starts, e, p, ps1, ps', nodes1, nodes2, nodes', m);
    } else {
      InsertLastAround(ps, l, nodes, order, subEnd, up, starts, e, p, ps1, ps', nodes1, nodes2, nodes', m);
    }
  }

  /** After `insert_proxy`, every live node's markers still sit at the ends of its runs. */
  lemma InsertKeepsMarks(ps: seq<Proxy>, l: seq<int>, nodes: seq<Node>, order: seq<int>, subEnd: seq<nat>, up: seq<int>, starts: seq<int>,
                       e: int, p: int, ps1: seq<Proxy>, ps': seq<Proxy>, nodes1: seq<Node>, nodes2: seq<Node>, nodes': seq<Node>)
    requires ProxyInsertion(ps, l, nodes, order, subEnd, up, starts, e, p, ps1, ps', nodes1, nodes2, nodes')
    ensures MarkValues(InsertAt(l, InsertPos(nodes, order, starts, e), p), nodes', order, subEnd, StartsAfterInsert(starts, e))
  {
    var q := InsertPos(nodes, order, starts, e);
    var l', s' := InsertAt(l, q, p), StartsAfterInsert(starts, e);
    forall m | 0 <= m < |order| ensures MarkAt(l', nodes', order, subEnd, s', m) {
      assert MarkAt(l, nodes, order, subEnd, starts, m);
      InsertFirstAt(ps, l, nodes, order, subEnd, up, starts, e, p, ps1, ps', nodes1, nodes2, nodes', m);
      InsertMarkerAt(ps, l, nodes, order, subEnd, up, starts, e, p, ps1, ps', nodes1, nodes2, nodes', m);
      InsertLastAt(ps, l, nodes, order, subEnd, up, starts, e, p, ps1, ps', nodes1, nodes2, nodes', m);
    }
  }

  lemma InsertOwnedAt(ps: seq<Proxy>, l: seq<int>, nodes: seq<Node>, order: seq<int>, subEnd: seq<nat>, up: seq<int>, starts: seq<int>,
                       e: int, p: int, ps1: seq<Proxy>, ps': seq<Proxy>, nodes1: seq<Node>, nodes2: seq<Node>, nodes': seq<Node>, i: nat)
    requires ProxyInsertion(ps, l, nodes, order, subEnd, up, starts, e, p, ps1, ps', nodes1, nodes2, nodes')
    requires 0 < i < |l|
    ensures OwnedAt(ps', InsertAt(l, InsertPos(nodes, order, starts, e), p), order, StartsAfterInsert(starts, e), i)
  {
    var q := InsertPos(nodes, order, starts, e);
    var l', s' := InsertAt(l, q, p), StartsAfterInsert(starts, e);
    assert StepAt(nodes, order, starts, e);
    if i == q {
      PosOf(order, e);
    } else {
      var i0 := if i < q then i else i - 1;
      assert l'[i] == l[i0];
      assert OwnedAt(ps, l, order, starts, i0);
      LinkKeepsLabel(ps, ps1, l[q], p, l[i0]);
      var k := Pos(order, ps[l[i0]].node);
      if k < e {
        StartsMonotone(l, nodes, order, starts, k + 1, e);
      } else if k > e {
        StartsMonotone(l, nodes, order, starts, e + 1, k);
      }
    }
  }

  /** `insert_proxy` keeps the whole marker invariant, with the new entry in the own run of its node. */
  lemma InsertKeepsMarkers(ps: seq<Proxy>, l: seq<int>, nodes: seq<Node>, order: seq<int>, subEnd: seq<nat>, up: seq<int>, starts: seq<int>,
                       e: int, p: int, ps1: seq<Proxy>, ps': seq<Proxy>, nodes1: seq<Node>, nodes2: seq<Node>, nodes': seq<Node>)
    requires ProxyInsertion(ps, l, nodes, order, subEnd, up, starts, e, p, ps1, ps', nodes1, nodes2, nodes')
    ensures MarkersOk(ps', InsertAt(l, InsertPos(nodes, order, starts, e), p), nodes', order, subEnd, up, StartsAfterInsert(starts, e))
  {
    var q := InsertPos(nodes, order, starts, e);
    var l', s' := InsertAt(l, q, p), StartsAfterInsert(starts, e);
    LinkInserts(ps, ps1, l, q, p);
    RelabelKeepsShape(ps1, l', p, order[e]);
    forall m | 0 <= m < |order|
      ensures 0 <= order[m] < |nodes'| && nodes'[order[m]].parent == nodes[order[m]].parent && nodes'[order[m]].depth == nodes[order[m]].depth
      ensures nodes'[order[m]].count == if m == e then nodes[order[m]].count + 1 else nodes[order[m]].count
      ensures StepAt(nodes', order, s', m)
    {
      InsertedNode(ps, l, nodes, order, subEnd, up, starts, e, p, ps1, ps', nodes1, nodes2, nodes', m);
      assert StepAt(nodes, order, starts, m);
    }
    SameLinksKeepShape(nodes, nodes', order, subEnd, up);
    InsertKeepsMarks(ps, l, nodes, order, subEnd, up, starts, e, p, ps1, ps', nodes1, nodes2, nodes');
    forall i | 0 < i < |l'| - 1 ensures OwnedAt(ps', l', order, s', i) {
      InsertOwnedAt(ps, l, nodes, order, subEnd, up, starts, e, p, ps1, ps', nodes1, nodes2, nodes', i);
    }
  }

  /**
   * `insert_proxy` as the program performs it: `base` is `op_marker->prev`
   * or `op_marker`, `p` is linked before it, the markers move as the count
   * says, then `p` is labelled and counted. The result keeps the marker
   * invariant.
   */
  lemma InsertSteps(ps: seq<Proxy>, l: seq<int>, nodes: seq<Node>, order: seq<int>, subEnd: seq<nat>, up: seq<int>, starts: seq<int>,
                    e: int, node: int, c: int, p: int, base: int, ps1: seq<Proxy>, ps': seq<Proxy>, nodes1: seq<Node>, nodes2: seq<Node>, nodes': seq<Node>)
    requires MarkersOk(ps, l, nodes, order, subEnd, up, starts)
    requires 0 <= e < |order| && order[e] == node && 0 <= p < |ps| && p !in l
    requires 0 <= node < |nodes| && c == nodes[node].count
    requires 0 <= nodes[node].opMarker < |ps|
    requires base == if c >= 1 then ps[nodes[node].opMarker].prev else nodes[node].opMarker
    requires 0 <= base < |ps| && LinksBefore(ps, ps1, base, p) && |ps1| == |ps|
    requires |nodes2| == |nodes|
      && (c >= 2 ==> nodes2 == nodes)
      && (c == 1 ==> LeftAdjusted(nodes, nodes1, order, subEnd, e, ps1[p].next, p) && nodes2 == nodes1)
      && (c == 0 ==> LeftAdjusted(nodes, nodes1, order, subEnd, e, ps1[p].next, p) && RightAdjusted(nodes1, nodes2, order, e, ps1[p].prev, p))
    requires ps' == ps1[p := ps1[p].(node := node)]
    requires nodes' == nodes2[node := nodes2[node].(count := c + 1)]
    ensures 0 < InsertPos(nodes, order, starts, e) < |l|
    ensures MarkersOk(ps', InsertAt(l, InsertPos(nodes, order, starts, e), p), nodes', order, subEnd, up, StartsAfterInsert(starts, e))
    ensures Relinked(ps[p := ps[p].(node := node)], ps') && SameIdents(nodes, nodes') && OtherCounts(nodes, nodes', node)
  {
    LinkRelinks(ps, ps1, base, p);
    if c <= 1 {
      AdjustKeepsIdents(nodes, nodes1, order, subEnd, e, ps1[p].next, p, true);
    }
    if c == 0 {
      AdjustKeepsIdents(nodes1, nodes2, order, subEnd, e, ps1[p].prev, p, false);
    }
    InsertBase(ps, l, nodes, order, subEnd, up, starts, e);
    var q := InsertPos(nodes, order, starts, e);
    assert PrevAt(ps, l, q);
    assert ps1[p].next == l[q] && ps1[p].prev == l[q - 1];
    InsertKeepsMarkers(ps, l, nodes, order, subEnd, up, starts, e, p, ps1, ps', nodes1, nodes2, nodes');
  }

  /**
   * The steps of `remove_proxy(order[e], l[r])` for an entry of the own run
   * of `order[e]`: `nodes1` after the left adjustment made when it is the
   * first own object, `nodes2` after the right adjustment made when it is
   * the last one, `ps'` once it is unlinked and `nodes'` once the count is
   * lowered.
   */
  ghost predicate ProxyRemoval(ps: seq<Proxy>, l: seq<int>, nodes: seq<Node>, order: seq<int>, subEnd: seq<nat>, up: seq<int>, starts: seq<int>,
                       e: int, r: int, ps': seq<Proxy>, nodes1: seq<Node>, nodes2: seq<Node>, nodes': seq<Node>)
  {
    && MarkersOk(ps, l, nodes, order, subEnd, up, starts)
    && 0 <= e < |order| && 0 < r < |l| - 1
    && ps[l[r]].node == order[e]
    && starts[e] < r <= starts[e + 1]
    && (if r == starts[e] + 1 then LeftAdjusted(nodes, nodes1, order, subEnd, e, l[r], l[r + 1]) else nodes1 == nodes)
    && (if r == starts[e + 1] then RightAdjusted(nodes1, nodes2, order, e, l[r], l[r - 1]) else nodes2 == nodes1)
    && UnlinksFrom(ps, ps', l[r])
    && |nodes2| == |nodes| && 1 <= nodes[order[e]].count
    && nodes' == nodes2[order[e] := nodes2[order[e]].(count := nodes[order[e]].count - 1)]
  }

  /** How `remove_proxy` changes one live node: only the markers equal to the removed entry, and the count of its own node. */
  lemma RemovedNode(ps: seq<Proxy>, l: seq<int>, nodes: seq<Node>, order: seq<int>, subEnd: seq<nat>, up: seq<int>, starts: seq<int>,
                       e: int, r: int, ps': seq<Proxy>, nodes1: seq<Node>, nodes2: seq<Node>, nodes': seq<Node>, m: nat)
    requires ProxyRemoval(ps, l, nodes, order, subEnd, up, starts, e, r, ps', nodes1, nodes2, nodes')
    requires m < |order|
    ensures 0 <= order[m] < |nodes'|
    ensures var n, n' := nodes[order[m]], nodes'[order[m]];
      && n'.parent == n.parent && n'.depth == n.depth
      && n'.count == (if m == e then n.count - 1 else n.count)
      && n'.opFirst == (if r == starts[e + 1] && m > e && n.opFirst == l[r] then l[r - 1] else n.opFirst)
      && n'.opMarker == (if r == starts[e] + 1 && m < e && n.opMarker == l[r] then l[r + 1] else n.opMarker)
      && n'.opLast == (if r == starts[e] + 1 && m < e && !(e < subEnd[m]) && n.opLast == l[r] then l[r + 1] else n.opLast)
  {
    DistinctAt(order, m, e);
    if r == starts[e] + 1 {
      assert LeftAt(nodes, nodes1, order, subEnd, e, 0, m, l[r], l[r + 1]);
    }
    if r == starts[e + 1] {
      assert RightAt(nodes1, nodes2, order, e, |order|, m, l[r], l[r - 1]);
    }
  }

  /** Lowering the later run boundaries keeps them inside the shorter list. */
  lemma RemovedStartsBounds(ps: seq<Proxy>, l: seq<int>, nodes: seq<Node>, order: seq<int>, subEnd: seq<nat>, up: seq<int>, starts: seq<int>,
                       e: int, r: int, ps': seq<Proxy>, nodes1: seq<Node>, nodes2: seq<Node>, nodes': seq<Node>)
    requires ProxyRemoval(ps, l, nodes, order, subEnd, up, starts, e, r, ps', nodes1, nodes2, nodes')
    ensures forall k :: 0 <= k <= |order| ==> 0 <= StartsAfterRemove(starts, e)[k] <= |l| - 3
  {
    forall k | 0 <= k <= |order| ensures 0 <= StartsAfterRemove(starts, e)[k] <= |l| - 3 {
      if k > e {
        StartsMonotone(l, nodes, order, starts, e + 1, k);
      } else {
        StartsMonotone(l, nodes, order, starts, k, e);
      }
    }
  }

  lemma RemoveFirstAt(ps: seq<Proxy>, l: seq<int>, nodes: seq<Node>, order: seq<int>, subEnd: seq<nat>, up: seq<int>, starts: seq<int>,
                       e: int, r: int, ps': seq<Proxy>, nodes1: seq<Node>, nodes2: seq<Node>, nodes': seq<Node>, m: nat)
    requires ProxyRemoval(ps, l, nodes, order, subEnd, up, starts, e, r, ps', nodes1, nodes2, nodes')
    requires m < |order|
    requires forall k :: 0 <= k <= |order| ==> 0 <= StartsAfterRemove(starts, e)[k] <= |l| - 3
    ensures nodes'[order[m]].opFirst == RemoveAt(l, r)[StartsAfterRemove(starts, e)[m]]
  {
    var l', s' := RemoveAt(l, r), StartsAfterRemove(starts, e);
    RemovedNode(ps, l, nodes, order, subEnd, up, starts, e, r, ps', nodes1, nodes2, nodes', m);
    assert MarkAt(l, nodes, order, subEnd, starts, m);
    if m <= e {
      StartsMonotone(l, nodes, order, starts, m, e);
    } else {
      StartsMonotone(l, nodes, order, starts, e + 1, m);
      DistinctAt(l, starts[m], r);
    }
  }

  lemma RemoveMarkerAt(ps: seq<Proxy>, l: seq<int>, nodes: seq<Node>, order: seq<int>, subEnd: seq<nat>, up: seq<int>, starts: seq<int>,
                       e: int, r: int, ps': seq<Proxy>, nodes1: seq<Node>, nodes2: seq<Node>, nodes': seq<Node>, m: nat)
    requires ProxyRemoval(ps, l, nodes, order, subEnd, up, starts, e, r, ps', nodes1, nodes2, nodes')
    requires m < |order|
    requires forall k :: 0 <= k <= |order| ==> 0 <= StartsAfterRemove(starts, e)[k] <= |l| - 3
    ensures nodes'[order[m]].opMarker == RemoveAt(l, r)[StartsAfterRemove(starts, e)[m + 1] + 1]
  {
    var l', s' := RemoveAt(l, r), StartsAfterRemove(starts, e);
    RemovedNode(ps, l, nodes, order, subEnd, up, starts, e, r, ps', nodes1, nodes2, nodes', m);
    assert MarkAt(l, nodes, order, subEnd, starts, m);
    if m < e {
      StartsMonotone(l, nodes, order, starts, m + 1, e);
      DistinctAt(l, starts[m + 1] + 1, r);
    } else {
      StartsMonotone(l, nodes, order, starts, e + 1, m + 1);
    }
  }

  lemma RemoveLastAt(ps: seq<Proxy>, l: seq<int>, nodes: seq<Node>, order: seq<int>, subEnd: seq<nat>, up: seq<int>, starts: seq<int>,
                       e: int, r: int, ps': seq<Proxy>, nodes1: seq<Node>, nodes2: seq<Node>, nodes': seq<Node>, m: nat)
    requires ProxyRemoval(ps, l, nodes, order, subEnd, up, starts, e, r, ps', nodes1, nodes2, nodes')
    requires m < |order|
    requires forall k :: 0 <= k <= |order| ==> 0 <= StartsAfterRemove(starts, e)[k] <= |l| - 3
    ensures nodes'[order[m]].opLast == RemoveAt(l, r)[StartsAfterRemove(starts, e)[subEnd[m]] + 1]
  {
    var l', s' := RemoveAt(l, r), StartsAfterRemove(starts, e);
    RemovedNode(ps, l, nodes, order, subEnd, up, starts, e, r, ps', nodes1, nodes2, nodes', m);
    assert MarkAt(l, nodes, order, subEnd, starts, m);
    if subEnd[m] <= e {
      StartsMonotone(l, nodes, order, starts, subEnd[m], e);
      DistinctAt(l, starts[subEnd[m]] + 1, r);
    } else {
      StartsMonotone(l, nodes, order, starts, e + 1, subEnd[m]);
    }
  }

  lemma RemoveOwnedAt(ps: seq<Proxy>, l: seq<int>, nodes: seq<Node>, order: seq<int>, subEnd: seq<nat>, up: seq<int>, starts: seq<int>,
                       e: int, r: int, ps': seq<Proxy>, nodes1: seq<Node>, nodes2: seq<Node>, nodes': seq<Node>, i: nat)
    requires ProxyRemoval(ps, l, nodes, order, subEnd, up, starts, e, r, ps', nodes1, nodes2, nodes')
    requires 0 < i < |l| - 2
    ensures OwnedAt(ps', RemoveAt(l, r), order, StartsAfterRemove(starts, e), i)
  {
    var l', s' := RemoveAt(l, r), StartsAfterRemove(starts, e);
    var i0 := if i < r then i else i + 1;
    assert l'[i] == l[i0];
    assert OwnedAt(ps, l, order, starts, i0);
    DistinctAt(l, i0, r);
    UnlinkKeepsLabel(ps, ps', l[r], l[i0]);
    var k := Pos(order, ps[l[i0]].node);
    if k < e {
      StartsMonotone(l, nodes, order, starts, k + 1, e);
    } else if k > e {
      StartsMonotone(l, nodes, order, starts, e + 1, k);
    }
  }

  /** `remove_proxy` keeps the whole marker invariant, with the entry gone from the list and the count one lower. */
  lemma RemoveKeepsMarkers(ps: seq<Proxy>, l: seq<int>, nodes: seq<Node>, order: seq<int>, subEnd: seq<nat>, up: seq<int>, starts: seq<int>,
                       e: int, r: int, ps': seq<Proxy>, nodes1: seq<Node>, nodes2: seq<Node>, nodes': seq<Node>)
    requires ProxyRemoval(ps, l, nodes, order, subEnd, up, starts, e, r, ps', nodes1, nodes2, nodes')
    ensures MarkersOk(ps', RemoveAt(l, r), nodes', order, subEnd, up, StartsAfterRemove(starts, e))
  {
    var l', s' := RemoveAt(l, r), StartsAfterRemove(starts, e);
    UnlinkRemoves(ps, ps', l, r);
    forall m | 0 <= m < |order|
      ensures 0 <= order[m] < |nodes'| && nodes'[order[m]].parent == nodes[order[m]].parent && nodes'[order[m]].depth == nodes[order[m]].depth
      ensures nodes'[order[m]].count == if m == e then nodes[order[m]].count - 1 else nodes[order[m]].count
      ensures StepAt(nodes', order, s', m)
    {
      RemovedNode(ps, l, nodes, order, subEnd, up, starts, e, r, ps', nodes1, nodes2, nodes', m);
      assert StepAt(nodes, order, starts, m);
    }
    SameLinksKeepShape(nodes, nodes', order, subEnd, up);
    RemovedStartsBounds(ps, l, nodes, order, subEnd, up, starts, e, r, ps', nodes1, nodes2, nodes');
    forall m | 0 <= m < |order| ensures MarkAt(l', nodes', order, subEnd, s', m) {
      assert MarkAt(l, nodes, order, subEnd, starts, m);
      RemoveFirstAt(ps, l, nodes, order, subEnd, up, starts, e, r, ps', nodes1, nodes2, nodes', m);
      RemoveMarkerAt(ps, l, nodes, order, subEnd, up, starts, e, r, ps', nodes1, nodes2, nodes', m);
      RemoveLastAt(ps, l, nodes, order, subEnd, up, starts, e, r, ps', nodes1, nodes2, nodes', m);
    }
    forall i | 0 < i < |l'| - 1 ensures OwnedAt(ps', l', order, s', i) {
      RemoveOwnedAt(ps, l, nodes, order, subEnd, up, starts, e, r, ps', nodes1, nodes2, nodes', i);
    }
  }

  /**
   * `remove_proxy` as the program performs it: the markers move as the
   * position of the entry in its run says, the entry is unlinked and the
   * count lowered. The result keeps the marker invariant.
   */
  lemma RemoveSteps(ps: seq<Proxy>, l: seq<int>, nodes: seq<Node>, order: seq<int>, subEnd: seq<nat>, up: seq<int>, starts: seq<int>,
                    e: int, node: int, c: int, r: int, ps': seq<Proxy>, nodes1: seq<Node>, nodes2: seq<Node>, nodes': seq<Node>)
    requires MarkersOk(ps, l, nodes, order, subEnd, up, starts)
    requires 0 <= e < |order| && order[e] == node && 0 <= node < |nodes|
    requires 0 < r < |l| - 1 && 0 <= l[r] < |ps| && ps[l[r]].node == node && starts[e] < r <= starts[e + 1]
    requires if r == starts[e] + 1 then LeftAdjusted(nodes, nodes1, order, subEnd, e, l[r], l[r + 1]) else nodes1 == nodes
    requires if r == starts[e + 1] then RightAdjusted(nodes1, nodes2, order, e, l[r], l[r - 1]) else nodes2 == nodes1
    requires UnlinksFrom(ps, ps', l[r]) && |nodes2| == |nodes|
    requires c == nodes[node].count && 1 <= c && nodes' == nodes2[node := nodes2[node].(count := c - 1)]
    ensures MarkersOk(ps', RemoveAt(l, r), nodes', order, subEnd, up, StartsAfterRemove(starts, e))
    ensures Relinked(ps, ps') && SameIdents(nodes, nodes') && OtherCounts(nodes, nodes', node)
  {
    UnlinkRelinks(ps, ps', l[r]);
    if r == starts[e] + 1 {
      AdjustKeepsIdents(nodes, nodes1, order, subEnd, e, l[r], l[r + 1], true);
    }
    if r == starts[e + 1] {
      AdjustKeepsIdents(nodes1, nodes2, order, subEnd, e, l[r], l[r - 1], false);
    }
    RemoveKeepsMarkers(ps, l, nodes, order, subEnd, up, starts, e, r, ps', nodes1, nodes2, nodes');
  }

  /**
   * `insert(child)` on the node at pre-order position `kp`: the child takes
   * the next arena slot, hangs one level below, and starts with no objects
   * and all three markers at the end of its parent's subtree run.
   */
  ghost predicate NodeAppend(ps: seq<Proxy>, l: seq<int>, nodes: seq<Node>, order: seq<int>, subEnd: seq<nat>, up: seq<int>, starts: seq<int>,
                        kp: int, nodes': seq<Node>)
  {
    && MarkersOk(ps, l, nodes, order, subEnd, up, starts)
    && 0 <= kp < |order|
    && |nodes'| == |nodes| + 1 && nodes'[..|nodes|] == nodes
    && var par, c := nodes[order[kp]], nodes'[|nodes|];
    && c.parent == order[kp] && c.depth == par.depth + 1 && c.count == 0
    && c.opFirst == l[starts[subEnd[kp]]] && c.opMarker == l[starts[subEnd[kp]] + 1] && c.opLast == c.opMarker
  }

  lemma AppendPos(ps: seq<Proxy>, l: seq<int>, nodes: seq<Node>, order: seq<int>, subEnd: seq<nat>, up: seq<int>, starts: seq<int>,
                        kp: int, nodes': seq<Node>, k: nat)
    requires NodeAppend(ps, l, nodes, order, subEnd, up, starts, kp, nodes')
    requires k < |order|
    ensures Distinct(InsertAt(order, subEnd[kp], |nodes|))
    ensures order[k] in InsertAt(order, subEnd[kp], |nodes|)
    ensures Pos(InsertAt(order, subEnd[kp], |nodes|), order[k]) == if k < subEnd[kp] then k else k + 1
  {
    InsertKeepsDistinct(order, subEnd[kp], |nodes|);
    assert InsertAt(order, subEnd[kp], |nodes|)[if k < subEnd[kp] then k else k + 1] == order[k];
    PosOf(InsertAt(order, subEnd[kp], |nodes|), if k < subEnd[kp] then k else k + 1);
  }

  lemma AppendMarkNew(ps: seq<Proxy>, l: seq<int>, nodes: seq<Node>, order: seq<int>, subEnd: seq<nat>, up: seq<int>, starts: seq<int>,
                        kp: int, nodes': seq<Node>)
    requires NodeAppend(ps, l, nodes, order, subEnd, up, starts, kp, nodes')
    ensures MarkAt(l, nodes', InsertAt(order, subEnd[kp], |nodes|), SubEndAfterInsert(subEnd, kp, subEnd[kp]), InsertAt(starts, subEnd[kp], starts[subEnd[kp]]), subEnd[kp])
  {
  }

  lemma AppendMarkBefore(ps: seq<Proxy>, l: seq<int>, nodes: seq<Node>, order: seq<int>, subEnd: seq<nat>, up: seq<int>, starts: seq<int>,
                        kp: int, nodes': seq<Node>, j: nat)
    requires NodeAppend(ps, l, nodes, order, subEnd, up, starts, kp, nodes')
    requires j < subEnd[kp]
    ensures MarkAt(l, nodes', InsertAt(order, subEnd[kp], |nodes|), SubEndAfterInsert(subEnd, kp, subEnd[kp]), InsertAt(starts, subEnd[kp], starts[subEnd[kp]]), j)
  {
    assert MarkAt(l, nodes, order, subEnd, starts, j);
    if kp < j {
      Nesting(nodes, order, subEnd, up, kp, j);
    }
  }

  lemma AppendMarkAfter(ps: seq<Proxy>, l: seq<int>, nodes: seq<Node>, order: seq<int>, subEnd: seq<nat>, up: seq<int>, starts: seq<int>,
                        kp: int, nodes': seq<Node>, j: nat)
    requires NodeAppend(ps, l, nodes, order, subEnd, up, starts, kp, nodes')
    requires subEnd[kp] < j <= |order|
    ensures MarkAt(l, nodes', InsertAt(order, subEnd[kp], |nodes|), SubEndAfterInsert(subEnd, kp, subEnd[kp]), InsertAt(starts, subEnd[kp], starts[subEnd[kp]]), j)
  {
    assert MarkAt(l, nodes, order, subEnd, starts, j - 1);
  }

  lemma AppendMarkAt(ps: seq<Proxy>, l: seq<int>, nodes: seq<Node>, order: seq<int>, subEnd: seq<nat>, up: seq<int>, starts: seq<int>,
                        kp: int, nodes': seq<Node>, j: nat)
    requires NodeAppend(ps, l, nodes, order, subEnd, up, starts, kp, nodes')
    requires j <= |order|
    ensures MarkAt(l, nodes', InsertAt(order, subEnd[kp], |nodes|), SubEndAfterInsert(subEnd, kp, subEnd[kp]), InsertAt(starts, subEnd[kp], starts[subEnd[kp]]), j)
  {
    if j < subEnd[kp] {
      AppendMarkBefore(ps, l, nodes, order, subEnd, up, starts, kp, nodes', j);
    } else if j == subEnd[kp] {
      AppendMarkNew(ps, l, nodes, order, subEnd, up, starts, kp, nodes');
    } else {
      AppendMarkAfter(ps, l, nodes, order, subEnd, up, starts, kp, nodes', j);
    }
  }

  lemma AppendOwnedAt(ps: seq<Proxy>, l: seq<int>, nodes: seq<Node>, order: seq<int>, subEnd: seq<nat>, up: seq<int>, starts: seq<int>,
                        kp: int, nodes': seq<Node>, i: nat)
    requires NodeAppend(ps, l, nodes, order, subEnd, up, starts, kp, nodes')
    requires 0 < i < |l| - 1
    ensures OwnedAt(ps, l, InsertAt(order, subEnd[kp], |nodes|), InsertAt(starts, subEnd[kp], starts[subEnd[kp]]), i)
  {
    assert OwnedAt(ps, l, order, starts, i);
    var k := Pos(order, ps[l[i]].node);
    InsertKeepsEntries(order, subEnd[kp], |nodes|);
    AppendPos(ps, l, nodes, order, subEnd, up, starts, kp, nodes', k);
  }

  lemma AppendTreeShape(ps: seq<Proxy>, l: seq<int>, nodes: seq<Node>, order: seq<int>, subEnd: seq<nat>, up: seq<int>, starts: seq<int>,
                        kp: int, nodes': seq<Node>)
    requires NodeAppend(ps, l, nodes, order, subEnd, up, starts, kp, nodes')
    ensures TreeShape(nodes', InsertAt(order, subEnd[kp], |nodes|), SubEndAfterInsert(subEnd, kp, subEnd[kp]), UpAfterInsert(up, kp, subEnd[kp]))
  {
    assert AppendsChild(nodes, order, subEnd, up, nodes', kp, |nodes|) by {
      assert forall k :: 0 <= k < |order| ==> nodes'[order[k]] == nodes[order[k]];
    }
    InsertKeepsShape(nodes, order, subEnd, up, nodes', kp, |nodes|);
  }

  /** Appending a child node keeps the whole marker invariant. */
  lemma AppendKeepsMarkers(ps: seq<Proxy>, l: seq<int>, nodes: seq<Node>, order: seq<int>, subEnd: seq<nat>, up: seq<int>, starts: seq<int>,
                        kp: int, nodes': seq<Node>)
    requires NodeAppend(ps, l, nodes, order, subEnd, up, starts, kp, nodes')
    ensures MarkersOk(ps, l, nodes', InsertAt(order, subEnd[kp], |nodes|), SubEndAfterInsert(subEnd, kp, subEnd[kp]), UpAfterInsert(up, kp, subEnd[kp]), InsertAt(starts, subEnd[kp], starts[subEnd[kp]]))
  {
    var e := subEnd[kp];
    AppendTreeShape(ps, l, nodes, order, subEnd, up, starts, kp, nodes');
    var o', s' := InsertAt(order, e, |nodes|), InsertAt(starts, e, starts[e]);
    forall j | 0 <= j < |o'| ensures StepAt(nodes', o', s', j) {
      if j < e {
        assert StepAt(nodes, order, starts, j);
      } else if j > e {
        assert StepAt(nodes, order, starts, j - 1);
      }
    }
    forall j | 0 <= j <= |order| ensures MarkAt(l, nodes', InsertAt(order, subEnd[kp], |nodes|), SubEndAfterInsert(subEnd, kp, subEnd[kp]), InsertAt(starts, subEnd[kp], starts[subEnd[kp]]), j) {
      AppendMarkAt(ps, l, nodes, order, subEnd, up, starts, kp, nodes', j);
    }
    forall i | 0 < i < |l| - 1 ensures OwnedAt(ps, l, InsertAt(order, subEnd[kp], |nodes|), InsertAt(starts, subEnd[kp], starts[subEnd[kp]]), i) {
      AppendOwnedAt(ps, l, nodes, order, subEnd, up, starts, kp, nodes', i);
    }
  }

  /** The `op_last` of the node at position `kp` is a proxy whose `prev` ends the subtree's last run. */
  lemma ChildSlot(ps: seq<Proxy>, l: seq<int>, nodes: seq<Node>, order: seq<int>, subEnd: seq<nat>, up: seq<int>, starts: seq<int>, kp: nat)
    requires MarkersOk(ps, l, nodes, order, subEnd, up, starts) && kp < |order|
    ensures 0 <= order[kp] < |nodes| && subEnd[kp] <= |order| && 0 <= starts[subEnd[kp]] && starts[subEnd[kp]] + 1 < |l|
    ensures nodes[order[kp]].opLast == l[starts[subEnd[kp]] + 1]
    ensures 0 <= nodes[order[kp]].opLast < |ps| && ps[nodes[order[kp]].opLast].prev == l[starts[subEnd[kp]]]
  {
    assert MarkAt(l, nodes, order, subEnd, starts, kp);
    assert PrevAt(ps, l, starts[subEnd[kp]] + 1);
  }

  /**
   * A node `c` made below the node at position `kp`, with that node's
   * `op_last` as its marker and last, appended to the nodes and entered at
   * the end of the parent's subtree: the markers stay consistent, and `c`
   * is the parent's last child.
   */
  lemma ChildAppended(ps: seq<Proxy>, l: seq<int>, nodes: seq<Node>, order: seq<int>, subEnd: seq<nat>, up: seq<int>, starts: seq<int>,
                      kp: nat, c: Node)
    requires MarkersOk(ps, l, nodes, order, subEnd, up, starts) && kp < |order|
    requires c.parent == order[kp] && 0 <= order[kp] < |nodes| && c.depth == nodes[order[kp]].depth + 1 && c.count == 0
    requires var last := nodes[order[kp]].opLast; 0 <= last < |ps| && c.opFirst == ps[last].prev && c.opMarker == last && c.opLast == last
    ensures MarkersOk(ps, l, nodes + [c], InsertAt(order, subEnd[kp], |nodes|), SubEndAfterInsert(subEnd, kp, subEnd[kp]),
                      UpAfterInsert(up, kp, subEnd[kp]), InsertAt(starts, subEnd[kp], starts[subEnd[kp]]))
    ensures forall j :: 0 <= j < |order| + 1 ==> 0 <= InsertAt(order, subEnd[kp], |nodes|)[j] < |nodes + [c]|
    ensures Children(nodes + [c], InsertAt(order, subEnd[kp], |nodes|), order[kp]) == Children(nodes, order, order[kp]) + [|nodes|]
  {
    ChildSlot(ps, l, nodes, order, subEnd, up, starts, kp);
    ChildrenAfterAppend(nodes, order, subEnd, up, kp, c);
    assert (nodes + [c])[..|nodes|] == nodes;
    AppendKeepsMarkers(ps, l, nodes, order, subEnd, up, starts, kp, nodes + [c]);
  }

  /** `unlink()` of the node at pre-order position `k`, a leaf other than the root that holds no objects. */
  ghost predicate LeafUnlink(ps: seq<Proxy>, l: seq<int>, nodes: seq<Node>, order: seq<int>, subEnd: seq<nat>, up: seq<int>, starts: seq<int>, k: int)
  {
    && MarkersOk(ps, l, nodes, order, subEnd, up, starts)
    && 0 < k < |order| && subEnd[k] == k + 1 && nodes[order[k]].count == 0
  }

  lemma UnlinkPos(ps: seq<Proxy>, l: seq<int>, nodes: seq<Node>, order: seq<int>, subEnd: seq<nat>, up: seq<int>, starts: seq<int>, k: int, j: nat)
    requires LeafUnlink(ps, l, nodes, order, subEnd, up, starts, k)
    requires j < |order| && j != k
    ensures Distinct(RemoveAt(order, k))
    ensures RemoveAt(order, k)[if j < k then j else j - 1] == order[j]
    ensures order[j] in RemoveAt(order, k)
    ensures Pos(RemoveAt(order, k), order[j]) == if j < k then j else j - 1
  {
    RemoveKeepsDistinct(order, k);
    PosOf(RemoveAt(order, k), if j < k then j else j - 1);
  }

  lemma UnlinkMarkAtBefore(ps: seq<Proxy>, l: seq<int>, nodes: seq<Node>, order: seq<int>, subEnd: seq<nat>, up: seq<int>, starts: seq<int>, k: int, j: nat)
    requires LeafUnlink(ps, l, nodes, order, subEnd, up, starts, k)
    requires j < |order| - 1
    requires j < k
    ensures MarkAt(l, nodes, RemoveAt(order, k), SubEndAfterRemove(subEnd, k), RemoveAt(starts, k), j)
  {
    assert MarkAt(l, nodes, order, subEnd, starts, j) && StepAt(nodes, order, starts, k);
  }

  lemma UnlinkMarkAtAfter(ps: seq<Proxy>, l: seq<int>, nodes: seq<Node>, order: seq<int>, subEnd: seq<nat>, up: seq<int>, starts: seq<int>, k: int, j: nat)
    requires LeafUnlink(ps, l, nodes, order, subEnd, up, starts, k)
    requires j < |order| - 1
    requires k <= j
    ensures MarkAt(l, nodes, RemoveAt(order, k), SubEndAfterRemove(subEnd, k), RemoveAt(starts, k), j)
  {
    assert MarkAt(l, nodes, order, subEnd, starts, j + 1);
    var o', e', s' := RemoveAt(order, k), SubEndAfterRemove(subEnd, k), RemoveAt(starts, k);
    assert o'[j] == order[j + 1];
    assert s'[j] == starts[j + 1];
    assert s'[j + 1] == starts[j + 2];
    assert e'[j] == subEnd[j + 1] - 1;
    assert s'[e'[j]] == starts[subEnd[j + 1]];
  }

  lemma UnlinkMarkAt(ps: seq<Proxy>, l: seq<int>, nodes: seq<Node>, order: seq<int>, subEnd: seq<nat>, up: seq<int>, starts: seq<int>, k: int, j: nat)
    requires LeafUnlink(ps, l, nodes, order, subEnd, up, starts, k)
    requires j < |order| - 1
    ensures MarkAt(l, nodes, RemoveAt(order, k), SubEndAfterRemove(subEnd, k), RemoveAt(starts, k), j)
  {
    if j < k {
      UnlinkMarkAtBefore(ps, l, nodes, order, subEnd, up, starts, k, j);
    } else {
      UnlinkMarkAtAfter(ps, l, nodes, order, subEnd, up, starts, k, j);
    }
  }

  lemma UnlinkOwnedAt(ps: seq<Proxy>, l: seq<int>, nodes: seq<Node>, order: seq<int>, subEnd: seq<nat>, up: seq<int>, starts: seq<int>, k: int, i: nat)
    requires LeafUnlink(ps, l, nodes, order, subEnd, up, starts, k)
    requires 0 < i < |l| - 1
    ensures OwnedAt(ps, l, RemoveAt(order, k), RemoveAt(starts, k), i)
  {
    assert OwnedAt(ps, l, order, starts, i) && StepAt(nodes, order, starts, k);
    var j := Pos(order, ps[l[i]].node);
    UnlinkPos(ps, l, nodes, order, subEnd, up, starts, k, j);
  }

  /** Unlinking an empty leaf keeps the whole marker invariant; no marker moves. */
  lemma UnlinkKeepsMarkers(ps: seq<Proxy>, l: seq<int>, nodes: seq<Node>, order: seq<int>, subEnd: seq<nat>, up: seq<int>, starts: seq<int>, k: int)
    requires LeafUnlink(ps, l, nodes, order, subEnd, up, starts, k)
    ensures MarkersOk(ps, l, nodes, RemoveAt(order, k), SubEndAfterRemove(subEnd, k), UpAfterRemove(up, k), RemoveAt(starts, k))
  {
    RemoveKeepsShape(nodes, order, subEnd, up, nodes, k);
    var s' := RemoveAt(starts, k);
    forall j | 0 <= j < |order| - 1 ensures StepAt(nodes, RemoveAt(order, k), s', j) {
      if j < k {
        assert StepAt(nodes, order, starts, j) && StepAt(nodes, order, starts, k);
      } else {
        assert StepAt(nodes, order, starts, j + 1);
      }
    }
    forall j | 0 <= j < |order| - 1 ensures MarkAt(l, nodes, RemoveAt(order, k), SubEndAfterRemove(subEnd, k), RemoveAt(starts, k), j) {
      UnlinkMarkAt(ps, l, nodes, order, subEnd, up, starts, k, j);
    }
    forall i | 0 < i < |l| - 1 ensures OwnedAt(ps, l, RemoveAt(order, k), RemoveAt(starts, k), i) {
      UnlinkOwnedAt(ps, l, nodes, order, subEnd, up, starts, k, i);
    }
  }
}
