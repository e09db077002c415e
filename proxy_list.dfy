/**
 * The global doubly linked list of object proxies, on an arena: proxies are
 * addressed by their index and `prev`/`next` hold indices, `Null` for the
 * null pointer. Slot `Head` is the store's `first_` sentinel and slot `Tail`
 * its `last_` sentinel; neither is ever unlinked.
 */
module ProxyList {
  import opened Types
  import opened Seqs

  /** One `object_proxy`: identity, held object, list links, owning node. */
  datatype Proxy = Proxy(id: int, obj: Option<Obj>, prev: int, next: int, node: int)

  const Head: int := 0
  const Tail: int := 1

  /** A freshly allocated proxy: no object, no links, no node. */
  function Detached(id: int): (p: Proxy)
    ensures p.id == id && p.obj == None
    ensures p.prev == Null && p.next == Null && p.node == Null
  {
    Proxy(id, None, Null, Null, Null)
  }

  /** `object_proxy::linked`: the proxy has at least one list link. */
  predicate Linked(p: Proxy) {
    p.prev != Null || p.next != Null
  }

  /**
   * `l` is the order of the linked proxies of the arena `ps`, from the head
   * sentinel to the tail sentinel: the links of consecutive entries point
   * at each other, the sentinels' outer links are null, and every proxy not
   * in the list has both links null.
   */
  ghost predicate ListShape(ps: seq<Proxy>, l: seq<int>) {
    Framed(ps, l) && Distinct(l) && NextLinks(ps, l) && PrevLinks(ps, l) && Unlisted(ps, l)
  }

  /** The list runs from the head sentinel to the tail sentinel inside the arena. */
  ghost predicate Framed(ps: seq<Proxy>, l: seq<int>) {
    && 2 <= |ps|
    && 2 <= |l| && l[0] == Head && l[|l| - 1] == Tail
    && (forall i :: 0 <= i < |l| ==> 0 <= l[i] < |ps|)
    && ps[Head].prev == Null && ps[Tail].next == Null
  }

  /** Each entry's next link is the following entry. */
  ghost predicate NextLinks(ps: seq<Proxy>, l: seq<int>)
    requires forall i :: 0 <= i < |l| ==> 0 <= l[i] < |ps|
  {
    forall i {:trigger NextAt(ps, l, i)} :: 0 <= i < |l| - 1 ==> NextAt(ps, l, i)
  }

  /** The entry at position `i` links forward to the entry after it. */
  ghost predicate NextAt(ps: seq<Proxy>, l: seq<int>, i: int) {
    0 <= i < |l| - 1 && 0 <= l[i] < |ps| && ps[l[i]].next == l[i + 1]
  }

  /** Each entry's prev link is the preceding entry. */
  ghost predicate PrevLinks(ps: seq<Proxy>, l: seq<int>)
    requires forall i :: 0 <= i < |l| ==> 0 <= l[i] < |ps|
  {
    forall i {:trigger PrevAt(ps, l, i)} :: 0 < i < |l| ==> PrevAt(ps, l, i)
  }

  /** The entry at position `i` links back to the entry before it. */
  ghost predicate PrevAt(ps: seq<Proxy>, l: seq<int>, i: int) {
    0 < i < |l| && 0 <= l[i] < |ps| && ps[l[i]].prev == l[i - 1]
  }

  /** A proxy outside the list has no links. */
  ghost predicate Unlisted(ps: seq<Proxy>, l: seq<int>) {
    forall q :: 0 <= q < |ps| && q !in l ==> ps[q].prev == Null && ps[q].next == Null
  }

  /** A proxy is linked exactly when it is in the list. */
  lemma LinkedIffListed(ps: seq<Proxy>, l: seq<int>, q: int)
    requires ListShape(ps, l) && 0 <= q < |ps|
    ensures Linked(ps[q]) <==> q in l
  {
    if q in l {
      var i := Pos(l, q);
      if i < |l| - 1 {
        assert NextAt(ps, l, i) && l[i + 1] >= 0;
      } else {
        assert PrevAt(ps, l, i) && l[i - 1] >= 0;
      }
    }
  }

  /**
   * What `object_store::link_proxy(base, p)` does to the arena: `p` takes
   * over `base`'s old predecessor and points at `base`, that predecessor
   * (when there is one) points forward at `p`, `base` points back at `p`,
   * and nothing else changes.
   */
  ghost predicate LinksBefore(ps: seq<Proxy>, ps': seq<Proxy>, base: int, p: int)
    requires 0 <= base < |ps| && 0 <= p < |ps|
  {
    var b := ps[base].prev;
    && |ps'| == |ps|
    && ps'[p] == ps[p].(prev := b, next := base)
    && ps'[base] == ps[base].(prev := p)
    && (0 <= b < |ps| ==> ps'[b] == ps[b].(next := p))
    && (forall q {:trigger Same(ps, ps', q)} :: 0 <= q < |ps| && q != p && q != base && q != b ==> Same(ps, ps', q))
  }

  /** Linking changes only links: every slot keeps its node label. */
  lemma LinkKeepsLabel(ps: seq<Proxy>, ps': seq<Proxy>, base: int, p: int, q: int)
    requires 0 <= base < |ps| && 0 <= p < |ps| && LinksBefore(ps, ps', base, p) && 0 <= q < |ps|
    ensures ps'[q].node == ps[q].node
  {
    if q != p && q != base && q != ps[base].prev {
      assert Same(ps, ps', q);
    }
  }

  /** Unlinking changes only links: every slot keeps its node label. */
  lemma UnlinkKeepsLabel(ps: seq<Proxy>, ps': seq<Proxy>, p: int, q: int)
    requires 0 <= p < |ps| && UnlinksFrom(ps, ps', p) && 0 <= q < |ps|
    ensures ps'[q].node == ps[q].node
  {
    if q != p && q != ps[p].prev && q != ps[p].next {
      assert Same(ps, ps', q);
    }
  }

  /** Overwriting the slot just appended is appending the new value. */
  lemma UpdateAppended(ps: seq<Proxy>, x: Proxy, y: Proxy)
    ensures (ps + [x])[|ps| := y] == ps + [y]
  {
    assert forall q :: 0 <= q < |ps| ==> (ps + [x])[|ps| := y][q] == ps[q];
  }

  /** A proxy with its links cleared: what stays when the list is respliced. */
  function Payload(x: Proxy): Proxy {
    x.(prev := Null, next := Null)
  }

  /** The arenas differ at most in list links: every slot keeps its id, object and node. */
  ghost predicate Relinked(ps: seq<Proxy>, ps': seq<Proxy>) {
    |ps'| == |ps| && forall q :: 0 <= q < |ps| ==> Payload(ps'[q]) == Payload(ps[q])
  }

  /** Every proxy of `ps` but `p` keeps its id, object and node in `ps'`, which may have grown. */
  ghost predicate KeptBut(ps: seq<Proxy>, ps': seq<Proxy>, p: int) {
    |ps| <= |ps'| && forall q :: 0 <= q < |ps| && q != p ==> Payload(ps'[q]) == Payload(ps[q])
  }

  /** `link_proxy` touches links only. */
  lemma LinkRelinks(ps: seq<Proxy>, ps': seq<Proxy>, base: int, p: int)
    requires 0 <= base < |ps| && 0 <= p < |ps| && LinksBefore(ps, ps', base, p)
    ensures Relinked(ps, ps')
  {
    forall q | 0 <= q < |ps| ensures Payload(ps'[q]) == Payload(ps[q]) {
      if q != p && q != base && q != ps[base].prev {
        assert Same(ps, ps', q);
      }
    }
  }

  /** `unlink_proxy` touches links only. */
  lemma UnlinkRelinks(ps: seq<Proxy>, ps': seq<Proxy>, p: int)
    requires 0 <= p < |ps| && UnlinksFrom(ps, ps', p)
    ensures Relinked(ps, ps')
  {
    forall q | 0 <= q < |ps| ensures Payload(ps'[q]) == Payload(ps[q]) {
      if q != p && q != ps[p].prev && q != ps[p].next {
        assert Same(ps, ps', q);
      }
    }
  }

  /** Slot `q` is the same in both arenas. */
  ghost predicate Same(ps: seq<Proxy>, ps': seq<Proxy>, q: int) {
    0 <= q < |ps| && q < |ps'| && ps'[q] == ps[q]
  }

  /**
   * What `object_store::unlink_proxy(p)` does to the arena: the two
   * neighbours are joined to each other, both links of `p` are cleared, and
   * nothing else changes.
   */
  ghost predicate UnlinksFrom(ps: seq<Proxy>, ps': seq<Proxy>, p: int)
    requires 0 <= p < |ps|
  {
    var a := ps[p].prev;
    var c := ps[p].next;
    && |ps'| == |ps|
    && ps'[p] == ps[p].(prev := Null, next := Null)
    && (0 <= a < |ps| ==> ps'[a] == ps[a].(next := c))
    && (0 <= c < |ps| ==> ps'[c] == ps[c].(prev := a))
    && (forall q {:trigger Same(ps, ps', q)} :: 0 <= q < |ps| && q != p && q != a && q != c ==> Same(ps, ps', q))
  }

  /** After linking, the next links follow the new list. */
  lemma LinkNexts(ps: seq<Proxy>, ps': seq<Proxy>, l: seq<int>, i: nat, p: int)
    requires ListShape(ps, l) && 0 < i < |l| && 0 <= p < |ps| && p !in l
    requires LinksBefore(ps, ps', l[i], p)
    ensures forall j :: 0 <= j < |l| ==> NextAt(ps', InsertAt(l, i, p), j)
  {
    var l' := InsertAt(l, i, p);
    assert PrevAt(ps, l, i);
    forall j | 0 <= j < |l| ensures NextAt(ps', l', j) {
      if j < i - 1 {
        DistinctAt(l, j, i); DistinctAt(l, j, i - 1);
        assert l[j] in l && NextAt(ps, l, j) && Same(ps, ps', l[j]);
      } else if j == i + 1 {
        assert NextAt(ps, l, i);
      } else if j > i {
        DistinctAt(l, j - 1, i); DistinctAt(l, j - 1, i - 1);
        assert l[j - 1] in l && NextAt(ps, l, j - 1) && Same(ps, ps', l[j - 1]);
      }
    }
  }

  /** After linking, the prev links follow the new list. */
  lemma LinkPrevs(ps: seq<Proxy>, ps': seq<Proxy>, l: seq<int>, i: nat, p: int)
    requires ListShape(ps, l) && 0 < i < |l| && 0 <= p < |ps| && p !in l
    requires LinksBefore(ps, ps', l[i], p)
    ensures forall j :: 0 < j <= |l| ==> PrevAt(ps', InsertAt(l, i, p), j)
  {
    var l' := InsertAt(l, i, p);
    assert PrevAt(ps, l, i);
    forall j | 0 < j <= |l| ensures PrevAt(ps', l', j) {
      if j == i - 1 {
        assert PrevAt(ps, l, j);
      } else if j < i {
        DistinctAt(l, j, i); DistinctAt(l, j, i - 1);
        assert l[j] in l && PrevAt(ps, l, j) && Same(ps, ps', l[j]);
      } else if j > i + 1 {
        DistinctAt(l, j - 1, i); DistinctAt(l, j - 1, i - 1);
        assert l[j - 1] in l && PrevAt(ps, l, j - 1) && Same(ps, ps', l[j - 1]);
      }
    }
  }

  /** After linking, proxies outside the new list still have no links. */
  lemma LinkUnlisted(ps: seq<Proxy>, ps': seq<Proxy>, l: seq<int>, i: nat, p: int)
    requires ListShape(ps, l) && 0 < i < |l| && 0 <= p < |ps| && p !in l
    requires LinksBefore(ps, ps', l[i], p)
    ensures Unlisted(ps', InsertAt(l, i, p))
  {
    var l' := InsertAt(l, i, p);
    InsertKeepsEntries(l, i, p);
    assert PrevAt(ps, l, i);
    forall q | 0 <= q < |ps'| && q !in l' ensures ps'[q].prev == Null && ps'[q].next == Null {
      assert l[i] in l && l[i - 1] in l && Same(ps, ps', q);
    }
  }

  /** After linking, the list still runs from sentinel to sentinel. */
  lemma LinkFramed(ps: seq<Proxy>, ps': seq<Proxy>, l: seq<int>, i: nat, p: int)
    requires ListShape(ps, l) && 0 < i < |l| && 0 <= p < |ps| && p !in l
    requires LinksBefore(ps, ps', l[i], p)
    ensures Framed(ps', InsertAt(l, i, p))
  {
    assert Head == l[0] && Tail == l[|l| - 1] && PrevAt(ps, l, i);
    if i - 1 != 0 {
      DistinctAt(l, 0, i - 1);
    }
    DistinctAt(l, 0, i);
    if i != |l| - 1 {
      DistinctAt(l, |l| - 1, i);
    }
    DistinctAt(l, |l| - 1, i - 1);
    assert Same(ps, ps', Head) || Head == l[i - 1];
    assert Same(ps, ps', Tail) || Tail == l[i];
  }

  /** Linking a detached proxy before the list entry at `i` inserts it at `i`. */
  lemma LinkInserts(ps: seq<Proxy>, ps': seq<Proxy>, l: seq<int>, i: nat, p: int)
    requires ListShape(ps, l) && 0 < i < |l| && 0 <= p < |ps| && p !in l
    requires LinksBefore(ps, ps', l[i], p)
    ensures ListShape(ps', InsertAt(l, i, p))
  {
    InsertKeepsDistinct(l, i, p);
    LinkFramed(ps, ps', l, i, p);
    LinkNexts(ps, ps', l, i, p);
    LinkPrevs(ps, ps', l, i, p);
    LinkUnlisted(ps, ps', l, i, p);
  }

  /** After unlinking, the next links follow the shortened list. */
  lemma UnlinkNexts(ps: seq<Proxy>, ps': seq<Proxy>, l: seq<int>, i: nat)
    requires ListShape(ps, l) && 0 < i < |l| - 1
    requires UnlinksFrom(ps, ps', l[i])
    ensures forall j :: 0 <= j < |l| - 2 ==> NextAt(ps', RemoveAt(l, i), j)
  {
    var l' := RemoveAt(l, i);
    assert PrevAt(ps, l, i) && NextAt(ps, l, i);
    forall j | 0 <= j < |l| - 2 ensures NextAt(ps', l', j) {
      var t := if j < i then j else j + 1;
      DistinctAt(l, t, i); DistinctAt(l, t, i - 1); DistinctAt(l, t, i + 1);
      assert NextAt(ps, l, t) && (t == i - 1 || t == i + 1 || Same(ps, ps', l[t]));
    }
  }

  /** After unlinking, the prev links follow the shortened list. */
  lemma UnlinkPrevs(ps: seq<Proxy>, ps': seq<Proxy>, l: seq<int>, i: nat)
    requires ListShape(ps, l) && 0 < i < |l| - 1
    requires UnlinksFrom(ps, ps', l[i])
    ensures forall j :: 0 < j < |l| - 1 ==> PrevAt(ps', RemoveAt(l, i), j)
  {
    var l' := RemoveAt(l, i);
    assert PrevAt(ps, l, i) && NextAt(ps, l, i);
    forall j | 0 < j < |l| - 1 ensures PrevAt(ps', l', j) {
      var t := if j < i then j else j + 1;
      DistinctAt(l, t, i); DistinctAt(l, t, i - 1); DistinctAt(l, t, i + 1);
      assert PrevAt(ps, l, t) && (t == i - 1 || t == i + 1 || Same(ps, ps', l[t]));
    }
  }

  /** Unlinking the list entry at `i` (never a sentinel) removes it from the list. */
  lemma UnlinkRemoves(ps: seq<Proxy>, ps': seq<Proxy>, l: seq<int>, i: nat)
    requires ListShape(ps, l) && 0 < i < |l| - 1
    requires UnlinksFrom(ps, ps', l[i])
    ensures ListShape(ps', RemoveAt(l, i))
  {
    var l' := RemoveAt(l, i);
    RemoveKeepsDistinct(l, i);
    RemoveKeepsEntries(l, i);
    UnlinkNexts(ps, ps', l, i);
    UnlinkPrevs(ps, ps', l, i);
    assert PrevAt(ps, l, i) && NextAt(ps, l, i);
    forall q | 0 <= q < |ps'| && q !in l' ensures ps'[q].prev == Null && ps'[q].next == Null {
      if q != l[i] {
        assert l[i - 1] in l && l[i + 1] in l && Same(ps, ps', q);
      }
    }
    DistinctAt(l, 0, i); DistinctAt(l, |l| - 1, i);
    if i - 1 != 0 { DistinctAt(l, 0, i - 1); }
    DistinctAt(l, 0, i + 1);
    if i + 1 != |l| - 1 { DistinctAt(l, |l| - 1, i + 1); }
    DistinctAt(l, |l| - 1, i - 1);
    assert Same(ps, ps', Head) || Head == l[i - 1];
    assert Same(ps, ps', Tail) || Tail == l[i + 1];
  }

  /** The proxy reached from `from` by following `steps` next links. */
  function Walk(ps: seq<Proxy>, from: int, steps: nat): int
    decreases steps
  {
    if steps == 0 || !(0 <= from < |ps|) then from else Walk(ps, ps[from].next, steps - 1)
  }

  /** Following next links walks the list order. */
  lemma {:induction false} WalkFollowsList(ps: seq<Proxy>, l: seq<int>, i: nat, steps: nat)
    requires ListShape(ps, l) && i + steps < |l|
    ensures Walk(ps, l[i], steps) == l[i + steps]
    decreases steps
  {
    if steps > 0 {
      assert NextAt(ps, l, i);
      WalkFollowsList(ps, l, i + 1, steps - 1);
    }
  }

  /** The list shape depends only on the links: giving a proxy another node keeps it. */
  lemma RelabelKeepsShape(ps: seq<Proxy>, l: seq<int>, p: int, n: int)
    requires ListShape(ps, l) && 0 <= p < |ps|
    ensures ListShape(ps[p := ps[p].(node := n)], l)
  {
    var ps' := ps[p := ps[p].(node := n)];
    assert forall i {:trigger NextAt(ps', l, i)} :: NextAt(ps, l, i) ==> NextAt(ps', l, i);
    assert forall i {:trigger PrevAt(ps', l, i)} :: PrevAt(ps, l, i) ==> PrevAt(ps', l, i);
    forall q | 0 <= q < |ps'| && q !in l ensures ps'[q].prev == Null && ps'[q].next == Null {
      assert ps'[q].prev == ps[q].prev && ps'[q].next == ps[q].next;
    }
  }
}
