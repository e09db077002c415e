/**
 * `object_store`: the prototype registry, the global proxy list with the
 * per-node markers, the identity map and the observer list, as one object
 * whose operations update its fields in place.
 */
module ObjectStore {
  import opened Types
  import opened Seqs
  import opened ProxyList
  import opened PrototypeTree
  import opened Markers
  import opened Catalog
  import opened Commit

  class ObjectStore {
    /** The proxy arena; slots `Head` and `Tail` are `first_` and `last_`. */
    var proxies: seq<Proxy>
    /** The node arena; slot `Root` is `root_`. */
    var nodes: seq<Node>
    /** The live nodes of the prototype tree in pre-order. */
    var order: seq<int>
    /** `prototype_node_map_`: type names and class names to nodes. */
    var prototypes: map<string, int>
    /** `object_map_`: object ids to proxies. */
    var objects: map<int, int>
    /** `observer_list_`, observers named by handle. */
    var observers: seq<nat>
    /** `id_`: the last id handed out. */
    var nextId: int

    /** The linked proxies from `first_` to `last_`. */
    ghost var list: seq<int>
    /** For each pre-order position, the position just after that node's subtree. */
    ghost var subEnd: seq<nat>
    /** For each pre-order position but the first, the position of the parent. */
    ghost var up: seq<int>
    /** For each pre-order position, the list position of that node's `op_first`; one more entry for the end. */
    ghost var starts: seq<int>
    /** The observer callbacks delivered so far. */
    ghost var events: seq<Event>

    /** The store invariant: list and markers, the registry, the identity map, no observer twice. */
    ghost predicate Valid()
      reads this`proxies, this`list, this`nodes, this`order, this`subEnd, this`up, this`starts, this`prototypes, this`objects, this`observers, this`nextId
    {
      Consistent(proxies, list, nodes, order, subEnd, up, starts, prototypes, objects, observers, nextId)
    }

    /**
     * `object_store()`: the root node "OBJECT", registered under that name
     * and under the class name of its producer, owns the empty list from
     * `first_` to `last_`.
     */
    constructor (rootClass: string)
      requires rootClass != "OBJECT"
      ensures Valid()
      ensures order == [Root] && nodes[Root].typeName == "OBJECT" && nodes[Root].className == rootClass
      ensures list == [Head, Tail] && nodes[Root].count == 0
      ensures nodes[Root].opFirst == Head && nodes[Root].opMarker == Tail && nodes[Root].opLast == Tail
      ensures proxies[Head].next == Tail && proxies[Tail].prev == Head
      ensures prototypes == map["OBJECT" := Root, rootClass := Root]
      ensures objects == map[] && observers == [] && nextId == 0 && events == []
    {
      proxies := [Detached(0).(next := Tail), Detached(0).(prev := Head)];
      nodes := [Node("OBJECT", rootClass, Null, 0, Head, Tail, Tail, 0)];
      order := [Root];
      prototypes := map["OBJECT" := Root, rootClass := Root];
      objects := map[];
      observers := [];
      nextId := 0;
      list := [Head, Tail];
      subEnd := [1];
      up := [Null];
      starts := [0, 0];
      events := [];
      new;
      assert NextAt(proxies, list, 0) && PrevAt(proxies, list, 1);
      assert StepAt(nodes, order, starts, 0) && KeysAt(prototypes, nodes, order, 0);
    }

    /** `find_prototype(type)`: the node registered under `key`, or null. */
    function FindPrototype(key: string): (n: int)
      reads this
      ensures Valid() ==> (n != Null <==> key in prototypes)
      ensures Valid() && n != Null ==> n in order && (nodes[n].typeName == key || nodes[n].className == key)
    {
      if key in prototypes then prototypes[key] else Null
    }

    /**
     * `create(type)`: a new object of the producer of the node registered
     * under `key`, or none. The object carries no id yet and is tagged with
     * the class name of that producer.
     */
    function Create(key: string): (o: Option<Obj>)
      reads this
      requires Valid()
      ensures o.Some? <==> key in prototypes
      ensures o.Some? ==> o.value.id == 0 && o.value.tag in prototypes && prototypes[o.value.tag] == prototypes[key]
    {
      if key in prototypes then
        NamesAgree(prototypes, nodes, order, key);
        Some(Obj(0, nodes[prototypes[key]].className))
      else None
    }

    /** `mark_modified(p)`: every observer, in order, is told that the object of `p` changed. */
    method MarkModified(p: int)
      requires Valid() && 0 <= p < |proxies|
      modifies this`events
      ensures events == old(events) + FanOut(observers, OnUpdate, proxies[p].obj)
    {
      Notify(OnUpdate, proxies[p].obj);
    }

    /** `std::for_each` over the observer list with the callback `kind` for `o`. */
    method Notify(kind: EventKind, o: Option<Obj>)
      requires Valid()
      modifies this`events
      ensures Valid() && events == old(events) + FanOut(observers, kind, o)
    {
      events := events + FanOut(observers, kind, o);
    }

    /** `register_observer(o)`: `o` is appended unless it is already registered. */
    method RegisterObserver(o: nat)
      requires Valid()
      modifies this`observers
      ensures Valid() && o in observers
      ensures old(o in observers) ==> observers == old(observers)
      ensures old(o !in observers) ==> observers == old(observers) + [o]
    {
      if o !in observers {
        AppendKeepsDistinct(observers, o);
        observers := observers + [o];
      }
    }

    /** `unregister_observer(o)`: `o` is taken out if it is registered; the others keep their order. */
    method UnregisterObserver(o: nat)
      requires Valid()
      modifies this`observers
      ensures Valid() && o !in observers
      ensures old(o !in observers) ==> observers == old(observers)
      ensures old(o in observers) ==> observers == RemoveAt(old(observers), Pos(old(observers), o))
    {
      var i := IndexIn(observers, o);
      if i >= 0 {
        ghost var obs := observers;
        DistinctOthers(observers, i);
        PosOf(observers, i);
        RemoveKeepsDistinct(observers, i);
        observers := observers[..i] + observers[i + 1..];
        assert observers == RemoveAt(obs, i);
      }
    }

    /** `find_proxy(id)`: the proxy registered under `id`, or null. */
    function FindProxy(id: int): (p: int)
      reads this
      ensures Valid() ==> (p != Null <==> id in objects)
      ensures Valid() && p != Null ==> Tail < p < |proxies| && proxies[p].id == id
    {
      if id in objects then objects[id] else Null
    }

    /**
     * `create_proxy(id)`: a new unlinked proxy for `id`, registered in the
     * identity map; null for id 0 and for an id already registered.
     */
    method CreateProxy(id: int) returns (p: int)
      requires Valid()
      modifies this`proxies, this`objects
      ensures Valid()
      ensures p == Null <==> id == 0 || id in old(objects)
      ensures p == Null ==> proxies == old(proxies) && objects == old(objects)
      ensures p != Null ==> p == |old(proxies)| && proxies == old(proxies) + [Detached(id)] && objects == old(objects)[id := p]
      ensures p != Null ==> FindProxy(id) == p && p !in list
    {
      if id == 0 || id in objects {
        return Null;
      }
      p := |proxies|;
      GrowKeepsMarkers(proxies, list, nodes, order, subEnd, up, starts, Detached(id));
      proxies, objects := proxies + [Detached(id)], objects[id := p];
    }

    /**
     * `delete_proxy(id)`: drop the entry for `id` when its proxy is not
     * linked; false when there is no entry or the proxy is still linked.
     */
    method DeleteProxy(id: int) returns (ok: bool)
      requires Valid()
      modifies this`objects
      ensures Valid()
      ensures ok <==> id in old(objects) && !Linked(proxies[old(objects)[id]])
      ensures ok ==> objects == old(objects) - {id} && old(objects)[id] !in list && FindProxy(id) == Null
      ensures !ok ==> objects == old(objects)
    {
      if id !in objects {
        return false;
      }
      var p := objects[id];
      if Linked(proxies[p]) {
        return false;
      }
      LinkedIffListed(proxies, list, p);
      objects := objects - {id};
      return true;
    }

    /**
     * `prototype_node::insert(child)` on `parent`, with the child a new node
     * of the given names: it takes the next arena slot, becomes the last
     * child of `parent` one level deeper, holds no objects, and all three of
     * its markers sit where the subtree of `parent` ends.
     */
    method InsertChild(parent: int, typeName: string, className: string) returns (x: int)
      requires MarkersOk(proxies, list, nodes, order, subEnd, up, starts) && parent in order
      modifies this`nodes, this`order, this`subEnd, this`up, this`starts
      ensures x == |old(nodes)| && |nodes| == x + 1 && nodes[..x] == old(nodes)
      ensures order == InsertAt(old(order), old(subEnd)[Pos(old(order), parent)], x)
      ensures nodes[x].typeName == typeName && nodes[x].className == className && nodes[x].count == 0
      ensures nodes[x].parent == parent && nodes[x].depth == nodes[parent].depth + 1
      ensures nodes[x].opMarker == nodes[parent].opLast && nodes[x].opLast == nodes[parent].opLast
      ensures 0 <= nodes[x].opLast < |proxies| && nodes[x].opFirst == proxies[nodes[x].opLast].prev
      ensures Children(nodes, order, parent) == Children(old(nodes), old(order), parent) + [x]
      ensures MarkersOk(proxies, list, nodes, order, subEnd, up, starts)
    {
      var kp := IndexIn(order, parent);
      PosOf(order, kp);
      ChildSlot(proxies, list, nodes, order, subEnd, up, starts, kp);
      var last := nodes[parent].opLast;
      var e := SubtreeEnd(nodes, order, kp, kp + 1);
      SubtreeEndIsSubEnd(nodes, order, subEnd, up, kp);
      var child := Node(typeName, className, parent, nodes[parent].depth + 1, proxies[last].prev, last, last, 0);
      x := |nodes|;
      ghost var n0 := nodes;
      ChildAppended(proxies, list, nodes, order, subEnd, up, starts, kp, child);
      nodes, order := nodes + [child], InsertAt(order, e, x);
      subEnd, up, starts := SubEndAfterInsert(subEnd, kp, e), UpAfterInsert(up, kp, e), InsertAt(starts, e, starts[e]);
      assert nodes[..x] == n0;
    }

    /**
     * `insert_prototype(producer, type, parent)`: a new node for `typeName`
     * below the node registered under `parent`, or below the root for no
     * parent, registered under `typeName` and under the producer's class name;
     * false when the parent is unknown or `typeName` is already registered.
     */
    method InsertPrototype(typeName: string, className: string, parent: Option<string>) returns (ok: bool)
      requires Valid()
      requires (parent.None? || parent.value in prototypes) && typeName !in prototypes ==> className != typeName && className !in prototypes
      modifies this`nodes, this`order, this`subEnd, this`up, this`starts, this`prototypes
      ensures Valid()
      ensures ok <==> (parent.None? || parent.value in old(prototypes)) && typeName !in old(prototypes)
      ensures !ok ==> nodes == old(nodes) && order == old(order) && prototypes == old(prototypes)
      ensures ok ==>
        var x, pn := |old(nodes)|, if parent.None? then Root else old(prototypes)[parent.value];
        && prototypes == old(prototypes)[typeName := x][className := x]
        && FindPrototype(typeName) == x && FindPrototype(className) == x
        && |nodes| == x + 1 && nodes[..x] == old(nodes)
        && order == InsertAt(old(order), old(subEnd)[Pos(old(order), pn)], x)
        && nodes[x].typeName == typeName && nodes[x].className == className && nodes[x].count == 0
        && nodes[x].parent == pn && nodes[x].depth == nodes[pn].depth + 1
        && nodes[x].opMarker == nodes[pn].opLast && nodes[x].opLast == nodes[pn].opLast
        && Children(nodes, order, pn) == Children(old(nodes), old(order), pn) + [x]
    {
      var pn := Root;
      if parent.Some? {
        if parent.value !in prototypes {
          return false;
        }
        pn := prototypes[parent.value];
        NamesAgree(prototypes, nodes, order, parent.value);
      }
      if typeName in prototypes {
        return false;
      }
      AddPrototype(pn, typeName, className);
      return true;
    }

    /** The success path of `insert_prototype`: a new child of `pn` registered under both names. */
    method AddPrototype(pn: int, typeName: string, className: string)
      requires Valid() && pn in order
      requires typeName != className && typeName !in prototypes && className !in prototypes
      modifies this`nodes, this`order, this`subEnd, this`up, this`starts, this`prototypes
      ensures Valid() && |nodes| == |old(nodes)| + 1
      ensures var x := |old(nodes)|;
        && prototypes == old(prototypes)[typeName := x][className := x]
        && nodes[..x] == old(nodes)
        && order == InsertAt(old(order), old(subEnd)[Pos(old(order), pn)], x)
        && nodes[x].typeName == typeName && nodes[x].className == className && nodes[x].count == 0
        && nodes[x].parent == pn && nodes[x].depth == nodes[pn].depth + 1
        && nodes[x].opMarker == nodes[pn].opLast && nodes[x].opLast == nodes[pn].opLast
        && Children(nodes, order, pn) == Children(old(nodes), old(order), pn) + [x]
    {
      ghost var n0, o0 := nodes, order;
      var x := InsertChild(pn, typeName, className);
      assert nodes == n0 + [nodes[x]];
      RegisteredAfterAppend(prototypes, n0, o0, old(subEnd)[Pos(o0, pn)], nodes[x], nodes);
      prototypes := prototypes[typeName := x][className := x];
    }

    /** The number of pre-order positions the subtree at position `k` spans: what removal recurses on. */
    ghost function Span(k: int): nat
      reads this
    {
      if 0 <= k < |subEnd| && k < subEnd[k] then subEnd[k] - k else 0
    }

    /** The span of the subtree of the node registered under `key`, or 0. */
    ghost function KeySize(key: string): nat
      reads this
    {
      if key in prototypes then Span(IndexIn(order, prototypes[key])) else 0
    }

    /**
     * `prototype_node::clear()` on the node at pre-order position `e`: its
     * own objects leave the list, one at a time from the front, until its
     * `op_first` is followed by its `op_marker`.
     */
    method ClearNode(node: int, ghost e: nat)
      requires MarkersOk(proxies, list, nodes, order, subEnd, up, starts) && e < |order| && order[e] == node
      modifies this`proxies, this`list, this`nodes, this`starts
      ensures list == old(list)[..old(starts)[e] + 1] + old(list)[old(starts)[e + 1] + 1..]
      ensures starts == StartsLess(old(starts), e, old(nodes[node].count))
      ensures MarkersOk(proxies, list, nodes, order, subEnd, up, starts)
      ensures nodes[node].count == 0
      ensures Relinked(old(proxies), proxies) && SameIdents(old(nodes), nodes) && OtherCounts(old(nodes), nodes, node)
    {
      ghost var l0, s0, ps0, n0, c0 := list, starts, proxies, nodes, nodes[node].count;
      PosOf(order, e);
      FirstOwn(proxies, list, nodes, order, subEnd, up, starts, e);
      StartsLessNone(s0, e);
      assert l0 == l0[..s0[e] + 1] + l0[s0[e] + 1..];
      ClearObjects(node, e, l0, s0, ps0, n0, c0);
      assert list == l0[..s0[e] + 1] + l0[s0[e + 1] + 1..];
      assert l0 == old(list) && s0 == old(starts) && n0 == old(nodes) && ps0 == old(proxies);
    }

    /** The loop of `prototype_node::clear()`: it runs until every one of the `c0` own objects is gone. */
    method ClearObjects(node: int, ghost e: nat, ghost l0: seq<int>, ghost s0: seq<int>, ghost ps0: seq<Proxy>, ghost n0: seq<Node>, ghost c0: nat)
      requires Clearing(node, e, l0, s0, ps0, n0, c0, 0)
      modifies this`proxies, this`list, this`nodes, this`starts
      ensures Clearing(node, e, l0, s0, ps0, n0, c0, c0)
    {
      ghost var d := 0;
      while proxies[nodes[node].opFirst].next != nodes[node].opMarker
        invariant Clearing(node, e, l0, s0, ps0, n0, c0, d)
        decreases c0 - d
      {
        ClearFirst(node, e, l0, s0, ps0, n0, c0, d);
        d := d + 1;
      }
    }

    /**
     * Half-way through `prototype_node::clear()` on the node at position
     * `e`, which had `c0` own objects: the first `d` of them are gone from
     * the list `l0`, and the markers are consistent.
     */
    ghost predicate Clearing(node: int, e: nat, l0: seq<int>, s0: seq<int>, ps0: seq<Proxy>, n0: seq<Node>, c0: nat, d: int)
      reads this
    {
      && MarkersOk(proxies, list, nodes, order, subEnd, up, starts) && e < |order| && order[e] == node
      && e + 1 < |s0| && 0 <= s0[e] && s0[e + 1] == s0[e] + c0 && s0[e + 1] <= |l0| - 2
      && 0 <= node < |nodes| && d == c0 - nodes[node].count && 0 <= d <= c0
      && list == l0[..s0[e] + 1] + l0[s0[e] + 1 + d..] && starts == StartsLess(s0, e, d)
      && Relinked(ps0, proxies) && SameIdents(n0, nodes) && OtherCounts(n0, nodes, node)
      && 0 <= nodes[node].opFirst < |proxies|
      && (proxies[nodes[node].opFirst].next == nodes[node].opMarker <==> nodes[node].count == 0)
    }

    /** One round of `prototype_node::clear()`: the first own object, `op_first->next`, is removed. */
    method ClearFirst(node: int, ghost e: nat, ghost l0: seq<int>, ghost s0: seq<int>, ghost ps0: seq<Proxy>, ghost n0: seq<Node>, ghost c0: nat, ghost d: int)
      requires Clearing(node, e, l0, s0, ps0, n0, c0, d) && d < c0
      modifies this`proxies, this`list, this`nodes, this`starts
      ensures Clearing(node, e, l0, s0, ps0, n0, c0, d + 1)
    {
      PosOf(order, e);
      FirstOwn(proxies, list, nodes, order, subEnd, up, starts, e);
      var p := proxies[nodes[node].opFirst].next;
      ghost var l1, s1 := list, starts;
      RemoveAfterCut(l0, s0[e] + 1, s0[e] + 1 + d);
      StartsLessStep(s0, e, d);
      RemoveProxy(node, p);
      assert list == RemoveAt(l1, s0[e] + 1) && starts == StartsAfterRemove(s1, e);
      FirstOwn(proxies, list, nodes, order, subEnd, up, starts, e);
    }

    /**
     * The loop of `remove_prototype` over the children of `node`, at
     * pre-order position `k`: while it has a first child, the prototype of
     * that child is removed. The whole subtree below `k` leaves the
     * pre-order, and its objects leave the list.
     */
    method RemoveChildren(node: int, k: nat)
      requires Valid() && k < |order| && order[k] == node
      modifies this`proxies, this`list, this`nodes, this`order, this`subEnd, this`up, this`starts, this`prototypes
      ensures Valid()
      ensures k < old(subEnd)[k] && CutRun(k + 1, old(subEnd)[k], old(order), old(subEnd), old(starts), old(list), order, subEnd, starts, list)
      ensures Preserved(old(order), old(prototypes), old(proxies), old(nodes), order, prototypes, proxies, nodes)
      decreases Span(k), 1
    {
      ghost var o0, e0, u0, s0, l0, p0, ps0, n0 := order, subEnd, up, starts, list, prototypes, proxies, nodes;
      ghost var m := k + 1;
      RemovingFirst(node, k);
      while k + 1 < |order| && nodes[order[k + 1]].parent == node
        invariant Removing(node, k, o0, e0, u0, s0, l0, p0, ps0, n0, m)
        decreases e0[k] - m
      {
        RemovingNext(node, k, o0, e0, u0, s0, l0, p0, ps0, n0, m);
        m := RemoveChild(node, k, o0, e0, u0, s0, l0, p0, ps0, n0, m);
      }
      RemovingNext(node, k, o0, e0, u0, s0, l0, p0, ps0, n0, m);
      RemovingDone(node, k, o0, e0, u0, s0, l0, p0, ps0, n0);
    }

    /**
     * Half-way through the loop of `remove_prototype` over the children of
     * the node at position `k` of the pre-order `o0`: the children whose
     * subtrees fill positions `k + 1 .. m - 1` are gone with their objects
     * and their names, and `m` is the end of the subtree or the next child.
     */
    ghost predicate Removing(node: int, k: nat, o0: seq<int>, e0: seq<nat>, u0: seq<int>, s0: seq<int>, l0: seq<int>,
                             p0: map<string, int>, ps0: seq<Proxy>, n0: seq<Node>, m: nat)
      reads this
    {
      && Valid()
      && ChildWalk(n0, o0, e0, u0, s0, l0, k, m) && o0[k] == node
      && CutRun(k + 1, m, o0, e0, s0, l0, order, subEnd, starts, list)
      && Preserved(o0, p0, ps0, n0, order, prototypes, proxies, nodes)
    }

    /** Before any child is removed. */
    lemma RemovingFirst(node: int, k: nat)
      requires Valid() && k < |order| && order[k] == node
      ensures Removing(node, k, order, subEnd, up, starts, list, prototypes, proxies, nodes, k + 1)
    {
      Ancestors(nodes, order, subEnd, up, k);
      CutRunNone(k + 1, order, subEnd, starts, list);
      SurvivorsAll(prototypes, nodes, order);
      if k + 1 < subEnd[k] {
        AncestorOfParent(nodes, order, subEnd, up, k, k + 1);
      }
    }

    /**
     * The loop test of `remove_prototype`: the node after `node` is a child
     * of it exactly when the walk has not reached the end of the subtree,
     * and the subtree has not grown.
     */
    lemma RemovingNext(node: int, k: nat, o0: seq<int>, e0: seq<nat>, u0: seq<int>, s0: seq<int>, l0: seq<int>,
                       p0: map<string, int>, ps0: seq<Proxy>, n0: seq<Node>, m: nat)
      requires Removing(node, k, o0, e0, u0, s0, l0, p0, ps0, n0, m)
      ensures (k + 1 < |order| && nodes[order[k + 1]].parent == node) <==> m < e0[k]
      ensures Span(k) <= e0[k] - k
    {
      ChildAt(n0, o0, e0, u0, k, m);
      assert k + 1 < |order| ==> order[k + 1] == o0[m] && Ident(nodes[o0[m]]) == Ident(n0[o0[m]]);
      CutRunShrinks(k + 1, m, o0, e0, s0, l0, order, subEnd, starts, list);
    }

    /** Once the walk reaches the end of the subtree, all of it below `node` is cut out. */
    lemma RemovingDone(node: int, k: nat, o0: seq<int>, e0: seq<nat>, u0: seq<int>, s0: seq<int>, l0: seq<int>,
                       p0: map<string, int>, ps0: seq<Proxy>, n0: seq<Node>)
      requires k < |e0| && Removing(node, k, o0, e0, u0, s0, l0, p0, ps0, n0, e0[k])
      ensures Valid() && k < e0[k] && CutRun(k + 1, e0[k], o0, e0, s0, l0, order, subEnd, starts, list)
      ensures Preserved(o0, p0, ps0, n0, order, prototypes, proxies, nodes)
    {
    }

    /** The loop state of `remove_prototype`, gathered from its parts. */
    lemma RemovingAt(node: int, k: nat, o0: seq<int>, e0: seq<nat>, u0: seq<int>, s0: seq<int>, l0: seq<int>,
                     p0: map<string, int>, ps0: seq<Proxy>, n0: seq<Node>, m: nat)
      requires Valid() && ChildWalk(n0, o0, e0, u0, s0, l0, k, m) && o0[k] == node
      requires CutRun(k + 1, m, o0, e0, s0, l0, order, subEnd, starts, list)
      requires Preserved(o0, p0, ps0, n0, order, prototypes, proxies, nodes)
      ensures Removing(node, k, o0, e0, u0, s0, l0, p0, ps0, n0, m)
    {
    }

    /**
     * One round of the loop over the children of `node`: the first child,
     * at position `m` of `o0`, is removed with its prototype, and the walk
     * moves past its subtree.
     */
    method RemoveChild(node: int, k: nat, ghost o0: seq<int>, ghost e0: seq<nat>, ghost u0: seq<int>, ghost s0: seq<int>,
                       ghost l0: seq<int>, ghost p0: map<string, int>, ghost ps0: seq<Proxy>, ghost n0: seq<Node>, ghost m: nat)
      returns (ghost m': nat)
      requires Removing(node, k, o0, e0, u0, s0, l0, p0, ps0, n0, m) && m < e0[k]
      modifies this`proxies, this`list, this`nodes, this`order, this`subEnd, this`up, this`starts, this`prototypes
      ensures Removing(node, k, o0, e0, u0, s0, l0, p0, ps0, n0, m') && m < m'
      decreases Span(k), 0
    {
      ghost var o1, e1, s1, l1, p1, ps1, n1 := order, subEnd, starts, list, prototypes, proxies, nodes;
      ChildFront(n0, o0, e0, u0, s0, l0, k, m, o1, e1, s1, l1);
      var child := order[k + 1];
      assert KeysAt(prototypes, nodes, order, k + 1);
      assert nodes[child].parent == order[up[k + 1]];
      ghost var i := IndexIn(order, child);
      DistinctAt(order, i, k + 1);
      var ok := RemovePrototype(nodes[child].typeName);
      assert ok;
      ChildStep(n0, o0, e0, u0, s0, l0, k, m, o1, e1, s1, l1, order, subEnd, starts, list);
      PreservedTwice(o0, p0, ps0, n0, o1, p1, ps1, n1, order, prototypes, proxies, nodes);
      m' := e0[m];
      RemovingAt(node, k, o0, e0, u0, s0, l0, p0, ps0, n0, m');
    }

    /**
     * The end of `remove_prototype` for `node`, at pre-order position `k`,
     * once its children are gone: its own objects leave the list, the node
     * leaves the tree, and both its names leave the registry.
     */
    method DropNode(node: int, k: nat)
      requires Valid() && 0 < k < |order| && order[k] == node && subEnd[k] == k + 1
      modifies this`proxies, this`list, this`nodes, this`order, this`subEnd, this`up, this`starts, this`prototypes
      ensures Valid()
      ensures CutRun(k, k + 1, old(order), old(subEnd), old(starts), old(list), order, subEnd, starts, list)
      ensures Preserved(old(order), old(prototypes), old(proxies), old(nodes), order, prototypes, proxies, nodes)
    {
      ghost var o0, e0, s0, l0, p0, ps0, n0 := order, subEnd, starts, list, prototypes, proxies, nodes;
      ClearOwn(node, k);
      ghost var s1, l1, ps1, n1 := starts, list, proxies, nodes;
      UnlinkLeaf(node, k);
      ClearThenCut(k, o0, e0, s0, l0, s1, l1, order, subEnd, starts, list);
      LeafPreserved(node, o0, p0, ps0, n0, ps1, n1, order, prototypes);
    }

    /** `prototype_node::clear()` on `node`, at pre-order position `k`, within the store. */
    method ClearOwn(node: int, k: nat)
      requires Valid() && k < |order| && order[k] == node
      modifies this`proxies, this`list, this`nodes, this`starts
      ensures Valid() && nodes[node].count == 0
      ensures ClearRun(k, old(starts), old(list), starts, list)
      ensures Relinked(old(proxies), proxies) && SameIdents(old(nodes), nodes) && OtherCounts(old(nodes), nodes, node)
    {
      ghost var n0, ps0 := nodes, proxies;
      assert StepAt(nodes, order, starts, k);
      ClearNode(node, k);
      RegisteredIdents(prototypes, n0, nodes, order);
      IdentitiesRelinked(objects, ps0, proxies);
    }

    /**
     * `unlink()` on `node`, an empty leaf at pre-order position `k`, and the
     * erasure of both its names from the registry.
     */
    method UnlinkLeaf(node: int, k: nat)
      requires Valid() && 0 < k < |order| && order[k] == node && subEnd[k] == k + 1 && nodes[node].count == 0
      modifies this`order, this`subEnd, this`up, this`starts, this`prototypes
      ensures CutRun(k, k + 1, old(order), old(subEnd), old(starts), old(list), order, subEnd, starts, list)
      ensures forall x :: x in order <==> x in old(order) && x != node
      ensures prototypes == Survivors(old(prototypes), order)
      ensures Valid()
    {
      ghost var p0, o0, e0, u0, s0 := prototypes, order, subEnd, up, starts;
      var n := nodes[node];
      order, subEnd, up, starts, prototypes :=
        RemoveAt(order, k), SubEndAfterRemove(subEnd, k), UpAfterRemove(up, k), RemoveAt(starts, k), prototypes - {n.typeName, n.className};
      LeafUnlinked(proxies, list, p0, nodes, o0, e0, u0, s0, objects, observers, nextId, node, k, prototypes, order, subEnd, up, starts);
    }

    /**
     * The success path of `remove_prototype` for `node`, at pre-order
     * position `k`: the prototypes of its children go first, then the node
     * itself. The subtree, at positions `k .. subEnd[k] - 1`, is cut out
     * with its objects and its names.
     */
    method DropSubtree(node: int, k: nat)
      requires Valid() && 0 < k < |order| && order[k] == node
      modifies this`proxies, this`list, this`nodes, this`order, this`subEnd, this`up, this`starts, this`prototypes
      ensures Valid()
      ensures CutRun(k, old(subEnd)[k], old(order), old(subEnd), old(starts), old(list), order, subEnd, starts, list)
      ensures Preserved(old(order), old(prototypes), old(proxies), old(nodes), order, prototypes, proxies, nodes)
      decreases Span(k), 2
    {
      ghost var o0, e0, s0, l0, p0, ps0, n0 := order, subEnd, starts, list, prototypes, proxies, nodes;
      Ancestors(nodes, order, subEnd, up, k);
      RemoveChildren(node, k);
      ghost var o1, e1, s1, l1, p1, ps1, n1 := order, subEnd, starts, list, prototypes, proxies, nodes;
      DropNode(node, k);
      CutRunBefore(k, e0[k], o0, e0, s0, l0, o1, e1, s1, l1, order, subEnd, starts, list);
      PreservedTwice(o0, p0, ps0, n0, o1, p1, ps1, n1, order, prototypes, proxies, nodes);
    }

    /**
     * `remove_prototype(type)`: false for an unknown name and for the root,
     * which has no parent. Otherwise the subtree of the node, at positions
     * `k .. subEnd[k] - 1` of the pre-order, is cut out with its objects,
     * and the names of its nodes leave the registry.
     */
    method RemovePrototype(typeName: string) returns (ok: bool)
      requires Valid()
      requires typeName in prototypes ==> nodes[prototypes[typeName]].typeName == typeName
      modifies this`proxies, this`list, this`nodes, this`order, this`subEnd, this`up, this`starts, this`prototypes
      ensures Valid()
      ensures ok <==> typeName in old(prototypes) && old(nodes)[old(prototypes)[typeName]].parent != Null
      ensures !ok ==> order == old(order) && list == old(list) && prototypes == old(prototypes) && nodes == old(nodes)
      ensures ok ==>
        var k := IndexIn(old(order), old(prototypes)[typeName]);
        0 < k < |old(order)| && CutRun(k, old(subEnd)[k], old(order), old(subEnd), old(starts), old(list), order, subEnd, starts, list)
      ensures Preserved(old(order), old(prototypes), old(proxies), old(nodes), order, prototypes, proxies, nodes)
      decreases KeySize(typeName), 3
    {
      if typeName !in prototypes {
        SurvivorsAll(prototypes, nodes, order);
        return false;
      }
      var node := prototypes[typeName];
      NamesAgree(prototypes, nodes, order, typeName);
      if nodes[node].parent == Null {
        SurvivorsAll(prototypes, nodes, order);
        return false;
      }
      // the lookup of the class name cannot fail while the registry is valid
      assert nodes[node].className in prototypes;
      var k := IndexIn(order, node);
      assert k != 0;
      DropSubtree(node, k);
      ok := true;
    }

    /**
     * `clear()`: the prototypes below the root are removed one at a time,
     * each with its subtree and objects, and the identity map is emptied.
     * What is left is the root with its own objects.
     */
    method Clear()
      requires Valid()
      modifies this`proxies, this`list, this`nodes, this`order, this`subEnd, this`up, this`starts, this`prototypes, this`objects
      ensures Valid()
      ensures order == [Root] && objects == map[]
      ensures prototypes == Survivors(old(prototypes), [Root])
      ensures 0 <= old(starts)[1] < |old(list)| - 1 && list == old(list)[..old(starts)[1] + 1] + [Tail]
      ensures Preserved(old(order), old(prototypes), old(proxies), old(nodes), order, prototypes, proxies, nodes)
    {
      ClearTree();
      ForgetObjects();
    }

    /**
     * The loop of `clear()`: while the root has a first child, that child's
     * prototype is removed. The root is left alone with its own objects.
     */
    method ClearTree()
      requires Valid()
      modifies this`proxies, this`list, this`nodes, this`order, this`subEnd, this`up, this`starts, this`prototypes
      ensures Valid()
      ensures order == [Root] && prototypes == Survivors(old(prototypes), [Root])
      ensures 0 <= old(starts)[1] < |old(list)| - 1 && list == old(list)[..old(starts)[1] + 1] + [Tail]
      ensures Preserved(old(order), old(prototypes), old(proxies), old(nodes), order, prototypes, proxies, nodes)
    {
      ghost var o0, e0, s0, l0 := order, subEnd, starts, list;
      assert l0[|l0| - 1] == Tail && o0[0] == Root;
      RootSpansAll(nodes, order, subEnd, up);
      RemoveChildren(Root, 0);
      CutAllButFirst(o0, e0, s0, l0, order, subEnd, starts, list);
    }

    /** `object_map_.clear()`: the identity map is emptied and nothing else changes. */
    method ForgetObjects()
      requires Valid()
      modifies this`objects
      ensures Valid() && objects == map[]
    {
      objects := map[];
    }

    /**
     * `link_proxy(base, p)`: `p` goes directly before `base`, which sits at
     * position `i` of the list.
     */
    method LinkProxy(base: int, p: int, ghost i: nat)
      requires ListShape(proxies, list) && 0 < i < |list| && list[i] == base
      requires 0 <= p < |proxies| && p !in list
      modifies this`proxies, this`list
      ensures LinksBefore(old(proxies), proxies, base, p)
      ensures |proxies| == |old(proxies)| && proxies[p].prev == old(list)[i - 1] && proxies[p].next == base
      ensures list == InsertAt(old(list), i, p)
      ensures ListShape(proxies, list)
    {
      ghost var ps := proxies;
      var b := proxies[base].prev;
      assert PrevAt(proxies, list, i);
      assert b == list[i - 1] && base != p && b != p;
      DistinctAt(list, i - 1, i);
      proxies := proxies[p := proxies[p].(prev := b, next := base)];
      if b != Null {
        proxies := proxies[b := proxies[b].(next := p)];
      }
      proxies := proxies[base := proxies[base].(prev := p)];
      LinkInserts(ps, proxies, list, i, p);
      list := InsertAt(list, i, p);
    }

    /** `unlink_proxy(p)`: the neighbours of `p`, at position `i` of the list, are joined and `p` loses both links. */
    method UnlinkProxy(p: int, ghost i: nat)
      requires ListShape(proxies, list) && 0 < i < |list| - 1 && list[i] == p
      modifies this`proxies, this`list
      ensures UnlinksFrom(old(proxies), proxies, p)
      ensures list == RemoveAt(old(list), i)
      ensures ListShape(proxies, list)
    {
      ghost var ps := proxies;
      var a := proxies[p].prev;
      var c := proxies[p].next;
      assert PrevAt(proxies, list, i) && NextAt(proxies, list, i);
      assert a == list[i - 1] && c == list[i + 1];
      DistinctAt(list, i - 1, i); DistinctAt(list, i + 1, i); DistinctAt(list, i - 1, i + 1);
      if a != Null {
        proxies := proxies[a := proxies[a].(next := c)];
      }
      if c != Null {
        proxies := proxies[c := proxies[c].(prev := a)];
      }
      proxies := proxies[p := proxies[p].(prev := Null, next := Null)];
      UnlinkRemoves(ps, proxies, list, i);
      list := RemoveAt(list, i);
    }

    /**
     * `prototype_node::adjust_left_marker(was, now)` on the node at
     * pre-order position `e`: walking back through the earlier nodes, an
     * `op_marker` equal to `was` becomes `now`, and so does an `op_last`
     * unless that node is an ancestor of `order[e]`. A node is an ancestor
     * exactly when it is shallower than every node between it and `order[e]`,
     * so the walk keeps the least depth seen so far.
     */
    method AdjustLeftMarker(e: nat, was: int, now: int)
      requires TreeShape(nodes, order, subEnd, up) && e < |order|
      modifies this`nodes
      ensures LeftAdjusted(old(nodes), nodes, order, subEnd, e, was, now)
    {
      ghost var n0, ord, ends, ups := nodes, order, subEnd, up;
      var m := e;
      var least := nodes[order[e]].depth;
      ghost var w := e;
      while m > 0
        invariant order == ord && subEnd == ends
        invariant LeftWalk(n0, nodes, ord, ends, e, m, w, was, now)
        invariant least == DepthAt(n0, ord, w)
      {
        LeftWalkStep(n0, nodes, ord, ends, ups, e, m, w, was, now);
        var k := order[m - 1];
        var d := nodes[k].depth;
        nodes := nodes[k := LeftMark(nodes[k], was, now, d < least)];
        if d < least {
          least := d;
          w := m - 1;
        }
        m := m - 1;
      }
    }

    /**
     * `prototype_node::adjust_right_marker(was, now)` on the node at
     * pre-order position `e`: walking forward through the later nodes, an
     * `op_first` equal to `was` becomes `now`.
     */
    method AdjustRightMarker(e: nat, was: int, now: int)
      requires TreeShape(nodes, order, subEnd, up) && e < |order|
      modifies this`nodes
      ensures RightAdjusted(old(nodes), nodes, order, e, was, now)
    {
      ghost var n0 := nodes;
      var m := e + 1;
      while m < |order|
        invariant e < m <= |order|
        invariant RightAdjustedUpTo(n0, nodes, order, e, m, was, now)
      {
        var k := order[m];
        RightAdjustStep(n0, nodes, order, e, m, was, now);
        nodes := nodes[k := RightMark(nodes[k], was, now)];
        m := m + 1;
      }
    }

    /**
     * The three cases of `insert_proxy` for the node at pre-order position
     * `e`, which holds `c` objects: `p` is linked before `base`, at list
     * position `q`; then none of the markers move for two or more objects,
     * the left markers for one, the left and then the right markers for none.
     */
    method LinkByCount(e: nat, c: nat, base: int, p: int, ghost q: nat) returns (ghost n1: seq<Node>)
      requires ListShape(proxies, list) && 0 < q < |list| && list[q] == base
      requires 0 <= p < |proxies| && p !in list
      requires TreeShape(nodes, order, subEnd, up) && e < |order|
      modifies this`proxies, this`list, this`nodes
      ensures LinksBefore(old(proxies), proxies, base, p) && list == InsertAt(old(list), q, p)
      ensures |nodes| == |old(nodes)|
      ensures c >= 2 ==> nodes == old(nodes)
      ensures c == 1 ==> LeftAdjusted(old(nodes), n1, order, subEnd, e, proxies[p].next, p) && nodes == n1
      ensures c == 0 ==> LeftAdjusted(old(nodes), n1, order, subEnd, e, proxies[p].next, p) && RightAdjusted(n1, nodes, order, e, proxies[p].prev, p)
    {
      LinkProxy(base, p, q);
      n1 := nodes;
      if c == 1 {
        AdjustLeftMarker(e, proxies[p].next, p);
        n1 := nodes;
      } else if c == 0 {
        ghost var n0 := nodes;
        AdjustLeftMarker(e, proxies[p].next, p);
        n1 := nodes;
        AdjustKeepsShape(n0, n1, order, subEnd, up, e, base, p, true);
        AdjustRightMarker(e, proxies[p].prev, p);
      }
    }

    /**
     * `insert_proxy(node, p)`: link `p` into the run of `node`, before its
     * last own object when it has one and else just before its `op_marker`,
     * move the markers that pointed at the new neighbours, label `p` with
     * its node and count it.
     */
    method InsertProxy(node: int, p: int)
      requires MarkersOk(proxies, list, nodes, order, subEnd, up, starts)
      requires node in order && 0 <= p < |proxies| && p !in list
      modifies this`proxies, this`list, this`nodes, this`starts
      ensures list == InsertAt(old(list), InsertPos(old(nodes), old(order), old(starts), Pos(old(order), node)), p)
      ensures MarkersOk(proxies, list, nodes, old(order), old(subEnd), old(up), starts)
      ensures starts == StartsAfterInsert(old(starts), Pos(old(order), node))
      ensures proxies[p].node == node && nodes[node].count == old(nodes[node].count) + 1
      ensures old(nodes[node].count) >= 2 ==> nodes == old(nodes)[node := nodes[node]]
      ensures Relinked(old(proxies)[p := old(proxies)[p].(node := node)], proxies) && SameIdents(old(nodes), nodes) && OtherCounts(old(nodes), nodes, node)
    {
      var e := IndexIn(order, node);
      PosOf(order, e);
      ghost var ps, l, n0, s0, ord, ends, ups := proxies, list, nodes, starts, order, subEnd, up;
      ghost var q := InsertPos(nodes, order, starts, e);
      var c := nodes[node].count;
      var base := nodes[node].opMarker;
      InsertBase(ps, l, n0, order, subEnd, up, s0, e);
      if c >= 1 {
        base := proxies[base].prev;
      }
      ghost var n1 := LinkByCount(e, c, base, p, q);
      ghost var ps1, n2 := proxies, nodes;
      proxies, nodes, starts := proxies[p := proxies[p].(node := node)], nodes[node := nodes[node].(count := c + 1)], StartsAfterInsert(starts, e);
      InsertSteps(ps, l, n0, ord, ends, ups, s0, e, node, c, p, base, ps1, proxies, n1, n2, nodes);
    }

    /**
     * The marker moves of `remove_proxy` for the entry `p` at list position
     * `r` in the own run of the node at pre-order position `e`: the left
     * markers when `p` is the first own object, then the right markers when
     * it is the last one.
     */
    method MarkRemoved(e: nat, p: int, ghost r: int) returns (ghost n1: seq<Node>)
      requires MarkersOk(proxies, list, nodes, order, subEnd, up, starts)
      requires e < |order| && 0 < r < |list| - 1 && list[r] == p && starts[e] < r <= starts[e + 1]
      modifies this`nodes
      ensures |nodes| == |old(nodes)| && nodes[order[e]] == old(nodes[order[e]])
      ensures if r == starts[e] + 1 then LeftAdjusted(old(nodes), n1, order, subEnd, e, list[r], list[r + 1]) else n1 == old(nodes)
      ensures if r == starts[e + 1] then RightAdjusted(n1, nodes, order, e, list[r], list[r - 1]) else nodes == n1
    {
      var node := order[e];
      assert MarkAt(list, nodes, order, subEnd, starts, e);
      assert NextAt(proxies, list, starts[e]) && NextAt(proxies, list, r) && PrevAt(proxies, list, starts[e + 1] + 1) && PrevAt(proxies, list, r);
      DistinctAt(list, r, starts[e] + 1);
      DistinctAt(list, r, starts[e + 1]);
      n1 := nodes;
      var first := nodes[node].opFirst;
      if p == proxies[first].next {
        AdjustLeftMarker(e, proxies[first].next, proxies[proxies[first].next].next);
        n1 := nodes;
        assert LeftAt(old(nodes), n1, order, subEnd, e, 0, e, list[r], list[r + 1]);
        AdjustKeepsShape(old(nodes), n1, order, subEnd, up, e, list[r], list[r + 1], true);
      }
      var marker := nodes[node].opMarker;
      if p == proxies[marker].prev {
        AdjustRightMarker(e, p, proxies[proxies[marker].prev].prev);
        assert RightAt(n1, nodes, order, e, |order|, e, list[r], list[r - 1]);
      }
    }

    /**
     * `remove_proxy(node, p)`: move the markers that pointed at `p`, unlink
     * it and count one object less.
     */
    method RemoveProxy(node: int, p: int)
      requires MarkersOk(proxies, list, nodes, order, subEnd, up, starts)
      requires node in order && p in list && p != Head && p != Tail && 0 <= p < |proxies| && proxies[p].node == node
      modifies this`proxies, this`list, this`nodes, this`starts
      ensures list == RemoveAt(old(list), Pos(old(list), p))
      ensures starts == StartsAfterRemove(old(starts), Pos(old(order), node))
      ensures MarkersOk(proxies, list, nodes, old(order), old(subEnd), old(up), starts)
      ensures |proxies| == |old(proxies)| && proxies[p].prev == Null && proxies[p].next == Null
      ensures nodes[node].count == old(nodes[node].count) - 1
      ensures Relinked(old(proxies), proxies) && SameIdents(old(nodes), nodes) && OtherCounts(old(nodes), nodes, node)
    {
      var e := IndexIn(order, node);
      PosOf(order, e);
      ghost var r := Pos(list, p);
      ghost var ps, l, n0, s0, ord, ends, ups := proxies, list, nodes, starts, order, subEnd, up;
      OwnRange(ps, l, n0, order, subEnd, up, s0, e, r);
      assert StepAt(n0, order, s0, e);
      var c := nodes[node].count;
      ghost var n1 := MarkRemoved(e, p, r);
      ghost var n2 := nodes;
      UnlinkProxy(p, r);
      nodes, starts := nodes[node := nodes[node].(count := c - 1)], StartsAfterRemove(starts, e);
      RemoveSteps(ps, l, n0, ord, ends, ups, s0, e, node, c, r, proxies, n1, n2, nodes);
    }

    /**
     * `insert_object(o, notify)`: none for a null object or an unregistered
     * type. Otherwise the proxy of the object's id is reused, taken out of
     * the list first when it is linked, or a new proxy is made, under a
     * fresh id when the object has none; the proxy is linked into the run
     * of the object's node and the observers are told when `notify` is set.
     */
    method InsertObject(o: Option<Obj>, notify: bool) returns (r: Option<Obj>)
      requires Valid()
      requires o.Some? && o.value.id == 0 ==> nextId + 1 !in objects
      modifies this`proxies, this`list, this`nodes, this`starts, this`objects, this`nextId, this`events
      ensures Valid()
      ensures r.Some? <==> o.Some? && o.value.tag in prototypes
      ensures r.None? ==> proxies == old(proxies) && list == old(list) && nodes == old(nodes) && starts == old(starts)
      ensures r.None? ==> objects == old(objects) && nextId == old(nextId)
      ensures r.Some? ==> r.value.tag == o.value.tag
      ensures r.Some? && o.value.id != 0 ==> r.value.id == o.value.id && nextId == old(nextId)
      ensures r.Some? && o.value.id == 0 ==> r.value.id == nextId == old(nextId) + 1
      ensures r.Some? ==> r.value.id in objects && objects == old(objects)[r.value.id := objects[r.value.id]]
      ensures r.Some? ==> var p := objects[r.value.id];
                          p in list && proxies[p].obj == r && proxies[p].node == prototypes[r.value.tag]
      ensures r.Some? ==> forall x :: x in list <==> x in old(list) || x == objects[r.value.id]
      ensures r.Some? ==> var p := objects[r.value.id];
                          && Without(list, p) == Without(old(list), p) && KeptBut(old(proxies), proxies, p)
                          && CountsMoved(old(nodes), nodes, Holder(old(proxies), old(list), old(objects), o.value.id), prototypes[r.value.tag])
                          && SameIdents(old(nodes), nodes)
      ensures events == old(events) + (if r.Some? && notify then FanOut(observers, OnInsert, r) else [])
    {
      if o.None? {
        return None;
      }
      var node := FindPrototype(o.value.tag);
      if node == Null {
        return None;
      }
      var p, obj := Store(o.value, node);
      if notify {
        Notify(OnInsert, Some(obj));
      }
      r := Some(obj);
    }

    /** The proxy work of `insert_object(o)`, with `node` the node of the type of `o`. */
    method Store(o: Obj, node: int) returns (p: int, o': Obj)
      requires Valid() && o.tag in prototypes && node == prototypes[o.tag] && (o.id == 0 ==> nextId + 1 !in objects)
      modifies this`proxies, this`list, this`nodes, this`starts, this`objects, this`nextId
      ensures Without(list, p) == Without(old(list), p) && KeptBut(old(proxies), proxies, p)
      ensures CountsMoved(old(nodes), nodes, Holder(old(proxies), old(list), old(objects), o.id), node) && SameIdents(old(nodes), nodes)
      ensures o'.tag == o.tag && objects == old(objects)[o'.id := p]
      ensures o.id != 0 ==> o'.id == o.id && nextId == old(nextId)
      ensures o.id == 0 ==> o'.id == nextId == old(nextId) + 1
      ensures p in list && 0 <= p < |proxies| && proxies[p].obj == Some(o') && proxies[p].node == node
      ensures forall x :: x in list <==> x in old(list) || x == p
      ensures Valid()
    {
      ghost var l0, ps0, n0, h := list, proxies, nodes, Holder(proxies, list, objects, o.id);
      p, o' := Attach(o);
      ghost var l1, ps1, n1 := list, proxies, nodes;
      ghost var i := Place(node, p);
      PlacedFrame(o', l0, ps0, n0, h, l1, ps1, n1, i, p, node, list, proxies, nodes);
    }

    /**
     * The proxy part of `insert_object` for `o`: the proxy found under its
     * id, unlinked if it was linked and reset to `o`; or else a new proxy,
     * under the next id when `o` has none, holding `o`.
     */
    method Attach(o: Obj) returns (p: int, o': Obj)
      requires Valid() && (o.id == 0 ==> nextId + 1 !in objects)
      modifies this`proxies, this`list, this`nodes, this`starts, this`objects, this`nextId
      ensures Without(list, p) == Without(old(list), p) && KeptBut(old(proxies), proxies, p)
      ensures CountsMoved(old(nodes), nodes, Holder(old(proxies), old(list), old(objects), o.id), Null)
      ensures SameIdents(old(nodes), nodes)
      ensures 0 <= p < |proxies| && p !in list
      ensures o'.tag == o.tag && objects == old(objects)[o'.id := p] && proxies[p].obj == Some(o')
      ensures o.id != 0 ==> o'.id == o.id && nextId == old(nextId)
      ensures o.id == 0 ==> o'.id == nextId == old(nextId) + 1
      ensures forall x :: x in list <==> x in old(list) && x != p
      ensures Valid()
    {
      p := FindProxy(o.id);
      if p != Null {
        Reset(p, o);
        return p, o;
      }
      p, o' := Fresh(o);
    }

    /**
     * The path of `insert_object` for an id without a proxy: the object gets
     * the next id when it has none, and a new proxy under its id holds it.
     */
    method Fresh(o: Obj) returns (p: int, o': Obj)
      requires Valid() && o.id !in objects && (o.id == 0 ==> nextId + 1 !in objects)
      modifies this`proxies, this`objects, this`nextId
      ensures p == |old(proxies)| && proxies == old(proxies) + [Detached(o'.id).(obj := Some(o'))]
      ensures o'.tag == o.tag && objects == old(objects)[o'.id := p]
      ensures o.id != 0 ==> o'.id == o.id && nextId == old(nextId)
      ensures o.id == 0 ==> o'.id == nextId == old(nextId) + 1
      ensures Valid()
    {
      ghost var ps0 := proxies;
      o' := o;
      if o.id == 0 {
        nextId := nextId + 1;
        o' := o.(id := nextId);
      }
      p := CreateProxy(o'.id);
      Hold(p, o');
      UpdateAppended(ps0, Detached(o'.id), Detached(o'.id).(obj := Some(o')));
    }

    /** The reuse of the proxy `p` found under the id of `o`: unlinked when it is linked, then reset to `o`. */
    method Reset(p: int, o: Obj)
      requires Valid() && o.id in objects && p == objects[o.id]
      modifies this`proxies, this`list, this`nodes, this`starts
      ensures Relinked(old(proxies)[p := old(proxies)[p].(obj := Some(o))], proxies)
      ensures Without(list, p) == Without(old(list), p)
      ensures CountsMoved(old(nodes), nodes, Holder(old(proxies), old(list), objects, o.id), Null)
      ensures SameIdents(old(nodes), nodes)
      ensures 0 <= p < |proxies| && p !in list && proxies[p].obj == Some(o)
      ensures forall x :: x in list <==> x in old(list) && x != p
      ensures Valid()
    {
      LinkedIffListed(proxies, list, p);
      ghost var l0 := list;
      if Linked(proxies[p]) {
        ListedOwned(proxies, list, nodes, order, subEnd, up, starts, p);
        Unlist(proxies[p].node, p);
        RemoveDropsEntry(l0, Pos(l0, p));
        WithoutRemoveAt(l0, Pos(l0, p));
      }
      WithoutAbsent(list, p);
      Hold(p, o);
    }

    /** `oproxy->obj = o` and `oproxy->reset(o)`: the proxy `p` holds `o`, its links, id and node unchanged. */
    method Hold(p: int, o: Obj)
      requires Valid() && 0 <= p < |proxies|
      modifies this`proxies
      ensures Valid() && proxies == old(proxies)[p := old(proxies)[p].(obj := Some(o))]
    {
      SameLinksKeepMarkers(proxies, list, nodes, order, subEnd, up, starts, p, proxies[p].(obj := Some(o)));
      IdentitiesSameId(objects, proxies, p, proxies[p].(obj := Some(o)));
      proxies := proxies[p := proxies[p].(obj := Some(o))];
    }

    /**
     * `insert_proxy(node, p)` within the store: the store invariant is kept,
     * `p` joins the list and takes `node`, and its object is unchanged.
     */
    method Place(node: int, p: int) returns (ghost i: nat)
      requires Valid() && node in order && 0 <= p < |proxies| && p !in list
      modifies this`proxies, this`list, this`nodes, this`starts
      ensures Valid() && p in list && forall x :: x in list <==> x in old(list) || x == p
      ensures i == InsertPos(old(nodes), order, old(starts), Pos(order, node)) && i <= |old(list)| && list == InsertAt(old(list), i, p)
      ensures proxies[p].node == node && proxies[p].obj == old(proxies[p].obj)
      ensures Relinked(old(proxies)[p := old(proxies)[p].(node := node)], proxies)
      ensures CountsMoved(old(nodes), nodes, Null, node) && SameIdents(old(nodes), nodes)
      ensures objects == old(objects) && nextId == old(nextId)
    {
      ghost var ps0, l0, n0 := proxies, list, nodes;
      i := InsertPos(nodes, order, starts, Pos(order, node));
      InsertProxy(node, p);
      InsertKeepsEntries(l0, i, p);
      IdentitiesSameId(objects, ps0, p, ps0[p].(node := node));
      IdentitiesRelinked(objects, ps0[p := ps0[p].(node := node)], proxies);
      RegisteredIdents(prototypes, n0, nodes, order);
      assert Payload(proxies[p]) == Payload(ps0[p].(node := node));
      assert list[i] == p;
    }

    /**
     * The state of the commit loop of `remove` after the first `i` entries,
     * from the identity map `objs0`, the list `l0` and the callback log `ev0`
     * it started from: the entries left are still removable, the doomed ids
     * so far are gone from the map and their proxies from the list, and their
     * callbacks were delivered.
     */
    ghost predicate Committing(entries: seq<Entry>, i: int, objs0: map<int, int>, l0: seq<int>, ev0: seq<Event>)
      reads this
    {
      && Valid() && 0 <= i <= |entries|
      && (forall j :: i <= j < |entries| && !entries[j].ignore ==> Removable(prototypes, objects, proxies, list, entries[j].obj))
      && CommitState(entries, i, prototypes, observers, objs0, l0, ev0, objects, list, events)
    }

    /** One round of the commit loop of `remove`: entry `i` is removed with notification unless it is ignored. */
    method CommitEntry(entries: seq<Entry>, i: nat, ghost objs0: map<int, int>, ghost l0: seq<int>, ghost ev0: seq<Event>)
      requires Committing(entries, i, objs0, l0, ev0) && i < |entries|
      modifies this`proxies, this`list, this`nodes, this`starts, this`objects, this`events
      ensures Committing(entries, i + 1, objs0, l0, ev0)
      ensures Relinked(old(proxies), proxies) && SameIdents(old(nodes), nodes)
    {
      ghost var o1, l1, ps1, ev1 := objects, list, proxies, events;
      var e := entries[i];
      if !e.ignore {
        var removed := RemoveObject(e.obj, true);
        if removed {
          forall j | i < j < |entries| && !entries[j].ignore
            ensures Removable(prototypes, objects, proxies, list, entries[j].obj)
          {
            RemovableKept(prototypes, o1, ps1, l1, proxies, e.obj.id, entries[j].obj);
          }
          CommitHit(entries, i, prototypes, observers, objs0, l0, ev0, o1, l1, ev1, ps1);
          return;
        }
      }
      CommitMiss(entries, i, prototypes, observers, objs0, l0, ev0, o1, l1, ev1);
    }

    /** `remove_proxy(node, p)` within the store: the store invariant is kept. */
    method Unlist(node: int, p: int)
      requires Valid() && node in order && p in list && p != Head && p != Tail && 0 <= p < |proxies| && proxies[p].node == node
      modifies this`proxies, this`list, this`nodes, this`starts
      ensures Valid()
      ensures list == RemoveAt(old(list), Pos(old(list), p))
      ensures nodes[node].count == old(nodes[node].count) - 1 && CountsMoved(old(nodes), nodes, node, Null)
      ensures Relinked(old(proxies), proxies) && SameIdents(old(nodes), nodes)
    {
      ghost var ps0, n0 := proxies, nodes;
      RemoveProxy(node, p);
      RegisteredIdents(prototypes, n0, nodes, order);
      IdentitiesRelinked(objects, ps0, proxies);
    }

    /**
     * `remove_object(o, notify)`: false for an unregistered type or an id
     * not in the identity map. Otherwise the entry is erased, the proxy
     * leaves the list and the run of its node, and the observers are told
     * when `notify` is set.
     */
    method RemoveObject(o: Obj, notify: bool) returns (ok: bool)
      requires Valid() && Removable(prototypes, objects, proxies, list, o)
      modifies this`proxies, this`list, this`nodes, this`starts, this`objects, this`events
      ensures Valid()
      ensures ok <==> o.tag in prototypes && o.id in old(objects)
      ensures ok ==> objects == old(objects) - {o.id} && list == RemoveAt(old(list), Pos(old(list), old(objects)[o.id]))
      ensures ok ==> nodes[prototypes[o.tag]].count == old(nodes[prototypes[o.tag]].count) - 1
      ensures !ok ==> proxies == old(proxies) && list == old(list) && nodes == old(nodes) && starts == old(starts) && objects == old(objects)
      ensures Relinked(old(proxies), proxies) && SameIdents(old(nodes), nodes)
      ensures events == old(events) + (if ok && notify then FanOut(observers, OnDelete, Some(o)) else [])
    {
      var node := FindPrototype(o.tag);
      if node == Null {
        return false;
      }
      if o.id !in objects {
        return false;
      }
      DropObject(o, objects[o.id], notify);
      return true;
    }

    /** The success path of `remove_object(o, notify)`, with `p` the proxy of `o`. */
    method DropObject(o: Obj, p: int, notify: bool)
      requires Valid() && o.tag in prototypes && o.id in objects && p == objects[o.id]
      requires p in list && 0 <= p < |proxies| && proxies[p].node == prototypes[o.tag]
      modifies this`proxies, this`list, this`nodes, this`starts, this`objects, this`events
      ensures Valid()
      ensures objects == old(objects) - {o.id} && list == RemoveAt(old(list), Pos(old(list), p))
      ensures nodes[prototypes[o.tag]].count == old(nodes[prototypes[o.tag]].count) - 1
      ensures Relinked(old(proxies), proxies) && SameIdents(old(nodes), nodes)
      ensures events == old(events) + (if notify then FanOut(observers, OnDelete, Some(o)) else [])
    {
      objects, events := objects - {o.id}, events + (if notify then FanOut(observers, OnDelete, Some(o)) else []);
      Unlist(prototypes[o.tag], p);
    }

    /**
     * `remove(o)`: the object deleter's verdict `deletable` and its entries
     * stand for `is_deletable`. False when the removal is refused; otherwise
     * every entry not ignored is removed with notification, in order.
     */
    method Remove(deletable: bool, entries: seq<Entry>) returns (ok: bool)
      requires Valid()
      requires deletable ==> forall j :: 0 <= j < |entries| && !entries[j].ignore ==> Removable(prototypes, objects, proxies, list, entries[j].obj)
      modifies this`proxies, this`list, this`nodes, this`starts, this`objects, this`events
      ensures Valid() && ok == deletable
      ensures !ok ==> objects == old(objects) && list == old(list) && events == old(events)
      ensures !ok ==> proxies == old(proxies) && nodes == old(nodes) && starts == old(starts)
      ensures Relinked(old(proxies), proxies) && SameIdents(old(nodes), nodes)
      ensures ok ==> objects == old(objects) - Doomed(entries, prototypes)
      ensures ok ==> events == old(events) + Deletions(observers, entries, prototypes, old(objects))
      ensures ok ==> forall x :: x in list ==> x in old(list)
      ensures ok ==> forall id :: id in old(objects) ==> (old(objects)[id] in list <==> old(objects)[id] in old(list) && id !in Doomed(entries, prototypes))
    {
      if !deletable {
        return false;
      }
      ghost var objs0, l0, ev0, ps0, n0 := objects, list, events, proxies, nodes;
      var i := 0;
      CommitStart(entries, prototypes, observers, objs0, l0, ev0);
      while i < |entries|
        invariant Committing(entries, i, objs0, l0, ev0)
        invariant Relinked(ps0, proxies) && SameIdents(n0, nodes)
        decreases |entries| - i
      {
        CommitEntry(entries, i, objs0, l0, ev0);
        i := i + 1;
      }
      assert entries[..i] == entries;
      return true;
    }

    /** The own objects of `node`: the list entries from `op_first->next` up to `op_marker`, exclusive. */
    ghost function OwnRun(node: int): seq<int>
      reads this
      requires Valid() && node in order
    {
      var k := Pos(order, node);
      RunOwners(proxies, list, nodes, order, subEnd, up, starts, k, k + 1);
      Run(list, starts, k, k + 1)
    }

    /** The objects of the subtree of `node`: the list entries from `op_first->next` up to `op_last`, exclusive. */
    ghost function SubtreeRun(node: int): seq<int>
      reads this
      requires Valid() && node in order
    {
      var k := Pos(order, node);
      assert MarkAt(list, nodes, order, subEnd, starts, k);
      RunOwners(proxies, list, nodes, order, subEnd, up, starts, k, subEnd[k]);
      Run(list, starts, k, subEnd[k])
    }

    /** The own run of `node` holds exactly the listed proxies that belong to `node`. */
    lemma OwnRunOwners(node: int)
      requires Valid() && node in order
      ensures forall x :: x in OwnRun(node) <==> x in list && x != Head && x != Tail && 0 <= x < |proxies| && proxies[x].node == node
    {
      var k := Pos(order, node);
      RunOwners(proxies, list, nodes, order, subEnd, up, starts, k, k + 1);
      assert order[k..k + 1] == [node];
    }

    /**
     * Walking from `op_first` to `op_last` of `node` meets its own objects
     * first and then exactly the listed proxies of the nodes below it.
     */
    lemma SubtreeRunOwners(node: int)
      requires Valid() && node in order
      ensures |OwnRun(node)| <= |SubtreeRun(node)| && SubtreeRun(node)[..|OwnRun(node)|] == OwnRun(node)
      ensures forall x :: x in SubtreeRun(node) <==>
                x in list && x != Head && x != Tail && 0 <= x < |proxies| && (proxies[x].node == node || IsChildOf(nodes, proxies[x].node, node))
    {
      var k := Pos(order, node);
      assert MarkAt(list, nodes, order, subEnd, starts, k);
      RunOwners(proxies, list, nodes, order, subEnd, up, starts, k, subEnd[k]);
      RunOwners(proxies, list, nodes, order, subEnd, up, starts, k, k + 1);
      StartsMonotone(list, nodes, order, starts, k + 1, subEnd[k]);
      RunPrefix(list, starts, k, k + 1, subEnd[k]);
      forall x | x in list && x != Head && x != Tail && 0 <= x < |proxies|
        ensures proxies[x].node in order[k..subEnd[k]] <==> proxies[x].node == node || IsChildOf(nodes, proxies[x].node, node)
      {
        ListedOwned(proxies, list, nodes, order, subEnd, up, starts, x);
        InSubtreeIff(nodes, order, subEnd, up, k, proxies[x].node);
      }
    }

    /** `prototype_node::size()`: the number of own objects of `node`. */
    function Size(node: int): (n: nat)
      reads this
      requires Valid() && node in order
      ensures n == |OwnRun(node)|
    {
      assert StepAt(nodes, order, starts, Pos(order, node));
      nodes[node].count
    }

    /**
     * `prototype_node::empty(self)`: whether `op_first->next` is `op_marker`,
     * when only the own objects count, or `op_last`, when the whole subtree
     * counts.
     */
    function Empty(node: int, self: bool): (r: bool)
      reads this
      requires Valid() && node in order
      ensures self ==> (r <==> OwnRun(node) == [])
      ensures !self ==> (r <==> SubtreeRun(node) == [])
    {
      EmptyMeaning(node);
      var first := nodes[node].opFirst;
      proxies[first].next == if self then nodes[node].opMarker else nodes[node].opLast
    }

    /** The marker tests of `empty` decide whether the runs are empty. */
    lemma EmptyMeaning(node: int)
      requires Valid() && node in order
      ensures 0 <= nodes[node].opFirst < |proxies|
      ensures proxies[nodes[node].opFirst].next == nodes[node].opMarker <==> OwnRun(node) == []
      ensures proxies[nodes[node].opFirst].next == nodes[node].opLast <==> SubtreeRun(node) == []
    {
      var k := Pos(order, node);
      assert MarkAt(list, nodes, order, subEnd, starts, k);
      RunOwners(proxies, list, nodes, order, subEnd, up, starts, k, k + 1);
      RunOwners(proxies, list, nodes, order, subEnd, up, starts, k, subEnd[k]);
      assert NextAt(proxies, list, starts[k]);
      DistinctAt(list, starts[k] + 1, starts[k + 1] + 1);
      DistinctAt(list, starts[k] + 1, starts[subEnd[k]] + 1);
    }

    /**
     * `prototype_node::next_node()`: the node after `node` in pre-order, or
     * null after the last one. It is the first child of `node` when `node`
     * has a child, and otherwise a child of one of the ancestors of `node`.
     */
    function NextNode(node: int): (n: int)
      reads this
      requires Valid() && node in order
      ensures n == Null <==> node == order[|order| - 1]
      ensures n != Null ==> n in order && n != node
      ensures n != Null && (exists c :: c in order && IsChildOf(nodes, c, node)) ==> nodes[n].parent == node
      ensures n != Null && (exists c :: c in order && IsChildOf(nodes, c, node)) ==>
        Children(nodes, order, node) != [] && Children(nodes, order, node)[0] == n
      ensures n != Null && nodes[n].parent != node ==> IsChildOf(nodes, node, nodes[n].parent)
    {
      var k := IndexIn(order, node);
      NextMeaning(k);
      if k + 1 < |order| then order[k + 1] else Null
    }

    /** The pre-order successor of position `k` in tree terms. */
    lemma NextMeaning(k: nat)
      requires Valid() && k < |order|
      ensures k + 1 < |order| ==> order[k + 1] != order[k]
      ensures k + 1 == |order| <==> order[k] == order[|order| - 1]
      ensures k + 1 < |order| && (exists c :: c in order && IsChildOf(nodes, c, order[k])) ==> nodes[order[k + 1]].parent == order[k]
      ensures k + 1 < |order| && (exists c :: c in order && IsChildOf(nodes, c, order[k])) ==>
        Children(nodes, order, order[k]) != [] && Children(nodes, order, order[k])[0] == order[k + 1]
      ensures k + 1 < |order| && nodes[order[k + 1]].parent != order[k] ==> IsChildOf(nodes, order[k], nodes[order[k + 1]].parent)
    {
      DistinctAt(order, k, |order| - 1);
      if k + 1 < |order| {
        DistinctAt(order, k, k + 1);
        NextNodeIsChildOrUncle(nodes, order, subEnd, up, k);
        if exists c :: c in order && IsChildOf(nodes, c, order[k]) {
          var c :| c in order && IsChildOf(nodes, c, order[k]);
          IsChildOfIffInSubtree(nodes, order, subEnd, up, k, Pos(order, c));
        }
        if subEnd[k] == k + 1 {
          IsChildOfIffInSubtree(nodes, order, subEnd, up, up[k + 1], k);
        }
      }
    }

    /**
     * `prototype_node::next_node(root)`: the pre-order successor of `node`
     * while it lies below `root`, null once the walk leaves the subtree of
     * `root`.
     */
    function NextNodeIn(node: int, root: int): (n: int)
      reads this
      requires Valid() && node in order
      ensures n != Null ==> n == NextNode(node) && IsChildOf(nodes, n, root)
    {
      var n := NextNode(node);
      if n != Null && IsChildOf(nodes, n, root) then n else Null
    }

    /** Stepping with `next_node(root)` from `root` walks its subtree in pre-order and stops at its end. */
    lemma NextNodeInWalksSubtree(k: nat, j: nat)
      requires Valid() && k < |order| && k <= j < subEnd[k]
      ensures NextNodeIn(order[j], order[k]) == if j + 1 < subEnd[k] then order[j + 1] else Null
    {
      NextMeaning(j);
      assert IndexIn(order, order[j]) == j by {
        DistinctAt(order, j, IndexIn(order, order[j]));
      }
      if j + 1 < |order| {
        IsChildOfIffInSubtree(nodes, order, subEnd, up, k, j + 1);
      }
    }

    /** `depth(node)`: the number of parent links from `node` up to the root. */
    method Depth(node: int) returns (d: int)
      requires Valid() && node in order
      ensures d == nodes[node].depth
    {
      var n := node;
      d := 0;
      while nodes[n].parent != Null
        invariant n in order && d + nodes[n].depth == nodes[node].depth
        decreases nodes[n].depth
      {
        var k := Pos(order, n);
        assert k != 0;
        assert 0 <= up[k] < k;
        n := nodes[n].parent;
        d := d + 1;
      }
      NullParentIsRoot(nodes, order, subEnd, up, Pos(order, n));
    }

    /**
     * The walk of `dump_prototypes`: from the root along `next_node()` until
     * null, each node with its depth. It visits every live node once, in
     * pre-order.
     */
    method WalkPrototypes() returns (walk: seq<int>, depths: seq<int>)
      requires Valid()
      ensures walk == order && |depths| == |walk|
      ensures forall i :: 0 <= i < |walk| ==> depths[i] == nodes[walk[i]].depth
    {
      var n := Root;
      walk, depths := [], [];
      ghost var j := 0;
      while n != Null
        invariant 0 <= j <= |order| && walk == order[..j] && |depths| == j
        invariant forall i :: 0 <= i < j ==> depths[i] == nodes[walk[i]].depth
        invariant if j < |order| then n == order[j] else n == Null
        decreases |order| - j
      {
        var d := Depth(n);
        walk, depths := walk + [n], depths + [d];
        assert IndexIn(order, n) == j by {
          DistinctAt(order, j, IndexIn(order, n));
        }
        n := NextNode(n);
        j := j + 1;
      }
    }
  }

  /**
   * The frame of `insert_object` over its two steps: the proxy `p` is first
   * taken out (from the node `h`, if any) and then placed at `i` in `node`.
   * Afterwards `p` is listed, in `node` and still holding `o'`, and the
   * list holds what it held before and `p`. All other proxies keep their
   * order and payload, only the counts of `h` and `node` move, and every
   * node keeps its names, parent and depth.
   */
  lemma PlacedFrame(o': Obj, l0: seq<int>, ps0: seq<Proxy>, n0: seq<Node>, h: int,
                    l1: seq<int>, ps1: seq<Proxy>, n1: seq<Node>, i: nat, p: int, node: int,
                    l2: seq<int>, ps2: seq<Proxy>, n2: seq<Node>)
    requires Without(l1, p) == Without(l0, p) && KeptBut(ps0, ps1, p)
    requires CountsMoved(n0, n1, h, Null)
    requires SameIdents(n0, n1)
    requires 0 <= p < |ps1| && p !in l1
    requires ps1[p].obj == Some(o')
    requires forall x :: x in l1 <==> x in l0 && x != p
    requires p in l2 && forall x :: x in l2 <==> x in l1 || x == p
    requires i <= |l1| && l2 == InsertAt(l1, i, p)
    requires Relinked(ps1[p := ps1[p].(node := node)], ps2)
    requires ps2[p].node == node && ps2[p].obj == ps1[p].obj
    requires CountsMoved(n1, n2, Null, node) && SameIdents(n1, n2)
    ensures Without(l2, p) == Without(l0, p) && KeptBut(ps0, ps2, p)
    ensures CountsMoved(n0, n2, h, node) && SameIdents(n0, n2)
    ensures p in l2 && 0 <= p < |ps2| && ps2[p].obj == Some(o') && ps2[p].node == node
    ensures forall x :: x in l2 <==> x in l0 || x == p
  {
    WithoutInsertAt(l1, i, p);
    WithoutAbsent(l1, p);
    forall q | 0 <= q < |ps0| && q != p ensures Payload(ps2[q]) == Payload(ps0[q]) {
      assert Payload(ps2[q]) == Payload(ps1[p := ps1[p].(node := node)][q]);
    }
  }

  /** The node whose run holds the proxy of `id`, or `Null` when the id has no linked proxy. */
  ghost function Holder(ps: seq<Proxy>, l: seq<int>, objs: map<int, int>, id: int): int {
    if id in objs && objs[id] in l && 0 <= objs[id] < |ps| then ps[objs[id]].node else Null
  }

  /**
   * From one state of the store to a later one while prototypes are
   * removed: the nodes left, `o1`, are among those of `o0`; the registry
   * keeps exactly the names of the nodes left; every proxy keeps its id,
   * object and node; every node keeps its names, parent and depth; and the
   * nodes left keep their counts.
   */
  ghost predicate Preserved(o0: seq<int>, p0: map<string, int>, ps0: seq<Proxy>, n0: seq<Node>,
                       o1: seq<int>, p1: map<string, int>, ps1: seq<Proxy>, n1: seq<Node>) {
    && (forall x :: x in o1 ==> x in o0)
    && p1 == Survivors(p0, o1) && Relinked(ps0, ps1) && SameIdents(n0, n1) && CountsKept(n0, n1, o1)
  }

  /** The store invariant on the values of the fields: list and markers, the registry, the identity map, no observer twice. */
  ghost predicate Consistent(ps: seq<Proxy>, l: seq<int>, nodes: seq<Node>, order: seq<int>, subEnd: seq<nat>, up: seq<int>, starts: seq<int>,
                             protos: map<string, int>, objs: map<int, int>, obs: seq<nat>, nextId: int)
  {
    && MarkersOk(ps, l, nodes, order, subEnd, up, starts)
    && Registered(protos, nodes, order)
    && Identities(objs, ps)
    && Distinct(obs)
    && 0 <= nextId
  }

  /**
   * What cutting out the empty leaf `node`, at pre-order position `k`, does
   * to the pre-order, the runs and the registry: the store stays
   * consistent, `node` alone leaves the pre-order and only its names leave
   * the registry.
   */
  lemma LeafUnlinked(ps: seq<Proxy>, l: seq<int>, protos: map<string, int>, nodes: seq<Node>, order: seq<int>, subEnd: seq<nat>, up: seq<int>, starts: seq<int>,
                      objs: map<int, int>, obs: seq<nat>, id: int, node: int, k: nat,
                      protos': map<string, int>, order': seq<int>, subEnd': seq<nat>, up': seq<int>, starts': seq<int>)
    requires Consistent(ps, l, nodes, order, subEnd, up, starts, protos, objs, obs, id)
    requires 0 < k < |order| && order[k] == node && subEnd[k] == k + 1 && nodes[node].count == 0
    requires order' == RemoveAt(order, k) && subEnd' == SubEndAfterRemove(subEnd, k) && up' == UpAfterRemove(up, k) && starts' == RemoveAt(starts, k)
    requires protos' == protos - {nodes[node].typeName, nodes[node].className}
    ensures CutRun(k, k + 1, order, subEnd, starts, l, order', subEnd', starts', l)
    ensures forall x :: x in order' <==> x in order && x != node
    ensures protos' == Survivors(protos, order')
    ensures Consistent(ps, l, nodes, order', subEnd', up', starts', protos', objs, obs, id)
  {
    assert StepAt(nodes, order, starts, k);
    DistinctAt(order, 0, k);
    Ancestors(nodes, order, subEnd, up, k);
    EmptyLeafCut(k, order, subEnd, starts, l);
    UnlinkKeepsMarkers(ps, l, nodes, order, subEnd, up, starts, k);
    RemoveDropsEntry(order, k);
    SurvivorsUnlink(protos, nodes, order, k);
    RegisteredAfterUnlink(protos, nodes, order, k);
  }

  /**
   * Clearing the own objects of `node` and then taking it out of the
   * pre-order `o0`, and its names out of the registry, preserves the rest.
   */
  lemma LeafPreserved(node: int, o0: seq<int>, p0: map<string, int>, ps0: seq<Proxy>, n0: seq<Node>,
                      ps1: seq<Proxy>, n1: seq<Node>, o2: seq<int>, p2: map<string, int>)
    requires Relinked(ps0, ps1) && SameIdents(n0, n1) && OtherCounts(n0, n1, node)
    requires forall x :: x in o0 ==> 0 <= x < |n0|
    requires (forall x :: x in o2 <==> x in o0 && x != node) && p2 == Survivors(p0, o2)
    ensures Preserved(o0, p0, ps0, n0, o2, p2, ps1, n1)
  {
  }

  /** What is kept from one state to the next and from that to a third is kept from the first to the third. */
  lemma PreservedTwice(o0: seq<int>, p0: map<string, int>, ps0: seq<Proxy>, n0: seq<Node>,
                  o1: seq<int>, p1: map<string, int>, ps1: seq<Proxy>, n1: seq<Node>,
                  o2: seq<int>, p2: map<string, int>, ps2: seq<Proxy>, n2: seq<Node>)
    requires Preserved(o0, p0, ps0, n0, o1, p1, ps1, n1) && Preserved(o1, p1, ps1, n1, o2, p2, ps2, n2)
    ensures Preserved(o0, p0, ps0, n0, o2, p2, ps2, n2)
  {
    SurvivorsTwice(p0, o1, o2);
  }
}
