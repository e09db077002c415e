/**
 * The two maps of the store: `prototype_node_map_`, which finds a node by
 * its type name or by the class name of its producer, and `object_map_`,
 * which finds a proxy by the id of its object.
 */
module Catalog {
  import opened Types
  import opened Seqs
  import opened ProxyList
  import opened PrototypeTree

  /** The live node at pre-order position `k` is found under both of its names, which differ. */
  ghost predicate KeysAt(protos: map<string, int>, nodes: seq<Node>, order: seq<int>, k: int) {
    0 <= k < |order| && 0 <= order[k] < |nodes| &&
    var n := nodes[order[k]];
    && n.typeName != n.className
    && n.typeName in protos && protos[n.typeName] == order[k]
    && n.className in protos && protos[n.className] == order[k]
  }

  /** Every key names a live node by one of its two names, and every live node is found under both. */
  ghost predicate Registered(protos: map<string, int>, nodes: seq<Node>, order: seq<int>) {
    && (forall key :: key in protos ==> NamesLive(protos, nodes, order, key))
    && (forall k {:trigger KeysAt(protos, nodes, order, k)} :: 0 <= k < |order| ==> KeysAt(protos, nodes, order, k))
  }

  /** The key `key` names a live node, by its type name or by its class name. */
  ghost predicate NamesLive(protos: map<string, int>, nodes: seq<Node>, order: seq<int>, key: string) {
    key in protos && protos[key] in order && 0 <= protos[key] < |nodes| &&
    (key == nodes[protos[key]].typeName || key == nodes[protos[key]].className)
  }

  /**
   * `object_map_`: no entry for id 0, and every entry names a proxy other
   * than the two sentinels that carries that id, so different ids name
   * different proxies.
   */
  ghost predicate Identities(objects: map<int, int>, ps: seq<Proxy>) {
    && 0 !in objects
    && forall id :: id in objects ==> Head < Tail < objects[id] < |ps| && ps[objects[id]].id == id
  }

  /** Changing markers and counts keeps the registry. */
  lemma RegisteredIdents(protos: map<string, int>, nodes: seq<Node>, nodes': seq<Node>, order: seq<int>)
    requires Registered(protos, nodes, order) && SameIdents(nodes, nodes')
    ensures Registered(protos, nodes', order)
  {
    forall key | key in protos ensures NamesLive(protos, nodes', order, key) {
      assert NamesLive(protos, nodes, order, key);
      assert Ident(nodes'[protos[key]]) == Ident(nodes[protos[key]]);
    }
    forall k | 0 <= k < |order| ensures KeysAt(protos, nodes', order, k) {
      assert KeysAt(protos, nodes, order, k);
      assert Ident(nodes'[order[k]]) == Ident(nodes[order[k]]);
    }
  }

  /** Relinking proxies keeps the identity map. */
  lemma IdentitiesRelinked(objects: map<int, int>, ps: seq<Proxy>, ps': seq<Proxy>)
    requires Identities(objects, ps) && Relinked(ps, ps')
    ensures Identities(objects, ps')
  {
    forall id | id in objects ensures ps'[objects[id]].id == id {
      assert Payload(ps'[objects[id]]) == Payload(ps[objects[id]]);
    }
  }

  /** Rewriting one slot of the arena without changing its id keeps the identity map. */
  lemma IdentitiesSameId(objects: map<int, int>, ps: seq<Proxy>, p: int, x: Proxy)
    requires Identities(objects, ps) && 0 <= p < |ps| && x.id == ps[p].id
    ensures Identities(objects, ps[p := x])
  {
  }

  /** A node that takes a fresh arena slot and two unused names keeps the registry. */
  lemma RegisteredAfterAppend(protos: map<string, int>, nodes: seq<Node>, order: seq<int>, e: nat, c: Node, nodes': seq<Node>)
    requires Registered(protos, nodes, order) && e <= |order|
    requires forall k :: 0 <= k < |order| ==> 0 <= order[k] < |nodes|
    requires nodes' == nodes + [c] && c.typeName != c.className && c.typeName !in protos && c.className !in protos
    ensures Registered(protos[c.typeName := |nodes|][c.className := |nodes|], nodes', InsertAt(order, e, |nodes|))
  {
    var x := |nodes|;
    var protos', order' := protos[c.typeName := x][c.className := x], InsertAt(order, e, x);
    InsertKeepsEntries(order, e, x);
    forall key | key in protos' ensures NamesLive(protos', nodes', order', key) {
      if key != c.typeName && key != c.className {
        assert NamesLive(protos, nodes, order, key);
        assert protos[key] in order';
      }
    }
    forall k | 0 <= k < |order'| ensures KeysAt(protos', nodes', order', k) {
      if k != e {
        var j := if k < e then k else k - 1;
        assert KeysAt(protos, nodes, order, j);
        assert order'[k] == order[j];
      }
    }
  }

  /** Taking the node at position `k` and its two names away keeps the registry. */
  lemma RegisteredAfterUnlink(protos: map<string, int>, nodes: seq<Node>, order: seq<int>, k: nat)
    requires Registered(protos, nodes, order) && Distinct(order) && k < |order| && 0 <= order[k] < |nodes|
    ensures var n := nodes[order[k]];
      Registered(protos - {n.typeName, n.className}, nodes, RemoveAt(order, k))
  {
    assert KeysAt(protos, nodes, order, k);
    var n := nodes[order[k]];
    var protos', order' := protos - {n.typeName, n.className}, RemoveAt(order, k);
    RemoveKeepsEntries(order, k);
    forall key | key in protos' ensures NamesLive(protos', nodes, order', key) {
      assert NamesLive(protos, nodes, order, key);
      var i := Pos(order, protos[key]);
      DistinctAt(order, i, k);
    }
    forall j | 0 <= j < |order'| ensures KeysAt(protos', nodes, order', j) {
      var i := if j < k then j else j + 1;
      assert KeysAt(protos, nodes, order, i);
      assert order'[j] == order[i];
      DistinctAt(order, i, k);
    }
  }

  /** A registered key leads to a node found under both of its names. */
  lemma NamesAgree(protos: map<string, int>, nodes: seq<Node>, order: seq<int>, key: string)
    requires Registered(protos, nodes, order) && key in protos
    ensures protos[key] in order && 0 <= protos[key] < |nodes|
    ensures var n := nodes[protos[key]];
      && n.typeName in protos && protos[n.typeName] == protos[key]
      && n.className in protos && protos[n.className] == protos[key]
  {
    assert NamesLive(protos, nodes, order, key);
    assert KeysAt(protos, nodes, order, Pos(order, protos[key]));
  }

  /** The keys of `protos` whose node is still live in `order`. */
  ghost function Survivors(protos: map<string, int>, order: seq<int>): (r: map<string, int>)
    ensures forall key :: key in r <==> key in protos && protos[key] in order
    ensures forall key :: key in r ==> r[key] == protos[key]
  {
    map key | key in protos && protos[key] in order :: protos[key]
  }

  /** While every key names a live node, all keys survive. */
  lemma SurvivorsAll(protos: map<string, int>, nodes: seq<Node>, order: seq<int>)
    requires Registered(protos, nodes, order)
    ensures Survivors(protos, order) == protos
  {
    forall key | key in protos ensures protos[key] in order {
      assert NamesLive(protos, nodes, order, key);
    }
  }

  /** Restricting to fewer live nodes twice is restricting once. */
  lemma SurvivorsTwice(protos: map<string, int>, o1: seq<int>, o2: seq<int>)
    requires forall x :: x in o2 ==> x in o1
    ensures Survivors(Survivors(protos, o1), o2) == Survivors(protos, o2)
  {
  }

  /** Erasing the two names of the node at position `k` keeps exactly the keys of the nodes left. */
  lemma SurvivorsUnlink(protos: map<string, int>, nodes: seq<Node>, order: seq<int>, k: nat)
    requires Registered(protos, nodes, order) && Distinct(order) && k < |order| && 0 <= order[k] < |nodes|
    ensures var n := nodes[order[k]];
      protos - {n.typeName, n.className} == Survivors(protos, RemoveAt(order, k))
  {
    var n := nodes[order[k]];
    assert KeysAt(protos, nodes, order, k);
    RemoveKeepsEntries(order, k);
    var o' := RemoveAt(order, k);
    forall key | key in protos ensures (key in protos - {n.typeName, n.className}) <==> protos[key] in o' {
      assert NamesLive(protos, nodes, order, key);
      var i := Pos(order, protos[key]);
      DistinctAt(order, i, k);
      if protos[key] in o' {
        var j := Pos(o', protos[key]);
        DistinctAt(order, if j < k then j else j + 1, k);
      }
    }
  }
}
