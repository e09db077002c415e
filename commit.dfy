/**
 * The commit loop of `object_store::remove`: the object deleter hands over
 * the objects of a removal, each with an `ignore` flag, and every entry not
 * ignored is removed from the store in turn.
 */
module Commit {
  import opened Types
  import opened Seqs
  import opened ProxyList
  import opened Catalog

  /** One entry of the object deleter: the object and whether the commit skips it. */
  datatype Entry = Entry(obj: Obj, ignore: bool)

  /**
   * What `remove_object` needs of the store to remove `o`: when its type is
   * registered and its id is in the identity map, the proxy of that id is
   * linked and belongs to the node of that type.
   */
  ghost predicate Removable(protos: map<string, int>, objs: map<int, int>, ps: seq<Proxy>, l: seq<int>, o: Obj) {
    o.tag in protos && o.id in objs ==> objs[o.id] in l && 0 <= objs[o.id] < |ps| && ps[objs[o.id]].node == protos[o.tag]
  }

  /** Removing the proxy of one id keeps every other object removable. */
  lemma RemovableKept(protos: map<string, int>, objs: map<int, int>, ps: seq<Proxy>, l: seq<int>, ps': seq<Proxy>, id: int, o: Obj)
    requires Identities(objs, ps) && Relinked(ps, ps') && Distinct(l)
    requires id in objs && objs[id] in l && Removable(protos, objs, ps, l, o)
    ensures Removable(protos, objs - {id}, ps', RemoveAt(l, Pos(l, objs[id])), o)
  {
    if o.tag in protos && o.id in objs - {id} {
      var q := objs[o.id];
      assert ps[q].id != ps[objs[id]].id;
      RemoveDropsEntry(l, Pos(l, objs[id]));
      assert Payload(ps'[q]) == Payload(ps[q]);
    }
  }

  /** The ids the entries in `es` remove: those of objects not ignored whose type is registered. */
  ghost function Doomed(es: seq<Entry>, protos: map<string, int>): set<int> {
    set j | 0 <= j < |es| && !es[j].ignore && es[j].obj.tag in protos :: es[j].obj.id
  }

  /** One more entry adds its id to the doomed ids exactly when it is not ignored and its type is registered. */
  lemma DoomedStep(es: seq<Entry>, i: nat, protos: map<string, int>)
    requires i < |es|
    ensures Doomed(es[..i + 1], protos)
         == Doomed(es[..i], protos) + (if !es[i].ignore && es[i].obj.tag in protos then {es[i].obj.id} else {})
  {
    var a, b := es[..i + 1], es[..i];
    forall id | id in Doomed(a, protos)
      ensures id in Doomed(b, protos) + (if !es[i].ignore && es[i].obj.tag in protos then {es[i].obj.id} else {})
    {
      var j :| 0 <= j < |a| && !a[j].ignore && a[j].obj.tag in protos && a[j].obj.id == id;
      if j < i {
        assert b[j] == a[j];
      }
    }
    forall id | id in Doomed(b, protos) ensures id in Doomed(a, protos) {
      var j :| 0 <= j < |b| && !b[j].ignore && b[j].obj.tag in protos && b[j].obj.id == id;
      assert a[j] == b[j];
    }
    if !es[i].ignore && es[i].obj.tag in protos {
      assert a[i] == es[i];
    }
  }

  /**
   * Whether the removal of entry `e` takes effect over the identity map
   * `objs`: `remove_object` succeeds for it exactly when it is not ignored,
   * its type is registered and its id is still mapped.
   */
  predicate Hits(e: Entry, protos: map<string, int>, objs: map<int, int>) {
    !e.ignore && e.obj.tag in protos && e.obj.id in objs
  }

  /**
   * The callbacks the commit over `es` delivers, starting from the identity
   * map `objs`: for each entry whose removal takes effect, one `on_delete`
   * per observer, in entry order.
   */
  ghost function Deletions(obs: seq<nat>, es: seq<Entry>, protos: map<string, int>, objs: map<int, int>): seq<Event>
    decreases |es|
  {
    if |es| == 0 then []
    else
      var pre, e := es[..|es| - 1], es[|es| - 1];
      Deletions(obs, pre, protos, objs)
        + (if Hits(e, protos, objs - Doomed(pre, protos)) then FanOut(obs, OnDelete, Some(e.obj)) else [])
  }

  /**
   * Every callback of the commit is an `on_delete`, to a registered
   * observer, for an object of an entry that is doomed and whose id was
   * mapped when the commit began.
   */
  lemma {:induction false} DeletionsAreDoomed(obs: seq<nat>, es: seq<Entry>, protos: map<string, int>, objs: map<int, int>)
    ensures forall ev :: ev in Deletions(obs, es, protos, objs) ==>
              && ev.kind == OnDelete && ev.observer in obs && ev.obj.Some?
              && ev.obj.value.id in Doomed(es, protos) && ev.obj.value.id in objs
              && exists j :: 0 <= j < |es| && es[j].obj == ev.obj.value
    decreases |es|
  {
    if |es| > 0 {
      var i := |es| - 1;
      var pre, e := es[..i], es[i];
      DeletionsAreDoomed(obs, pre, protos, objs);
      assert es[..i + 1] == es;
      DoomedStep(es, i, protos);
      forall ev | ev in Deletions(obs, es, protos, objs)
        ensures && ev.kind == OnDelete && ev.observer in obs && ev.obj.Some?
                && ev.obj.value.id in Doomed(es, protos) && ev.obj.value.id in objs
                && exists j :: 0 <= j < |es| && es[j].obj == ev.obj.value
      {
        if ev in Deletions(obs, pre, protos, objs) {
          var j :| 0 <= j < |pre| && pre[j].obj == ev.obj.value;
          assert es[j] == pre[j];
        } else {
          var evs := FanOut(obs, OnDelete, Some(e.obj));
          var n :| 0 <= n < |evs| && evs[n] == ev;
          assert es[i].obj == ev.obj.value;
        }
      }
    }
  }

  /**
   * The bookkeeping of the commit loop after the first `i` entries of `es`,
   * starting from the identity map `objs0`, the list `l0` and the callback
   * log `ev0`: the doomed ids so far are gone from the map `objs`, their
   * proxies from the list `l` and nothing else from it, and the log `ev`
   * holds their callbacks.
   */
  ghost predicate CommitState(es: seq<Entry>, i: int, protos: map<string, int>, obs: seq<nat>,
                              objs0: map<int, int>, l0: seq<int>, ev0: seq<Event>, objs: map<int, int>, l: seq<int>, ev: seq<Event>)
  {
    && 0 <= i <= |es|
    && objs == objs0 - Doomed(es[..i], protos)
    && ev == ev0 + Deletions(obs, es[..i], protos, objs0)
    && (forall x :: x in l ==> x in l0)
    && (forall id :: id in objs0 ==> (objs0[id] in l <==> objs0[id] in l0 && id !in Doomed(es[..i], protos)))
  }

  /** Nothing is removed before the first entry. */
  lemma CommitStart(es: seq<Entry>, protos: map<string, int>, obs: seq<nat>, objs0: map<int, int>, l0: seq<int>, ev0: seq<Event>)
    ensures CommitState(es, 0, protos, obs, objs0, l0, ev0, objs0, l0, ev0)
  {
    assert es[..0] == [];
    assert Doomed([], protos) == {};
  }

  /** An entry whose removal takes effect: its id leaves the map, its proxy the list, and its callbacks are logged. */
  lemma CommitHit(es: seq<Entry>, i: nat, protos: map<string, int>, obs: seq<nat>, objs0: map<int, int>, l0: seq<int>, ev0: seq<Event>,
                  objs: map<int, int>, l: seq<int>, ev: seq<Event>, ps: seq<Proxy>)
    requires CommitState(es, i, protos, obs, objs0, l0, ev0, objs, l, ev) && i < |es| && Hits(es[i], protos, objs)
    requires Identities(objs, ps) && Distinct(l) && objs[es[i].obj.id] in l
    ensures CommitState(es, i + 1, protos, obs, objs0, l0, ev0, objs - {es[i].obj.id}, RemoveAt(l, Pos(l, objs[es[i].obj.id])),
                        ev + FanOut(obs, OnDelete, Some(es[i].obj)))
  {
    var id := es[i].obj.id;
    DoomedStep(es, i, protos);
    assert es[..i + 1][..i] == es[..i] && es[..i + 1][i] == es[i];
    RemoveDropsEntry(l, Pos(l, objs[id]));
    forall k | k in objs0
      ensures objs0[k] in RemoveAt(l, Pos(l, objs[id])) <==> objs0[k] in l0 && k !in Doomed(es[..i + 1], protos)
    {
      if k in objs && k != id {
        assert ps[objs[k]].id != ps[objs[id]].id;
      }
    }
  }

  /** An entry whose removal does not take effect changes nothing. */
  lemma CommitMiss(es: seq<Entry>, i: nat, protos: map<string, int>, obs: seq<nat>, objs0: map<int, int>, l0: seq<int>, ev0: seq<Event>,
                   objs: map<int, int>, l: seq<int>, ev: seq<Event>)
    requires CommitState(es, i, protos, obs, objs0, l0, ev0, objs, l, ev) && i < |es| && !Hits(es[i], protos, objs)
    ensures CommitState(es, i + 1, protos, obs, objs0, l0, ev0, objs, l, ev)
  {
    DoomedStep(es, i, protos);
    assert es[..i + 1][..i] == es[..i] && es[..i + 1][i] == es[i];
  }
}
