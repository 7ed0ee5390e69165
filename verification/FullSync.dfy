/**
 fullSync (pkg/apicapi/apic_sync.go:330-366): after a snapshot of the controller has been taken,
 every bucket of objects that carry one tag is compared with the objects of the key behind that
 tag, and keys without a bucket are added as a whole.

 Main results: the keyHashes map leads from each tag back to its key as long as no two keys share
 a tag (`HashesKeptIff`). Then the bucket-wise comparison finds every update that one comparison
 of everything would find (`FullSyncCovers`), lists the same deletes except that an object with
 another key's tag is listed as a whole (`DeletedIff`), and finds exactly the same updates and deletes
 when each object sits in the bucket of the key that wants it (`FullSyncIsExact`). After they are carried out
 a second full sync has nothing left to do (`SecondFullSync`), and on childless objects the full sync is
 the FullSync step of `SyncProtocol` (`FullSyncIsTouched`).
 */
module FullSync {
  import opened ApicTypes
  import opened ApicDiff
  import opened DnIndex
  import ApicConverge
  import Prepare
  import SyncProtocol

  /** The maps that fullSync reads; tagOf is getTagFromKey with the connection's prefix. */
  datatype View = View(md: Schema, containers: set<string>, cached: Store, desired: Store,
                       hashes: map<string, string>, tagOf: string -> string)

  /** A tag that is not in keyHashes gives the empty key, as a missing map entry does. */
  function Want(v: View, tag: string): seq<Obj> {
    ObjectsOf(v.desired, if tag in v.hashes then v.hashes[tag] else "")
  }

  function Current(v: View, tag: string): seq<Obj> {
    Prepare.Sort(ObjectsOf(v.cached, tag))
  }

  predicate Has(store: Store, key: string, o: Obj) {
    key in store && o in store[key]
  }

  ghost predicate IsUpdate(v: View, d: Obj) {
    || (exists tag :: tag in v.cached && d in Updates(v.md, v.containers, Current(v, tag), Want(v, tag)))
    || (exists key :: Has(v.desired, key, d) && v.tagOf(key) !in v.cached)
  }

  ghost predicate IsDelete(v: View, x: string) {
    exists tag :: tag in v.cached && x in ForestDeletes(v.md, v.containers, Current(v, tag), Want(v, tag))
  }

  /** What prepareApicCache leaves: buckets hold distinct objects with sorted children. */
  ghost predicate Cached(cached: Store) {
    forall t :: t in cached ==> Prepare.DistinctSiblings(cached[t]) && ChildrenSorted(cached[t])
  }

  ghost predicate Diffable(v: View) {
    Cached(v.cached) && forall k :: k in v.desired ==> SortedForest(v.desired[k])
  }

  ghost predicate ChildrenSorted(f: seq<Obj>) {
    forall i :: 0 <= i < |f| ==> SortedForest(f[i].children)
  }

  /** keyHashes inverts the tags of the wanted keys. */
  ghost predicate Hashed(desired: Store, hashes: map<string, string>, tagOf: string -> string) {
    && (forall k :: k in desired ==> tagOf(k) in hashes && hashes[tagOf(k)] == k)
    && (forall t :: t in hashes ==> hashes[t] in desired && tagOf(hashes[t]) == t)
  }

  // ----- keyHashes -----

  /** keyHashes at the end of doWriteApicObjects: None clears the key. */
  function Rehashed(hashes: map<string, string>, tag: string, key: string, objects: Option<seq<Obj>>):
    map<string, string>
  {
    if objects.Some? then hashes[tag := key] else hashes - {tag}
  }

  /** A write keeps the hashes usable exactly when no other key in use has the same tag. */
  lemma HashesKeptIff(desired: Store, hashes: map<string, string>, tagOf: string -> string, key: string,
                      objects: Option<seq<Obj>>)
    requires Hashed(desired, hashes, tagOf)
    ensures Hashed(Written(desired, key, objects), Rehashed(hashes, tagOf(key), key, objects), tagOf) <==>
      forall k :: k in desired && tagOf(k) == tagOf(key) ==> k == key
  {
    if objects.Some? {
      PutHashed(desired, hashes, tagOf, key, objects.value);
    } else {
      DropHashed(desired, hashes, tagOf, key);
    }
  }

  lemma PutHashed(desired: Store, hashes: map<string, string>, tagOf: string -> string, key: string, f: seq<Obj>)
    requires Hashed(desired, hashes, tagOf)
    ensures Hashed(desired[key := f], hashes[tagOf(key) := key], tagOf) <==>
      forall k :: k in desired && tagOf(k) == tagOf(key) ==> k == key
  {
    var tag := tagOf(key);
    var d, h := desired[key := f], hashes[tag := key];
    forall k | k in desired && tagOf(k) == tag && k != key ensures !Hashed(d, h, tagOf) { assert k in d; }
    if forall k :: k in desired && tagOf(k) == tag ==> k == key {
      forall t | t in h ensures h[t] in d && tagOf(h[t]) == t {}
      forall k | k in d ensures tagOf(k) in h && h[tagOf(k)] == k {}
    }
  }

  lemma DropHashed(desired: Store, hashes: map<string, string>, tagOf: string -> string, key: string)
    requires Hashed(desired, hashes, tagOf)
    ensures Hashed(desired - {key}, hashes - {tagOf(key)}, tagOf) <==>
      forall k :: k in desired && tagOf(k) == tagOf(key) ==> k == key
  {
    var tag := tagOf(key);
    var d, h := desired - {key}, hashes - {tag};
    forall k | k in desired && tagOf(k) == tag && k != key ensures !Hashed(d, h, tagOf) { assert k in d; }
    if forall k :: k in desired && tagOf(k) == tag ==> k == key {
      forall t | t in h ensures h[t] in d && tagOf(h[t]) == t { assert h[t] == hashes[t]; }
      forall k | k in d ensures tagOf(k) in h && h[tagOf(k)] == k {}
    }
  }

  // ----- The loops -----

  lemma SortReady(f: seq<Obj>)
    requires Prepare.DistinctSiblings(f) && ChildrenSorted(f)
    ensures SortedForest(Prepare.Sort(f))
  {
    Prepare.SortAscending(f);
    Prepare.SortDistinct(f);
    Prepare.SameElements(f);
    var s := Prepare.Sort(f);
    Prepare.AscendingDistinct(s);
    forall i | 0 <= i < |s| ensures SortedForest(s[i].children) {
      assert s[i] in f;
    }
  }

  lemma UpdatesOfNothing(md: Schema, containers: set<string>, desired: seq<Obj>)
    ensures forall d :: d in Updates(md, containers, [], desired) <==> d in desired
  {
    forall d ensures d in Updates(md, containers, [], desired) <==> d in desired {
      UpdatesExact(md, containers, [], desired, d);
    }
  }

  ghost predicate BucketsDone(v: View, todo: set<string>, updates: seq<Obj>, deletes: seq<string>) {
    && (forall d :: d in updates <==>
          exists tag :: tag in v.cached.Keys - todo && d in Updates(v.md, v.containers, Current(v, tag), Want(v, tag)))
    && (forall x :: x in deletes <==>
          exists tag :: tag in v.cached.Keys - todo &&
            x in ForestDeletes(v.md, v.containers, Current(v, tag), Want(v, tag)))
  }

  ghost predicate KeysDone(v: View, todo: set<string>, updates: seq<Obj>) {
    forall d :: d in updates <==>
      exists key :: key in v.desired.Keys - todo && d in v.desired[key] && v.tagOf(key) !in v.cached
  }

  lemma BucketStep(v: View, todo: set<string>, updates: seq<Obj>, deletes: seq<string>, tag: string)
    requires BucketsDone(v, todo, updates, deletes) && tag in todo && todo <= v.cached.Keys
    ensures BucketsDone(v, todo - {tag}, updates + Updates(v.md, v.containers, Current(v, tag), Want(v, tag)),
                        deletes + ForestDeletes(v.md, v.containers, Current(v, tag), Want(v, tag)))
  {
    hide Updates, ForestDeletes, Current, Want;
    assert v.cached.Keys - (todo - {tag}) == v.cached.Keys - todo + {tag};
  }

  lemma KeyStep(v: View, todo: set<string>, updates: seq<Obj>, key: string, more: seq<Obj>)
    requires KeysDone(v, todo, updates) && key in todo && todo <= v.desired.Keys
    requires forall d :: d in more <==> d in v.desired[key] && v.tagOf(key) !in v.cached
    ensures KeysDone(v, todo - {key}, updates + more)
  {
    assert v.desired.Keys - (todo - {key}) == v.desired.Keys - todo + {key};
  }

  lemma AllDone(v: View, w: View, updates: seq<Obj>, added: seq<Obj>, deletes: seq<string>)
    requires w == v.(cached := w.cached) && w.cached.Keys == v.cached.Keys
    requires BucketsDone(v, {}, updates, deletes) && KeysDone(w, {}, added)
    ensures forall d :: d in updates + added <==> IsUpdate(v, d)
    ensures forall x :: x in deletes <==> IsDelete(v, x)
  {
    hide Updates, ForestDeletes, Current, Want;
    assert v.cached.Keys - {} == v.cached.Keys && v.desired.Keys - {} == v.desired.Keys;
  }

  // ----- What the bucket-wise comparison schedules -----

  /** The objects of an empty key are compared with every bucket whose tag is unknown, too. */
  ghost predicate StrayUpdate(v: View, d: Obj) {
    Has(v.desired, "", d) &&
    exists t :: t in v.cached && t !in v.hashes && NeedsUpdate(v.md, v.containers, Current(v, t), d)
  }

  /** The object is wanted by key `k`, whose bucket lacks it or holds it differently. */
  ghost predicate Needed(v: View, k: string, d: Obj) {
    Has(v.desired, k, d) && NeedsUpdate(v.md, v.containers, Current(v, v.tagOf(k)), d)
  }

  /** An object is updated exactly when its own key's bucket lacks it or holds it differently, or as a stray update. */
  lemma UpdatedIff(v: View, d: Obj)
    requires Hashed(v.desired, v.hashes, v.tagOf)
    ensures IsUpdate(v, d) <==> (exists k :: Needed(v, k, d)) || StrayUpdate(v, d)
  {
    forall t ensures d in Updates(v.md, v.containers, Current(v, t), Want(v, t)) <==>
      d in Want(v, t) && NeedsUpdate(v.md, v.containers, Current(v, t), d)
    {
      UpdatesExact(v.md, v.containers, Current(v, t), Want(v, t), d);
    }
    hide Updates, NeedsUpdate;
    if k :| Needed(v, k, d) {
      var tag := v.tagOf(k);
      assert Want(v, tag) == v.desired[k];
      if tag in v.cached { assert d in Updates(v.md, v.containers, Current(v, tag), Want(v, tag)); }
    }
    if StrayUpdate(v, d) {
      var t :| t in v.cached && t !in v.hashes && NeedsUpdate(v.md, v.containers, Current(v, t), d);
      assert Want(v, t) == v.desired[""];
      assert d in Updates(v.md, v.containers, Current(v, t), Want(v, t));
    }
    if t :| t in v.cached && d in Updates(v.md, v.containers, Current(v, t), Want(v, t)) {
      if t in v.hashes { assert Needed(v, v.hashes[t], d); }
    }
    if k :| Has(v.desired, k, d) && v.tagOf(k) !in v.cached {
      MissingIsNeeded(v, k, d);
      assert Needed(v, k, d);
    }
  }

  lemma MissingIsNeeded(v: View, k: string, d: Obj)
    requires v.tagOf(k) !in v.cached
    ensures NeedsUpdate(v.md, v.containers, Current(v, v.tagOf(k)), d)
  {
  }

  lemma SortOne(o: Obj)
    ensures Prepare.Sort([o]) == [o]
  {
    assert [o][1..] == [];
  }

  /** An object that is in place is updated all the same, when its key is empty and a bucket has an unknown tag. */
  lemma EmptyKeyIsRescheduled(o: Obj, c: Obj, tagOf: string -> string, stray: string)
    requires o.children == [] && c.children == [] && Dn(c) != Dn(o) && stray != tagOf("")
    ensures var v := View(map[], {}, map[tagOf("") := [o], stray := [c]], map["" := [o]], map[tagOf("") := ""], tagOf);
      && Hashed(v.desired, v.hashes, v.tagOf) && Diffable(v) && IsUpdate(v, o)
      && !exists k :: Needed(v, k, o)
  {
    var v := View(map[], {}, map[tagOf("") := [o], stray := [c]], map["" := [o]], map[tagOf("") := ""], tagOf);
    SortOne(o);
    SortOne(c);
    assert Current(v, tagOf("")) == [o] && Current(v, stray) == [c];
    assert Lookup([o], Dn(o)) == Some(o) && Lookup([c], Dn(o)) == None by { assert [c][1..] == []; }
    assert StrayUpdate(v, o);
    UpdatedIff(v, o);
  }

  lemma CurrentHas(v: View, tag: string, o: Obj)
    ensures o in Current(v, tag) <==> Has(v.cached, tag, o)
  {
    Prepare.SameElements(ObjectsOf(v.cached, tag));
  }

  /** A deletable object that no key wants is deleted, whichever bucket it is in. */
  lemma UnwantedIsDeleted(v: View, t: string, c: Obj)
    requires Has(v.cached, t, c) && Deletable(v.md, c.cls) && forall k, d :: Has(v.desired, k, d) ==> Dn(d) != Dn(c)
    ensures IsDelete(v, Dn(c))
  {
    CurrentHas(v, t, c);
    var i :| 0 <= i < |Current(v, t)| && Current(v, t)[i] == c;
    var m := Lookup(Want(v, t), Dn(c));
    if m.Some? { assert Has(v.desired, if t in v.hashes then v.hashes[t] else "", m.value); }
    assert TopDelete(v.md, v.containers, Current(v, t)[i], Want(v, t), Dn(c));
    ForestDeletesExact(v.md, v.containers, Current(v, t), Want(v, t), Dn(c));
  }

  // ----- Against one comparison of everything -----

  /** One sorted forest of all the store's top-level objects. */
  ghost predicate IsFlat(store: Store, f: seq<Obj>) {
    SortedForest(f) && forall o :: o in f <==> exists k :: Has(store, k, o)
  }

  /** An object on the controller carries the tag of the key that wants it. */
  ghost predicate Filed(v: View) {
    forall t, c, k, d :: Has(v.cached, t, c) && Has(v.desired, k, d) && Dn(c) == Dn(d) ==> t == v.tagOf(k)
  }

  lemma FlatLookup(store: Store, f: seq<Obj>, k: string, o: Obj)
    requires IsFlat(store, f) && Has(store, k, o)
    ensures Lookup(f, Dn(o)) == Some(o)
  {
    assert o in f;
    var i :| 0 <= i < |f| && f[i] == o;
    LookupAt(f, i);
  }

  /**
   Every update that comparing everything with everything would find is scheduled, and every
   top-level delete, also for objects that carry another key's tag. `DeletedIff` has all deletes.
   */
  lemma FullSyncCovers(v: View, remote: seq<Obj>, wanted: seq<Obj>)
    requires Hashed(v.desired, v.hashes, v.tagOf) && IsFlat(v.cached, remote) && IsFlat(v.desired, wanted)
    ensures forall d :: d in Updates(v.md, v.containers, remote, wanted) ==> IsUpdate(v, d)
    ensures forall c :: c in remote && Lookup(wanted, Dn(c)).None? && Deletable(v.md, c.cls) ==> IsDelete(v, Dn(c))
  {
    forall d | d in Updates(v.md, v.containers, remote, wanted) ensures IsUpdate(v, d) {
      UpdatesExact(v.md, v.containers, remote, wanted, d);
      var k :| Has(v.desired, k, d);
      var m := Lookup(Current(v, v.tagOf(k)), Dn(d));
      if m.Some? {
        CurrentHas(v, v.tagOf(k), m.value);
        FlatLookup(v.cached, remote, v.tagOf(k), m.value);
      }
      assert Needed(v, k, d);
      UpdatedIff(v, d);
    }
    forall c | c in remote && Lookup(wanted, Dn(c)).None? && Deletable(v.md, c.cls) ensures IsDelete(v, Dn(c)) {
      var t :| Has(v.cached, t, c);
      forall k, d | Has(v.desired, k, d) ensures Dn(d) != Dn(c) { FlatLookup(v.desired, wanted, k, d); }
      UnwantedIsDeleted(v, t, c);
    }
  }

  lemma FiledNeeds(v: View, remote: seq<Obj>, k: string, d: Obj)
    requires Filed(v) && IsFlat(v.cached, remote) && Has(v.desired, k, d)
    ensures NeedsUpdate(v.md, v.containers, Current(v, v.tagOf(k)), d) <==> NeedsUpdate(v.md, v.containers, remote, d)
  {
    var here, there := Lookup(Current(v, v.tagOf(k)), Dn(d)), Lookup(remote, Dn(d));
    if here.Some? {
      CurrentHas(v, v.tagOf(k), here.value);
      FlatLookup(v.cached, remote, v.tagOf(k), here.value);
    }
    if there.Some? {
      var t :| Has(v.cached, t, there.value);
      CurrentHas(v, t, there.value);
    }
    assert here == there;
    hide Lookup;
  }

  /**
   With objects filed under their keys' tags, the bucket-wise comparison schedules exactly what one
   comparison of all buckets with all wanted trees would, containers and nested deletes included,
   and stray updates.
   */
  lemma FullSyncIsExact(v: View, remote: seq<Obj>, wanted: seq<Obj>)
    requires Hashed(v.desired, v.hashes, v.tagOf) && Diffable(v) && Filed(v)
    requires IsFlat(v.cached, remote) && IsFlat(v.desired, wanted)
    ensures forall d :: IsUpdate(v, d) <==> d in Updates(v.md, v.containers, remote, wanted) || StrayUpdate(v, d)
    ensures forall x :: IsDelete(v, x) <==> x in ForestDeletes(v.md, v.containers, remote, wanted)
  {
    forall d ensures IsUpdate(v, d) <==> d in Updates(v.md, v.containers, remote, wanted) || StrayUpdate(v, d) {
      UpdatedIff(v, d);
      UpdatesExact(v.md, v.containers, remote, wanted, d);
      forall k | Has(v.desired, k, d)
        ensures Needed(v, k, d) <==> NeedsUpdate(v.md, v.containers, remote, d)
      {
        FiledNeeds(v, remote, k, d);
      }
    }
    forall x ensures IsDelete(v, x) <==> x in ForestDeletes(v.md, v.containers, remote, wanted) {
      FiledDeletes(v, remote, wanted, x);
    }
  }

  /** Deletes are decided object by object. */
  lemma DeletesIn(md: Schema, containers: set<string>, current: seq<Obj>, desired: seq<Obj>, x: string)
    ensures x in ForestDeletes(md, containers, current, desired) <==>
      exists c :: c in current && TopDelete(md, containers, c, desired, x)
  {
    ForestDeletesExact(md, containers, current, desired, x);
    hide TopDelete, ForestDeletes;
    if c :| c in current && TopDelete(md, containers, c, desired, x) {
      var i :| 0 <= i < |current| && current[i] == c;
    }
  }

  lemma SameTopDelete(md: Schema, containers: set<string>, c: Obj, ds: seq<Obj>, es: seq<Obj>, x: string)
    requires Lookup(ds, Dn(c)) == Lookup(es, Dn(c))
    ensures TopDelete(md, containers, c, ds, x) <==> TopDelete(md, containers, c, es, x)
  {
  }

  /** The object is wanted, but not by the key of its tag. */
  ghost predicate Misfiled(v: View, t: string, c: Obj) {
    Lookup(Want(v, t), Dn(c)).None? && exists k, d :: Has(v.desired, k, d) && Dn(d) == Dn(c)
  }

  /** What is listed for one object: as in one comparison of everything, but a misfiled object as a whole. */
  ghost predicate TagDelete(v: View, wanted: seq<Obj>, t: string, c: Obj, x: string) {
    if Misfiled(v, t, c) then Deletable(v.md, c.cls) && x == Dn(c) else TopDelete(v.md, v.containers, c, wanted, x)
  }

  lemma TagDeleteIs(v: View, wanted: seq<Obj>, t: string, c: Obj, x: string)
    requires IsFlat(v.desired, wanted)
    ensures TopDelete(v.md, v.containers, c, Want(v, t), x) <==> TagDelete(v, wanted, t, c, x)
  {
    var here, there := Lookup(Want(v, t), Dn(c)), Lookup(wanted, Dn(c));
    if here.Some? { FlatLookup(v.desired, wanted, if t in v.hashes then v.hashes[t] else "", here.value); }
    if there.Some? {
      var k :| Has(v.desired, k, there.value);
      assert here.None? ==> Misfiled(v, t, c);
    }
    if !Misfiled(v, t, c) { SameTopDelete(v.md, v.containers, c, Want(v, t), wanted, x); }
  }

  lemma BucketDeletes(v: View, wanted: seq<Obj>, t: string, x: string)
    requires IsFlat(v.desired, wanted)
    ensures x in ForestDeletes(v.md, v.containers, Current(v, t), Want(v, t)) <==>
      exists c :: Has(v.cached, t, c) && TagDelete(v, wanted, t, c, x)
  {
    DeletesIn(v.md, v.containers, Current(v, t), Want(v, t), x);
    forall c ensures c in Current(v, t) <==> Has(v.cached, t, c) { CurrentHas(v, t, c); }
    forall c ensures TopDelete(v.md, v.containers, c, Want(v, t), x) <==> TagDelete(v, wanted, t, c, x) {
      TagDeleteIs(v, wanted, t, c, x);
    }
    hide *;
  }

  /** The delete list of a full sync, object by object and at every depth, wherever the objects are filed. */
  lemma DeletedIff(v: View, wanted: seq<Obj>, x: string)
    requires IsFlat(v.desired, wanted)
    ensures IsDelete(v, x) <==> exists t, c :: Has(v.cached, t, c) && TagDelete(v, wanted, t, c, x)
  {
    forall t ensures x in ForestDeletes(v.md, v.containers, Current(v, t), Want(v, t)) <==>
      exists c :: Has(v.cached, t, c) && TagDelete(v, wanted, t, c, x)
    {
      BucketDeletes(v, wanted, t, x);
    }
    hide ForestDeletes, Current, Want, TagDelete;
  }

  /**
   An object whose tag belongs to no key is put on the delete list although a key wants it. Its DN is queued
   either way, and the worker asks the index what to do.
   */
  lemma MisfiledIsListed(o: Obj, key: string, tagOf: string -> string, other: string)
    requires other != tagOf(key) && key != "" && o.children == []
    ensures var v := View(map[], {}, map[other := [o]], map[key := [o]], map[tagOf(key) := key], tagOf);
      Hashed(v.desired, v.hashes, v.tagOf) && Diffable(v) && IsDelete(v, Dn(o))
  {
    var v := View(map[], {}, map[other := [o]], map[key := [o]], map[tagOf(key) := key], tagOf);
    assert Want(v, other) == [] && Has(v.cached, other, o) && Has(v.desired, key, o);
    assert [o][0] == o && Lookup([o], Dn(o)) == Some(o);
    assert IsFlat(v.desired, [o]) by { assert forall x :: x in [o] ==> Has(v.desired, key, x); }
    assert Misfiled(v, other, o) && TagDelete(v, [o], other, o, Dn(o));
    DeletedIff(v, [o], Dn(o));
  }

  lemma FiledIsNotMisfiled(v: View, t: string, c: Obj)
    requires Hashed(v.desired, v.hashes, v.tagOf) && Filed(v) && Has(v.cached, t, c)
    ensures !Misfiled(v, t, c)
  {
    if k, d :| Has(v.desired, k, d) && Dn(d) == Dn(c) {
      assert t == v.tagOf(k) && Want(v, t) == v.desired[k];
    }
  }

  lemma FiledDeletes(v: View, remote: seq<Obj>, wanted: seq<Obj>, x: string)
    requires Hashed(v.desired, v.hashes, v.tagOf) && Filed(v)
    requires IsFlat(v.cached, remote) && IsFlat(v.desired, wanted)
    ensures IsDelete(v, x) <==> x in ForestDeletes(v.md, v.containers, remote, wanted)
  {
    DeletesIn(v.md, v.containers, remote, wanted, x);
    DeletedIff(v, wanted, x);
    forall t, c | Has(v.cached, t, c)
      ensures c in remote && (TagDelete(v, wanted, t, c, x) <==> TopDelete(v.md, v.containers, c, wanted, x))
    {
      FiledIsNotMisfiled(v, t, c);
    }
    hide TopDelete, ForestDeletes, TagDelete, Hashed, Filed;
    if c :| c in remote && TopDelete(v.md, v.containers, c, wanted, x) {
      var t :| Has(v.cached, t, c);
      assert TagDelete(v, wanted, t, c, x);
    }
  }

  /**
   Once everything a full sync scheduled has been carried out, a second one finds nothing to
   delete, and nothing to update exactly when every object it matched was settable.
   */
  lemma SecondFullSync(v: View, remote: seq<Obj>, wanted: seq<Obj>, w: View)
    requires Hashed(v.desired, v.hashes, v.tagOf) && "" !in v.desired
    requires Diffable(v) && Filed(v) && IsFlat(v.cached, remote) && IsFlat(v.desired, wanted)
    requires UniqueForest(remote) && ApicConverge.ForestSameClasses(remote, wanted)
    requires w == v.(cached := w.cached) && Diffable(w) && Filed(w)
    requires IsFlat(w.cached, ApicConverge.Applied(v.md, v.containers, remote, wanted))
    ensures forall x :: !IsDelete(w, x)
    ensures (forall d :: !IsUpdate(w, d)) <==> ApicConverge.ForestSettable(v.md, v.containers, remote, wanted)
  {
    var after := ApicConverge.Applied(v.md, v.containers, remote, wanted);
    ApicConverge.DiffConverges(v.md, v.containers, remote, wanted);
    FullSyncIsExact(w, after, wanted);
    assert forall d :: !StrayUpdate(w, d);
    hide *;
    var updates := Updates(v.md, v.containers, after, wanted);
    assert updates != [] ==> updates[0] in updates;
  }

  // ----- The FullSync step of the protocol -----

  /** On the protocol's objects, a full sync queues exactly the DNs on which snapshot and index disagree. */
  lemma FullSyncIsTouched(v: View, remote: seq<Obj>, wanted: seq<Obj>, x: string)
    requires Hashed(v.desired, v.hashes, v.tagOf) && Diffable(v) && Filed(v) && "" !in v.desired && v.containers == {}
    requires IsFlat(v.cached, remote) && IsFlat(v.desired, wanted)
    requires SyncProtocol.Childless(remote) && SyncProtocol.Childless(wanted)
    requires forall o :: o in remote ==> Deletable(v.md, o.cls)
    requires forall c, d :: c in remote && d in wanted && Dn(c) == Dn(d) ==> c.cls == d.cls
    ensures (IsDelete(v, x) || exists d :: IsUpdate(v, d) && Dn(d) == x) <==>
      x in SyncProtocol.Touched(SyncProtocol.Values(v.md, remote), SyncProtocol.Values(v.md, wanted))
  {
    FullSyncIsExact(v, remote, wanted);
    assert forall d :: !StrayUpdate(v, d);
    SyncProtocol.TouchedIsDiff(v.md, remote, wanted, x);
  }
}
