/**
 The locked sections of apicapi.ApicConnection that change the wanted state and compare it with a
 snapshot (pkg/apicapi/apic_sync.go:330-505), on the fields they change.

 `Valid` holds over any sequence of writes, clears and full syncs: the DN index covers every wanted
 object (`DnIndex`), and tags lead back to their keys (`FullSync`).
 */
module ApicConnection {
  import opened ApicTypes
  import opened ApicDiff
  import opened DnIndex
  import opened FullSync
  import Prepare

  class Connection {
    const md: Schema
    const tagOf: string -> string      // getTagFromKey with the connection's prefix
    ghost const scheme: Scheme
    var desiredState: Store
    var desiredStateDn: map<string, Obj>
    var containerDns: set<string>
    var keyHashes: map<string, string>
    var cachedState: Store
    var syncEnabled: bool

    constructor (md: Schema, tagOf: string -> string, ghost scheme: Scheme)
      ensures this.md == md && this.tagOf == tagOf && this.scheme == scheme
      ensures desiredState == map[] && cachedState == map[] && containerDns == {} && !syncEnabled
      ensures Valid() && Exact()
    {
      this.md, this.tagOf := md, tagOf;
      this.scheme := scheme;
      desiredState, desiredStateDn, containerDns := map[], map[], {};
      keyHashes, cachedState, syncEnabled := map[], map[], false;
    }

    ghost predicate Valid()
      reads this
    {
      CoveredBy(scheme, desiredState, desiredStateDn) && Hashed(desiredState, keyHashes, tagOf)
    }

    ghost predicate Exact()
      reads this
    {
      NothingElse(desiredState, desiredStateDn)
    }

    ghost function Now(): View
      reads this
    {
      View(md, containerDns, cachedState, desiredState, keyHashes, tagOf)
    }

    // ----- Writing -----

    method UpdateDnIndex(objects: seq<Obj>)
      modifies this`desiredStateDn
      ensures desiredStateDn == AddAll(old(desiredStateDn), objects)
      decreases objects
    {
      assert objects[..|objects|] == objects;
      for i := 0 to |objects|
        invariant desiredStateDn == AddAll(old(desiredStateDn), objects[..i])
      {
        assert objects[..i + 1][..i] == objects[..i];
        if Dn(objects[i]) != "" {
          desiredStateDn := desiredStateDn[Dn(objects[i]) := objects[i]];
          UpdateDnIndex(objects[i].children);
        }
      }
    }

    method RemoveFromDnIndex(dn: string)
      modifies this`desiredStateDn
      ensures desiredStateDn == RemoveDn(old(desiredStateDn), dn)
      decreases desiredStateDn.Keys
    {
      if dn == "" || dn !in desiredStateDn { return; }
      var children := desiredStateDn[dn].children;
      desiredStateDn := desiredStateDn - {dn};
      ghost var start := desiredStateDn;
      for i := 0 to |children|
        invariant desiredStateDn.Keys <= start.Keys
        invariant RemoveChildren(desiredStateDn, children[i..]) == RemoveChildren(start, children)
      {
        assert children[i..][0] == children[i] && children[i..][1..] == children[i + 1..];
        RemoveFromDnIndex(Dn(children[i]));
      }
    }

    /** The part of doWriteApicObjects that looks deleted redirect policies up; it stops at the first miss. */
    method FindRedirectDests(deletes: seq<string>) returns (extra: seq<string>, missed: bool)
      ensures missed <==> exists d :: d in deletes && Contains(d, "svcRedirectPol") && d !in desiredStateDn
      ensures !missed ==> extra == ExtraDeletes(desiredStateDn, deletes)
      ensures !missed ==> forall x :: x in extra <==> exists d :: d in deletes && IsDestOf(desiredStateDn, d, x)
    {
      hide Contains, Dn, IsDestOf;
      extra, missed := [], false;
      assert deletes[..|deletes|] == deletes;
      for i := 0 to |deletes|
        invariant forall d :: d in deletes[..i] && Contains(d, "svcRedirectPol") ==> d in desiredStateDn
        invariant extra == ExtraDeletes(desiredStateDn, deletes[..i])
      {
        assert deletes[..i + 1][..i] == deletes[..i];
        if Contains(deletes[i], "svcRedirectPol") {
          if deletes[i] !in desiredStateDn { return [], true; }
          var cs := desiredStateDn[deletes[i]].children;
          ghost var before := extra;
          assert cs[..|cs|] == cs;
          for j := 0 to |cs|
            invariant extra == before + RedirectDests(cs[..j])
          {
            assert cs[..j + 1][..j] == cs[..j];
            if cs[j].cls == "vnsRedirectDest" { extra := extra + [Dn(cs[j])]; }
          }
        }
      }
      forall x ensures x in extra <==> exists d :: d in deletes && IsDestOf(desiredStateDn, d, x) {
        ExtraDeletesAre(desiredStateDn, deletes, x);
      }
    }

    /** The loop over the deletes. */
    method Unindex(deletes: seq<string>, container: bool)
      modifies `desiredStateDn, `containerDns
      ensures desiredStateDn == RemoveList(old(desiredStateDn), deletes)
      ensures containerDns == if container then old(containerDns) - (set x | x in deletes) else old(containerDns)
    {
      assert deletes[..|deletes|] == deletes;
      for i := 0 to |deletes|
        invariant desiredStateDn == RemoveList(old(desiredStateDn), deletes[..i])
        invariant containerDns ==
          if container then old(containerDns) - (set x | x in deletes[..i]) else old(containerDns)
      {
        assert deletes[..i + 1][..i] == deletes[..i];
        RemoveFromDnIndex(deletes[i]);
        if container { containerDns := containerDns - {deletes[i]}; }
      }
    }

    /** The loop over the updates. */
    method MarkContainers(updates: seq<Obj>, container: bool)
      modifies `containerDns
      ensures containerDns ==
        if container then old(containerDns) + (set u | u in updates :: Dn(u)) else old(containerDns)
    {
      assert updates[..|updates|] == updates;
      for i := 0 to |updates|
        invariant containerDns ==
          if container then old(containerDns) + (set u | u in updates[..i] :: Dn(u)) else old(containerDns)
      {
        assert updates[..i + 1] == updates[..i] + [updates[i]];
        if container { containerDns := containerDns + {Dn(updates[i])}; }
      }
    }

    /**
     doWriteApicObjects on prepared objects; None clears the key. `missed` stands for the early
     return that would leave the lock held. Nothing is queued while synchronization is off.
     */
    method WriteObjects(key: string, objects: Option<seq<Obj>>, container: bool)
      returns (updates: seq<Obj>, deletes: seq<string>, queued: bool, missed: bool)
      requires Valid() && MayWrite(scheme, desiredState, key, objects)
      modifies `desiredState, `desiredStateDn, `containerDns, `keyHashes
      ensures !missed && queued == syncEnabled
      ensures CoveredBy(scheme, desiredState, desiredStateDn)
      ensures Valid() <==> forall k :: k in old(desiredState) && tagOf(k) == tagOf(key) ==> k == key
      ensures desiredState == Written(old(desiredState), key, objects)
      ensures keyHashes == Rehashed(old(keyHashes), tagOf(key), key, objects)
      ensures var before, after := ObjectsOf(old(desiredState), key), ObjectsOf(desiredState, key);
        && updates == Updates(md, old(containerDns), before, after)
        && deletes == AllDeletes(old(desiredStateDn), ForestDeletes(md, old(containerDns), before, after))
        && (forall x :: x in deletes <==> IsWriteDelete(md, old(containerDns), old(desiredStateDn), before, after, x))
        && (forall x :: x in deletes ==> x in Dns(before) && x !in Dns(after))
        && desiredStateDn.Keys <= old(desiredStateDn).Keys + Dns(after)
        && (old(Exact()) ==> (Exact() <==> TopClears(md, old(containerDns), before, after)))
      ensures containerDns ==
        if container then (old(containerDns) - (set x | x in deletes)) + (set u | u in updates :: Dn(u))
        else old(containerDns)
    {
      hide CoveredBy, NothingElse, MayWrite, TopClears, Updates, ForestDeletes, AddAll, RemoveList, ExtraDeletes,
        WellFormed, SortedForest, Dns, TopGone, Contains, Hashed, AllDeletes, IsWriteDelete,
        IsDestOf;
      ghost var store, ix := desiredState, desiredStateDn;
      StoreParts(scheme, store, ix, key, objects);
      WriteDeletes(scheme, md, containerDns, store, ix, key, objects);
      WriteEffect(scheme, md, containerDns, store, ix, key, objects);
      ghost var wanted := if objects.Some? then objects.value else [];
      forall x { WriteDeletesAre(md, containerDns, ix, ObjectsOf(store, key), wanted, x); }
      HashesKeptIff(desiredState, keyHashes, tagOf, key, objects);
      var tag := tagOf(key);
      var before := ObjectsOf(desiredState, key);
      var after := if objects.Some? then objects.value else [];
      updates, deletes := DiffApicState(md, containerDns, before, after);
      var extra;
      extra, missed := FindRedirectDests(deletes);
      queued := syncEnabled;
      if missed { return; }
      AllDeletesAre(ix, deletes);
      deletes := deletes + extra;
      UpdateDnIndex(after);
      Unindex(deletes, container);
      MarkContainers(updates, container);
      if objects.None? {
        desiredState, keyHashes := desiredState - {key}, keyHashes - {tag};
      } else {
        desiredState, keyHashes := desiredState[key := after], keyHashes[tag := key];
      }
    }

    // ----- The full sync -----

    /** The loop over the buckets, each of which it sorts in place. */
    method DiffBuckets() returns (updates: seq<Obj>, deletes: seq<string>)
      requires Valid() && Cached(cachedState)
      modifies `cachedState
      ensures BucketsDone(old(Now()), {}, updates, deletes)
      ensures cachedState.Keys == old(cachedState.Keys)
      ensures forall t :: t in cachedState ==> cachedState[t] == Prepare.Sort(old(cachedState[t]))
    {
      ghost var v := Now();
      updates, deletes := [], [];
      var todo := cachedState.Keys;
      assert BucketsDone(v, todo, updates, deletes);
      hide BucketsDone, SortedForest, Updates, ForestDeletes, Prepare.Sort;
      while todo != {}
        invariant todo <= cachedState.Keys == old(cachedState.Keys)
        invariant forall t :: t in cachedState ==>
          cachedState[t] == if t in todo then old(cachedState[t]) else Prepare.Sort(old(cachedState[t]))
        invariant BucketsDone(v, todo, updates, deletes)
        decreases todo
      {
        var tag :| tag in todo;
        SortReady(cachedState[tag]);
        cachedState := cachedState[tag := Prepare.Sort(cachedState[tag])];
        var key := if tag in keyHashes then keyHashes[tag] else "";
        var u, d := DiffApicState(md, containerDns, cachedState[tag], ObjectsOf(desiredState, key));
        BucketStep(v, todo, updates, deletes, tag);
        updates, deletes, todo := updates + u, deletes + d, todo - {tag};
      }
    }

    /** The loop over the keys that have no bucket. */
    method MissingKeys() returns (updates: seq<Obj>)
      requires Valid()
      ensures KeysDone(Now(), {}, updates)
    {
      updates := [];
      var todo := desiredState.Keys;
      assert KeysDone(Now(), todo, updates);
      hide KeysDone, SortedForest, Updates, ForestDeletes;
      while todo != {}
        invariant todo <= desiredState.Keys && KeysDone(Now(), todo, updates)
        decreases todo
      {
        var key :| key in todo;
        var more := [];
        if tagOf(key) !in cachedState {
          var a, _ := DiffApicState(md, containerDns, [], desiredState[key]);
          more := a;
          UpdatesOfNothing(md, containerDns, desiredState[key]);
        }
        KeyStep(Now(), todo, updates, key, more);
        updates, todo := updates + more, todo - {key};
      }
    }

    /** The locked section of fullSync. */
    method FullSync() returns (updates: seq<Obj>, deletes: seq<string>)
      requires Valid() && Cached(cachedState)
      modifies `cachedState, `syncEnabled
      ensures forall d :: d in updates <==> IsUpdate(old(Now()), d)
      ensures forall x :: x in deletes <==> IsDelete(old(Now()), x)
      ensures Valid() && syncEnabled && cachedState.Keys == old(cachedState.Keys)
      ensures forall t :: t in cachedState ==> cachedState[t] == Prepare.Sort(old(cachedState[t]))
    {
      ghost var v := Now();
      updates, deletes := DiffBuckets();
      var added := MissingKeys();
      AllDone(v, Now(), updates, added, deletes);
      updates := updates + added;
      syncEnabled := true;
    }
  }
}
