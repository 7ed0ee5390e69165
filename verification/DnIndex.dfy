/**
 The desired-state store and its flat DN index (pkg/apicapi/apic_sync.go:391-505).

 Two results hold over any sequence of writes and clears (`WriteEffect`). `CoveredBy`: every
 object at every depth of every key's tree is in the index, under its DN, as that very object.
 `NothingElse`: the index holds nothing else, and a write keeps it so if and only if every object
 it drops may be deleted and it drops nothing below a container that stays (`TopClears`). Since
 everything wanted is indexed, the lookup of a deleted redirect policy never takes its early return.

 Naming is given by a scheme: a DN fixes the class and the parent of the object it names.
 */
module DnIndex {
  import opened ApicTypes
  import opened ApicDiff

  datatype Place = Place(parent: Option<string>, cls: string)

  type Scheme = string -> Place

  ghost predicate WellPlaced(scheme: Scheme, f: seq<Obj>, parent: Option<string>)
    decreases f
  {
    forall i :: 0 <= i < |f| ==>
      scheme(Dn(f[i])) == Place(parent, f[i].cls) && WellPlaced(scheme, f[i].children, Some(Dn(f[i])))
  }

  ghost predicate WellFormed(scheme: Scheme, f: seq<Obj>) {
    SortedForest(f) && UniqueForest(f) && "" !in Dns(f) && WellPlaced(scheme, f, None)
  }

  /** Every object of the forest, at every depth, is indexed under its own DN. */
  ghost predicate Indexed(ix: map<string, Obj>, f: seq<Obj>)
    decreases f
  {
    forall i :: 0 <= i < |f| ==>
      Dn(f[i]) in ix && ix[Dn(f[i])] == f[i] && Indexed(ix, f[i].children)
  }

  /** The same, except for the DNs in `keep`. */
  ghost predicate IndexedOff(ix: map<string, Obj>, keep: set<string>, f: seq<Obj>)
    decreases f
  {
    forall i :: 0 <= i < |f| ==>
      (Dn(f[i]) !in keep ==> Dn(f[i]) in ix && ix[Dn(f[i])] == f[i]) && IndexedOff(ix, keep, f[i].children)
  }

  // ----- Adding a forest -----

  /** updateDnIndex: a nameless object and everything under it is skipped. */
  function AddAll(ix: map<string, Obj>, f: seq<Obj>): map<string, Obj>
    decreases f
  {
    if f == [] then ix
    else AddObj(AddAll(ix, f[..|f| - 1]), f[|f| - 1])
  }

  function AddObj(ix: map<string, Obj>, o: Obj): map<string, Obj>
    decreases o
  {
    if Dn(o) == "" then ix else AddAll(ix[Dn(o) := o], o.children)
  }

  lemma DnsSplit(f: seq<Obj>, n: nat)
    requires n < |f|
    ensures Dns(f[..n + 1]) == Dns(f[..n]) + DnsOf(f[n])
  {
    forall x ensures x in Dns(f[..n + 1]) <==> x in Dns(f[..n]) || x in DnsOf(f[n]) {
      if x in Dns(f[..n + 1]) {
        var i := DnsFrom(f[..n + 1], x);
        if i < n { DnsAt(f[..n], i); }
      }
      if x in Dns(f[..n]) {
        var i := DnsFrom(f[..n], x);
        DnsAt(f[..n + 1], i);
      }
      DnsAt(f[..n + 1], n);
    }
  }

  /** Adding touches only the forest's own DNs. */
  lemma {:induction false} AddAllFrame(ix: map<string, Obj>, f: seq<Obj>)
    ensures forall x :: x !in Dns(f) ==> (x in AddAll(ix, f) <==> x in ix) && (x in ix ==> AddAll(ix, f)[x] == ix[x])
    ensures AddAll(ix, f).Keys <= ix.Keys + Dns(f)
    ensures ix.Keys <= AddAll(ix, f).Keys
    decreases f
  {
    if f != [] {
      var n := |f| - 1;
      DnsSplit(f, n);
      assert f[..n + 1] == f;
      AddAllFrame(ix, f[..n]);
      AddObjFrame(AddAll(ix, f[..n]), f[n]);
    }
  }

  lemma {:induction false} AddObjFrame(ix: map<string, Obj>, o: Obj)
    ensures forall x :: x !in DnsOf(o) ==> (x in AddObj(ix, o) <==> x in ix) && (x in ix ==> AddObj(ix, o)[x] == ix[x])
    ensures AddObj(ix, o).Keys <= ix.Keys + DnsOf(o)
    ensures ix.Keys <= AddObj(ix, o).Keys
    decreases o
  {
    if Dn(o) != "" { AddAllFrame(ix[Dn(o) := o], o.children); }
  }

  /** An index that agrees on the forest's DNs indexes the forest too. */
  lemma {:induction false} IndexedFrame(ix: map<string, Obj>, ix': map<string, Obj>, f: seq<Obj>)
    requires Indexed(ix, f)
    requires forall x :: x in Dns(f) && x in ix ==> x in ix' && ix'[x] == ix[x]
    ensures Indexed(ix', f)
    decreases f
  {
    forall i | 0 <= i < |f|
      ensures Dn(f[i]) in ix' && ix'[Dn(f[i])] == f[i] && Indexed(ix', f[i].children)
    {
      DnsAt(f, i);
      IndexedFrame(ix, ix', f[i].children);
    }
  }

  lemma UniquePrefix(f: seq<Obj>, n: nat)
    requires UniqueForest(f) && n <= |f|
    ensures UniqueForest(f[..n])
  {
  }

  lemma EarlierApart(f: seq<Obj>, n: nat, x: string)
    requires UniqueForest(f) && n < |f| && x in Dns(f[..n])
    ensures x !in DnsOf(f[n])
  {
    var i := DnsFrom(f[..n], x);
    assert DnsOf(f[i]) !! DnsOf(f[n]);
  }

  lemma IndexedSnoc(ix: map<string, Obj>, f: seq<Obj>)
    requires f != [] && Indexed(ix, f[..|f| - 1])
    requires var o := f[|f| - 1]; Dn(o) in ix && ix[Dn(o)] == o && Indexed(ix, o.children)
    ensures Indexed(ix, f)
  {
    var n := |f| - 1;
    forall i | 0 <= i < |f| ensures Dn(f[i]) in ix && ix[Dn(f[i])] == f[i] && Indexed(ix, f[i].children) {
      if i < n { assert f[..n][i] == f[i]; }
    }
  }

  /** After updateDnIndex the whole forest is indexed. */
  lemma {:induction false} AddAllIndexes(ix: map<string, Obj>, f: seq<Obj>)
    requires UniqueForest(f) && "" !in Dns(f)
    ensures Indexed(AddAll(ix, f), f)
    decreases f, 1
  {
    if f != [] {
      var n := |f| - 1;
      DnsSplit(f, n);
      assert f[..n + 1] == f;
      UniquePrefix(f, n);
      AddAllIndexes(ix, f[..n]);
      var ix1 := AddAll(ix, f[..n]);
      var ix2 := AddObj(ix1, f[n]);
      assert AddAll(ix, f) == ix2;
      assert "" !in DnsOf(f[n]) && UniqueForest(f[n].children) && Dn(f[n]) !in Dns(f[n].children);
      hide *;
      AddObjIndexes(ix1, f[n]);
      AddObjFrame(ix1, f[n]);
      forall x | x in Dns(f[..n]) ensures x !in DnsOf(f[n]) { EarlierApart(f, n, x); }
      IndexedFrame(ix1, ix2, f[..n]);
      IndexedSnoc(ix2, f);
    }
  }

  lemma {:induction false} AddObjIndexes(ix: map<string, Obj>, o: Obj)
    requires "" !in DnsOf(o) && UniqueForest(o.children) && Dn(o) !in Dns(o.children)
    ensures var r := AddObj(ix, o); Dn(o) in r && r[Dn(o)] == o && Indexed(r, o.children)
    decreases o, 0
  {
    AddAllIndexes(ix[Dn(o) := o], o.children);
    AddAllFrame(ix[Dn(o) := o], o.children);
  }

  lemma {:induction false} IndexedDns(ix: map<string, Obj>, f: seq<Obj>)
    requires Indexed(ix, f)
    ensures Dns(f) <= ix.Keys
    decreases f
  {
    forall x | x in Dns(f) ensures x in ix {
      var i := DnsFrom(f, x);
      IndexedDns(ix, f[i].children);
    }
  }

  // ----- Removing a DN and what the index knows below it -----

  /** removeFromDnIndex. */
  function RemoveDn(ix: map<string, Obj>, dn: string): (r: map<string, Obj>)
    ensures r.Keys <= ix.Keys
    decreases ix.Keys, 0
  {
    if dn == "" || dn !in ix then ix else RemoveChildren(ix - {dn}, ix[dn].children)
  }

  function RemoveChildren(ix: map<string, Obj>, cs: seq<Obj>): (r: map<string, Obj>)
    ensures r.Keys <= ix.Keys
    decreases ix.Keys, 1, |cs|
  {
    if cs == [] then ix else RemoveChildren(RemoveDn(ix, Dn(cs[0])), cs[1..])
  }

  lemma {:induction false} RemoveTree(ix: map<string, Obj>, o: Obj)
    requires Indexed(ix, [o]) && UniqueForest([o]) && "" !in DnsOf(o)
    ensures RemoveDn(ix, Dn(o)) == ix - DnsOf(o)
    decreases o
  {
    assert [o][0] == o;
    IndexedFrame(ix, ix - {Dn(o)}, o.children);
    RemoveTrees(ix - {Dn(o)}, o.children);
  }

  lemma {:induction false} RemoveTrees(ix: map<string, Obj>, cs: seq<Obj>)
    requires Indexed(ix, cs) && UniqueForest(cs) && "" !in Dns(cs)
    ensures RemoveChildren(ix, cs) == ix - Dns(cs)
    decreases cs
  {
    if cs != [] {
      assert Indexed(ix, [cs[0]]) && UniqueForest([cs[0]]);
      RemoveTree(ix, cs[0]);
      var ix1 := ix - DnsOf(cs[0]);
      forall x | x in Dns(cs[1..]) ensures x !in DnsOf(cs[0]) {
        var i := DnsFrom(cs[1..], x);
        assert DnsOf(cs[0]) !! DnsOf(cs[i + 1]);
      }
      assert Indexed(ix, cs[1..]) && UniqueForest(cs[1..]);
      IndexedFrame(ix, ix1, cs[1..]);
      RemoveTrees(ix1, cs[1..]);
    }
  }

  function RemoveList(ix: map<string, Obj>, dns: seq<string>): map<string, Obj> {
    if dns == [] then ix else RemoveDn(RemoveList(ix, dns[..|dns| - 1]), dns[|dns| - 1])
  }

  lemma {:induction false} RemoveListConcat(ix: map<string, Obj>, a: seq<string>, b: seq<string>)
    ensures RemoveList(ix, a + b) == RemoveList(RemoveList(ix, a), b)
  {
    if b == [] {
      assert a + b == a;
    } else {
      assert (a + b)[..|a + b| - 1] == a + b[..|b| - 1];
      RemoveListConcat(ix, a, b[..|b| - 1]);
    }
  }

  // ----- The DNs that the deletes of a diff remove -----

  ghost function Gone(md: Schema, cs: seq<Obj>, ds: seq<Obj>): set<string>
    decreases cs, 0
  {
    if cs == [] then {} else Gone(md, cs[..|cs| - 1], ds) + GoneOf(md, cs[|cs| - 1], ds)
  }

  ghost function GoneOf(md: Schema, c: Obj, ds: seq<Obj>): set<string>
    decreases c, 1
  {
    var m := Lookup(ds, Dn(c));
    if m.None? then (if Deletable(md, c.cls) then DnsOf(c) else {})
    else if c.cls != m.value.cls then {}
    else Gone(md, c.children, m.value.children)
  }

  ghost function TopGoneOf(md: Schema, containers: set<string>, c: Obj, ds: seq<Obj>): set<string> {
    if Lookup(ds, Dn(c)).Some? && Dn(c) in containers then {} else GoneOf(md, c, ds)
  }

  ghost function TopGone(md: Schema, containers: set<string>, cs: seq<Obj>, ds: seq<Obj>): set<string> {
    if cs == [] then {} else TopGone(md, containers, cs[..|cs| - 1], ds) + TopGoneOf(md, containers, cs[|cs| - 1], ds)
  }

  lemma {:induction false} GoneAt(md: Schema, cs: seq<Obj>, ds: seq<Obj>, x: string)
    ensures x in Gone(md, cs, ds) <==> exists i :: 0 <= i < |cs| && x in GoneOf(md, cs[i], ds)
  {
    if cs != [] {
      var front := cs[..|cs| - 1];
      GoneAt(md, front, ds, x);
      assert forall i :: 0 <= i < |front| ==> front[i] == cs[i];
    }
  }

  lemma {:induction false} TopGoneAt(md: Schema, containers: set<string>, cs: seq<Obj>, ds: seq<Obj>, x: string)
    ensures x in TopGone(md, containers, cs, ds) <==>
      exists i :: 0 <= i < |cs| && x in TopGoneOf(md, containers, cs[i], ds)
  {
    if cs != [] {
      var front := cs[..|cs| - 1];
      TopGoneAt(md, containers, front, ds, x);
      assert forall i :: 0 <= i < |front| ==> front[i] == cs[i];
    }
  }

  lemma {:induction false} GoneWithin(md: Schema, cs: seq<Obj>, ds: seq<Obj>)
    ensures Gone(md, cs, ds) <= Dns(cs)
    decreases cs, 0
  {
    forall x | x in Gone(md, cs, ds) ensures x in Dns(cs) {
      GoneAt(md, cs, ds, x);
      var i :| 0 <= i < |cs| && x in GoneOf(md, cs[i], ds);
      GoneOfWithin(md, cs[i], ds);
      DnsAt(cs, i);
    }
  }

  lemma {:induction false} GoneOfWithin(md: Schema, c: Obj, ds: seq<Obj>)
    ensures GoneOf(md, c, ds) <= DnsOf(c)
    decreases c, 1
  {
    var m := Lookup(ds, Dn(c));
    if m.Some? { GoneWithin(md, c.children, m.value.children); }
  }

  lemma TopGoneWithin(md: Schema, containers: set<string>, cs: seq<Obj>, ds: seq<Obj>)
    ensures TopGone(md, containers, cs, ds) <= Dns(cs)
  {
    forall x | x in TopGone(md, containers, cs, ds) ensures x in Dns(cs) {
      TopGoneAt(md, containers, cs, ds, x);
      var i :| 0 <= i < |cs| && x in TopGoneOf(md, containers, cs[i], ds);
      GoneOfWithin(md, cs[i], ds);
      DnsAt(cs, i);
    }
  }

  lemma {:induction false} OffFrame(ix: map<string, Obj>, ix': map<string, Obj>, keep: set<string>, f: seq<Obj>)
    requires IndexedOff(ix, keep, f)
    requires forall x :: x in Dns(f) && x in ix ==> x in ix' && ix'[x] == ix[x]
    ensures IndexedOff(ix', keep, f)
    decreases f
  {
    forall i | 0 <= i < |f|
      ensures (Dn(f[i]) !in keep ==> Dn(f[i]) in ix' && ix'[Dn(f[i])] == f[i]) && IndexedOff(ix', keep, f[i].children)
    {
      DnsAt(f, i);
      OffFrame(ix, ix', keep, f[i].children);
    }
  }

  lemma {:induction false} OffIndexes(ix: map<string, Obj>, keep: set<string>, f: seq<Obj>)
    requires IndexedOff(ix, keep, f) && Dns(f) !! keep
    ensures Indexed(ix, f)
    decreases f
  {
    forall i | 0 <= i < |f|
      ensures Dn(f[i]) in ix && ix[Dn(f[i])] == f[i] && Indexed(ix, f[i].children)
    {
      DnsAt(f, i);
      OffIndexes(ix, keep, f[i].children);
    }
  }

  lemma {:induction false} IndexedIsOff(ix: map<string, Obj>, ix': map<string, Obj>, keep: set<string>, f: seq<Obj>)
    requires Indexed(ix, f)
    requires forall x :: x in Dns(f) && x in ix && x !in keep ==> x in ix' && ix'[x] == ix[x]
    ensures IndexedOff(ix', keep, f)
    decreases f
  {
    forall i | 0 <= i < |f|
      ensures (Dn(f[i]) !in keep ==> Dn(f[i]) in ix' && ix'[Dn(f[i])] == f[i]) && IndexedOff(ix', keep, f[i].children)
    {
      DnsAt(f, i);
      IndexedIsOff(ix, ix', keep, f[i].children);
    }
  }

  /** Removing one sibling's DNs leaves a later sibling indexed. */
  lemma SiblingOff(ix: map<string, Obj>, gone: set<string>, keep: set<string>, f: seq<Obj>, n: nat)
    requires UniqueForest(f) && n < |f| && IndexedOff(ix, keep, f) && gone <= Dns(f[..n])
    ensures IndexedOff(ix - gone, keep, [f[n]])
  {
    forall x | x in DnsOf(f[n]) ensures x !in gone {
      if x in gone {
        var i := DnsFrom(f[..n], x);
      }
    }
    assert IndexedOff(ix, keep, [f[n]]);
    assert Dns([f[n]]) == DnsOf(f[n]) by { DnsSplit([f[n]], 0); assert [f[n]][..1] == [f[n]]; }
    OffFrame(ix, ix - gone, keep, [f[n]]);
  }

  lemma MinusTwice(ix: map<string, Obj>, a: set<string>, b: set<string>)
    ensures ix - a - b == ix - (a + b)
  {
  }

  lemma SplitLast(ix: map<string, Obj>, keep: set<string>, cs: seq<Obj>)
    requires cs != [] && UniqueForest(cs) && "" !in Dns(cs) && IndexedOff(ix, keep, cs)
    ensures var n := |cs| - 1;
      && UniqueForest(cs[..n]) && "" !in Dns(cs[..n]) && IndexedOff(ix, keep, cs[..n])
      && UniqueForest(cs[n].children) && Dn(cs[n]) !in Dns(cs[n].children) && "" !in DnsOf(cs[n])
  {
    var n := |cs| - 1;
    DnsSplit(cs, n);
    assert cs[..n + 1] == cs;
    UniquePrefix(cs, n);
  }

  lemma GoneLast(md: Schema, cs: seq<Obj>, ds: seq<Obj>)
    requires cs != []
    ensures var n := |cs| - 1;
      && Gone(md, cs, ds) == Gone(md, cs[..n], ds) + GoneOf(md, cs[n], ds)
      && ChildrenDeletes(md, cs, ds) == ChildrenDeletes(md, cs[..n], ds) + ChildDeletes(md, cs[n], ds)
  {
  }

  lemma TopGoneLast(md: Schema, containers: set<string>, cs: seq<Obj>, ds: seq<Obj>)
    requires cs != []
    ensures var n := |cs| - 1;
      && TopGone(md, containers, cs, ds) == TopGone(md, containers, cs[..n], ds) + TopGoneOf(md, containers, cs[n], ds)
      && ForestDeletes(md, containers, cs, ds) ==
           ForestDeletes(md, containers, cs[..n], ds) + TopDeletes(md, containers, cs[n], ds)
  {
  }

  lemma {:induction false} RemoveGone(md: Schema, ix: map<string, Obj>, keep: set<string>, cs: seq<Obj>, ds: seq<Obj>)
    requires UniqueForest(cs) && "" !in Dns(cs) && IndexedOff(ix, keep, cs) && Gone(md, cs, ds) !! keep
    ensures RemoveList(ix, ChildrenDeletes(md, cs, ds)) == ix - Gone(md, cs, ds)
    decreases cs, 0
  {
    if cs != [] {
      hide *;
      var n := |cs| - 1;
      SplitLast(ix, keep, cs);
      GoneLast(md, cs, ds);
      var gone, more := Gone(md, cs[..n], ds), GoneOf(md, cs[n], ds);
      RemoveGone(md, ix, keep, cs[..n], ds);
      GoneWithin(md, cs[..n], ds);
      SiblingOff(ix, gone, keep, cs, n);
      RemoveGoneOf(md, ix - gone, keep, cs[n], ds);
      RemoveListConcat(ix, ChildrenDeletes(md, cs[..n], ds), ChildDeletes(md, cs[n], ds));
      MinusTwice(ix, gone, more);
    }
  }

  lemma {:induction false} RemoveGoneOf(md: Schema, ix: map<string, Obj>, keep: set<string>, c: Obj, ds: seq<Obj>)
    requires Dn(c) !in Dns(c.children) && UniqueForest(c.children) && "" !in DnsOf(c)
    requires IndexedOff(ix, keep, [c]) && GoneOf(md, c, ds) !! keep
    ensures RemoveList(ix, ChildDeletes(md, c, ds)) == ix - GoneOf(md, c, ds)
    decreases c, 1
  {
    assert [c][0] == c;
    var m := Lookup(ds, Dn(c));
    if m.None? && Deletable(md, c.cls) {
      assert Dns([c]) == DnsOf(c) by { DnsSplit([c], 0); assert [c][..1] == [c]; }
      OffIndexes(ix, keep, [c]);
      assert UniqueForest([c]);
      RemoveTree(ix, c);
      assert RemoveList(ix, [Dn(c)]) == RemoveDn(ix, Dn(c)) by { assert [Dn(c)][..0] == []; }
    } else if m.Some? && c.cls == m.value.cls {
      RemoveGone(md, ix, keep, c.children, m.value.children);
    }
  }

  lemma RemoveTopGoneOf(md: Schema, containers: set<string>, ix: map<string, Obj>, keep: set<string>, c: Obj,
                        ds: seq<Obj>)
    requires Dn(c) !in Dns(c.children) && UniqueForest(c.children) && "" !in DnsOf(c)
    requires IndexedOff(ix, keep, [c]) && TopGoneOf(md, containers, c, ds) !! keep
    ensures RemoveList(ix, TopDeletes(md, containers, c, ds)) == ix - TopGoneOf(md, containers, c, ds)
  {
    if !(Lookup(ds, Dn(c)).Some? && Dn(c) in containers) { RemoveGoneOf(md, ix, keep, c, ds); }
  }

  lemma {:induction false} RemoveTopGone(md: Schema, containers: set<string>, ix: map<string, Obj>, keep: set<string>,
                                         cs: seq<Obj>, ds: seq<Obj>)
    requires UniqueForest(cs) && "" !in Dns(cs) && IndexedOff(ix, keep, cs) && TopGone(md, containers, cs, ds) !! keep
    ensures RemoveList(ix, ForestDeletes(md, containers, cs, ds)) == ix - TopGone(md, containers, cs, ds)
    decreases |cs|
  {
    if cs != [] {
      hide *;
      var n := |cs| - 1;
      SplitLast(ix, keep, cs);
      TopGoneLast(md, containers, cs, ds);
      var gone, more := TopGone(md, containers, cs[..n], ds), TopGoneOf(md, containers, cs[n], ds);
      RemoveTopGone(md, containers, ix, keep, cs[..n], ds);
      TopGoneWithin(md, containers, cs[..n], ds);
      SiblingOff(ix, gone, keep, cs, n);
      RemoveTopGoneOf(md, containers, ix - gone, keep, cs[n], ds);
      RemoveListConcat(ix, ForestDeletes(md, containers, cs[..n], ds), TopDeletes(md, containers, cs[n], ds));
      MinusTwice(ix, gone, more);
    }
  }

  /** A deleted DN takes its whole subtree with it. */
  lemma {:induction false} DeletedSubtree(md: Schema, ix: map<string, Obj>, cs: seq<Obj>, ds: seq<Obj>, x: string)
    requires Indexed(ix, cs) && x in ChildrenDeletes(md, cs, ds)
    ensures x in ix && Dn(ix[x]) == x && DnsOf(ix[x]) <= Gone(md, cs, ds)
    decreases cs, 0
  {
    var n := |cs| - 1;
    if x in ChildDeletes(md, cs[n], ds) {
      DeletedSubtreeOf(md, ix, cs[n], ds, x);
    } else {
      assert Indexed(ix, cs[..n]);
      DeletedSubtree(md, ix, cs[..n], ds, x);
    }
  }

  lemma {:induction false} DeletedSubtreeOf(md: Schema, ix: map<string, Obj>, c: Obj, ds: seq<Obj>, x: string)
    requires Dn(c) in ix && ix[Dn(c)] == c && Indexed(ix, c.children) && x in ChildDeletes(md, c, ds)
    ensures x in ix && Dn(ix[x]) == x && DnsOf(ix[x]) <= GoneOf(md, c, ds)
    decreases c, 1
  {
    var m := Lookup(ds, Dn(c));
    if m.Some? { DeletedSubtree(md, ix, c.children, m.value.children, x); }
  }

  lemma {:induction false} DeletedTopSubtree(md: Schema, containers: set<string>, ix: map<string, Obj>, cs: seq<Obj>,
                                             ds: seq<Obj>, x: string)
    requires Indexed(ix, cs) && x in ForestDeletes(md, containers, cs, ds)
    ensures x in ix && Dn(ix[x]) == x && DnsOf(ix[x]) <= TopGone(md, containers, cs, ds)
  {
    var n := |cs| - 1;
    if x in TopDeletes(md, containers, cs[n], ds) {
      DeletedSubtreeOf(md, ix, cs[n], ds, x);
    } else {
      assert Indexed(ix, cs[..n]);
      DeletedTopSubtree(md, containers, ix, cs[..n], ds, x);
    }
  }

  // ----- Naming: the deletes never touch the new forest -----

  lemma {:induction false} ParentWithin(scheme: Scheme, f: seq<Obj>, parent: Option<string>, x: string)
    requires WellPlaced(scheme, f, parent) && x in Dns(f)
    ensures scheme(x).parent == parent || (scheme(x).parent.Some? && scheme(x).parent.value in Dns(f))
    decreases f
  {
    var i := DnsFrom(f, x);
    DnsAt(f, i);
    if x != Dn(f[i]) { ParentWithin(scheme, f[i].children, Some(Dn(f[i])), x); }
  }

  /** If a descendant of `o` is named in the forest, so is `o`. */
  lemma {:induction false} AncestorWithin(scheme: Scheme, o: Obj, f: seq<Obj>, parent: Option<string>, x: string)
    requires WellPlaced(scheme, o.children, Some(Dn(o))) && WellPlaced(scheme, f, parent)
    requires parent.Some? ==> parent.value !in DnsOf(o)
    requires x in DnsOf(o) && x in Dns(f)
    ensures Dn(o) in Dns(f)
    decreases o
  {
    if x != Dn(o) {
      var i := DnsFrom(o.children, x);
      DnsAt(o.children, i);
      AncestorWithin(scheme, o.children[i], f, parent, x);
      ParentWithin(scheme, f, parent, Dn(o.children[i]));
    }
  }

  /** Two objects at the same place that both hold `x` have the same name. */
  lemma SameOwner(scheme: Scheme, c: Obj, d: Obj, parent: Option<string>, x: string)
    requires WellPlaced(scheme, [c], parent) && WellPlaced(scheme, [d], parent)
    requires parent.Some? ==> parent.value !in DnsOf(c) && parent.value !in DnsOf(d)
    requires x in DnsOf(c) && x in DnsOf(d)
    ensures Dn(c) == Dn(d)
  {
    assert [c][0] == c && [d][0] == d;
    assert Dns([d]) == DnsOf(d) by { DnsSplit([d], 0); assert [d][..1] == [d]; }
    AncestorWithin(scheme, c, [d], parent, x);
    if Dn(c) != Dn(d) { ParentWithin(scheme, d.children, Some(Dn(d)), Dn(c)); }
  }

  lemma Partner(scheme: Scheme, cs: seq<Obj>, ds: seq<Obj>, parent: Option<string>, i: nat, x: string) returns (j: nat)
    requires WellPlaced(scheme, cs, parent) && WellPlaced(scheme, ds, parent) && SortedForest(ds)
    requires parent.Some? ==> parent.value !in Dns(cs) && parent.value !in Dns(ds)
    requires i < |cs| && x in DnsOf(cs[i]) && x in Dns(ds)
    ensures j < |ds| && x in DnsOf(ds[j]) && Lookup(ds, Dn(cs[i])) == Some(ds[j])
  {
    j := DnsFrom(ds, x);
    DnsAt(cs, i);
    DnsAt(ds, j);
    assert WellPlaced(scheme, [cs[i]], parent) && WellPlaced(scheme, [ds[j]], parent);
    SameOwner(scheme, cs[i], ds[j], parent, x);
    LookupAt(ds, j);
  }

  lemma {:induction false} GoneApart(scheme: Scheme, md: Schema, cs: seq<Obj>, ds: seq<Obj>, parent: Option<string>)
    requires WellPlaced(scheme, cs, parent) && WellPlaced(scheme, ds, parent)
    requires SortedForest(ds) && UniqueForest(cs) && UniqueForest(ds)
    requires parent.Some? ==> parent.value !in Dns(cs) && parent.value !in Dns(ds)
    ensures Gone(md, cs, ds) !! Dns(ds)
    decreases cs
  {
    forall x | x in Gone(md, cs, ds) ensures x !in Dns(ds) {
      GoneAt(md, cs, ds, x);
      var i :| 0 <= i < |cs| && x in GoneOf(md, cs[i], ds);
      GoneOfWithin(md, cs[i], ds);
      if x in Dns(ds) {
        var j := Partner(scheme, cs, ds, parent, i, x);
        GoneWithin(md, cs[i].children, ds[j].children);
        GoneApart(scheme, md, cs[i].children, ds[j].children, Some(Dn(cs[i])));
      }
    }
  }

  lemma TopGoneApart(scheme: Scheme, md: Schema, containers: set<string>, cs: seq<Obj>, ds: seq<Obj>)
    requires WellFormed(scheme, cs) && WellFormed(scheme, ds)
    ensures TopGone(md, containers, cs, ds) !! Dns(ds)
  {
    GoneApart(scheme, md, cs, ds, None);
    forall x | x in TopGone(md, containers, cs, ds) ensures x in Gone(md, cs, ds) {
      TopGoneAt(md, containers, cs, ds, x);
      GoneAt(md, cs, ds, x);
    }
  }

  ghost predicate AllDeletable(md: Schema, f: seq<Obj>)
    decreases f
  {
    forall i :: 0 <= i < |f| ==> Deletable(md, f[i].cls) && AllDeletable(md, f[i].children)
  }

  // ----- When whatever left the forest is removed -----

  /** Every object without a counterpart, at every depth, may be deleted. */
  ghost predicate Clears(md: Schema, cs: seq<Obj>, ds: seq<Obj>)
    decreases cs
  {
    forall i :: 0 <= i < |cs| ==>
      var m := Lookup(ds, Dn(cs[i]));
      if m.None? then Deletable(md, cs[i].cls) else Clears(md, cs[i].children, m.value.children)
  }

  /** The same for a top-level comparison, where nothing may be lost below a container that stays. */
  ghost predicate TopClears(md: Schema, containers: set<string>, cs: seq<Obj>, ds: seq<Obj>) {
    forall i :: 0 <= i < |cs| ==> TopClearsOf(md, containers, cs[i], ds)
  }

  ghost predicate TopClearsOf(md: Schema, containers: set<string>, c: Obj, ds: seq<Obj>) {
    var m := Lookup(ds, Dn(c));
    if m.None? then Deletable(md, c.cls)
    else if Dn(c) in containers then Dns(c.children) <= Dns(m.value.children)
    else Clears(md, c.children, m.value.children)
  }

  lemma {:induction false} DeletableClears(md: Schema, cs: seq<Obj>, ds: seq<Obj>)
    requires AllDeletable(md, cs)
    ensures Clears(md, cs, ds)
    decreases cs
  {
    forall i | 0 <= i < |cs| && Lookup(ds, Dn(cs[i])).Some?
      ensures Clears(md, cs[i].children, Lookup(ds, Dn(cs[i])).value.children)
    {
      DeletableClears(md, cs[i].children, Lookup(ds, Dn(cs[i])).value.children);
    }
  }

  /** With no container and no protected class, whatever left the forest is removed. */
  lemma DeletableTopClears(md: Schema, cs: seq<Obj>, ds: seq<Obj>)
    requires AllDeletable(md, cs)
    ensures TopClears(md, {}, cs, ds)
  {
    DeletableClears(md, cs, ds);
  }

  lemma OneOwner(cs: seq<Obj>, i: nat, j: nat, x: string)
    requires UniqueForest(cs) && i < |cs| && j < |cs| && x in DnsOf(cs[i]) && x in DnsOf(cs[j])
    ensures i == j
  {
  }

  /** A forest loses nothing but `all` if and only if each tree loses nothing but its part of it. */
  lemma LostByTree(cs: seq<Obj>, keep: set<string>, parts: seq<set<string>>, all: set<string>)
    requires UniqueForest(cs) && |parts| == |cs|
    requires forall i :: 0 <= i < |cs| ==> parts[i] <= DnsOf(cs[i])
    requires forall x :: x in all <==> exists i :: 0 <= i < |parts| && x in parts[i]
    ensures Dns(cs) - keep <= all <==> forall i :: 0 <= i < |cs| ==> DnsOf(cs[i]) - keep <= parts[i]
  {
    hide Dns, DnsOf;
    if Dns(cs) - keep <= all {
      forall i, x | 0 <= i < |cs| && x in DnsOf(cs[i]) - keep ensures x in parts[i] {
        DnsAt(cs, i);
        assert x in all;
        var j :| 0 <= j < |parts| && x in parts[j];
        assert i == j by { OneOwner(cs, i, j, x); }
      }
    }
    if forall i :: 0 <= i < |cs| ==> DnsOf(cs[i]) - keep <= parts[i] {
      forall x | x in Dns(cs) - keep ensures x in all {
        var i := DnsFrom(cs, x);
        assert x in DnsOf(cs[i]) - keep;
      }
    }
  }

  /** A tree without a counterpart shares no name with the other forest. */
  lemma LostWhole(scheme: Scheme, cs: seq<Obj>, ds: seq<Obj>, parent: Option<string>, i: nat)
    requires WellPlaced(scheme, cs, parent) && WellPlaced(scheme, ds, parent) && SortedForest(ds)
    requires parent.Some? ==> parent.value !in Dns(cs) && parent.value !in Dns(ds)
    requires i < |cs| && Lookup(ds, Dn(cs[i])).None?
    ensures DnsOf(cs[i]) - Dns(ds) == DnsOf(cs[i])
  {
    forall x | x in DnsOf(cs[i]) ensures x !in Dns(ds) {
      if x in Dns(ds) { var j := Partner(scheme, cs, ds, parent, i, x); }
    }
  }

  /** What a tree with a counterpart loses is what its children lose against the counterpart's. */
  lemma LostBelow(scheme: Scheme, cs: seq<Obj>, ds: seq<Obj>, parent: Option<string>, i: nat)
    requires WellPlaced(scheme, cs, parent) && WellPlaced(scheme, ds, parent)
    requires SortedForest(ds) && UniqueForest(cs) && UniqueForest(ds)
    requires parent.Some? ==> parent.value !in Dns(cs) && parent.value !in Dns(ds)
    requires i < |cs| && Lookup(ds, Dn(cs[i])).Some?
    ensures var d := Lookup(ds, Dn(cs[i])).value;
      DnsOf(cs[i]) - Dns(ds) == Dns(cs[i].children) - Dns(d.children)
  {
    var c, d := cs[i], Lookup(ds, Dn(cs[i])).value;
    var j :| 0 <= j < |ds| && ds[j] == d;
    DnsAt(ds, j);
    assert Dn(c) !in Dns(c.children) && Dn(d) !in Dns(d.children) && Dn(c) == Dn(d);
    hide Dns, WellPlaced, SortedForest, UniqueForest, Lookup;
    forall x | x in Dns(c.children) && x in Dns(ds) ensures x in Dns(d.children) {
      var k := Partner(scheme, cs, ds, parent, i, x);
    }
  }

  /** Everything that left the forest is removed if and only if each object without a counterpart may be deleted. */
  lemma {:induction false} ClearsIff(scheme: Scheme, md: Schema, cs: seq<Obj>, ds: seq<Obj>, parent: Option<string>)
    requires WellPlaced(scheme, cs, parent) && WellPlaced(scheme, ds, parent)
    requires SortedForest(ds) && UniqueForest(cs) && UniqueForest(ds)
    requires parent.Some? ==> parent.value !in Dns(cs) && parent.value !in Dns(ds)
    ensures Clears(md, cs, ds) <==> Dns(cs) - Dns(ds) <= Gone(md, cs, ds)
    decreases cs
  {
    var parts := seq(|cs|, i requires 0 <= i < |cs| => GoneOf(md, cs[i], ds));
    forall i | 0 <= i < |cs|
      ensures parts[i] <= DnsOf(cs[i])
      ensures DnsOf(cs[i]) - Dns(ds) <= parts[i] <==>
        var m := Lookup(ds, Dn(cs[i]));
        if m.None? then Deletable(md, cs[i].cls) else Clears(md, cs[i].children, m.value.children)
    {
      GoneOfWithin(md, cs[i], ds);
      var m := Lookup(ds, Dn(cs[i]));
      if m.None? {
        LostWhole(scheme, cs, ds, parent, i);
      } else {
        LostBelow(scheme, cs, ds, parent, i);
        ClearsIff(scheme, md, cs[i].children, m.value.children, Some(Dn(cs[i])));
      }
    }
    forall x ensures x in Gone(md, cs, ds) <==> exists i :: 0 <= i < |parts| && x in parts[i] {
      GoneAt(md, cs, ds, x);
    }
    LostByTree(cs, Dns(ds), parts, Gone(md, cs, ds));
  }

  lemma TopClearsIff(scheme: Scheme, md: Schema, containers: set<string>, cs: seq<Obj>, ds: seq<Obj>)
    requires WellFormed(scheme, cs) && WellFormed(scheme, ds)
    ensures TopClears(md, containers, cs, ds) <==> Dns(cs) - Dns(ds) <= TopGone(md, containers, cs, ds)
  {
    var parts := seq(|cs|, i requires 0 <= i < |cs| => TopGoneOf(md, containers, cs[i], ds));
    forall i | 0 <= i < |cs|
      ensures parts[i] <= DnsOf(cs[i])
      ensures DnsOf(cs[i]) - Dns(ds) <= parts[i] <==> TopClearsOf(md, containers, cs[i], ds)
    {
      GoneOfWithin(md, cs[i], ds);
      var m := Lookup(ds, Dn(cs[i]));
      if m.None? {
        LostWhole(scheme, cs, ds, None, i);
      } else {
        LostBelow(scheme, cs, ds, None, i);
        ClearsIff(scheme, md, cs[i].children, m.value.children, Some(Dn(cs[i])));
      }
    }
    forall x ensures x in TopGone(md, containers, cs, ds) <==> exists i :: 0 <= i < |parts| && x in parts[i] {
      TopGoneAt(md, containers, cs, ds, x);
    }
    LostByTree(cs, Dns(ds), parts, TopGone(md, containers, cs, ds));
  }

  /** What a write does to the index. */
  lemma WriteIndex(scheme: Scheme, md: Schema, containers: set<string>, ix: map<string, Obj>, before: seq<Obj>,
                   after: seq<Obj>)
    requires WellFormed(scheme, before) && WellFormed(scheme, after) && Indexed(ix, before)
    ensures var ix' := RemoveList(AddAll(ix, after), ForestDeletes(md, containers, before, after));
      && ix' == AddAll(ix, after) - TopGone(md, containers, before, after)
      && Indexed(ix', after)
      && (forall x :: x in ix && x !in Dns(before) && x !in Dns(after) ==> x in ix' && ix'[x] == ix[x])
      && ix'.Keys <= ix.Keys + Dns(after)
      && (ix'.Keys !! Dns(before) - Dns(after) <==> TopClears(md, containers, before, after))
  {
    var keep := Dns(after);
    var ix1 := AddAll(ix, after);
    AddAllFrame(ix, after);
    AddAllIndexes(ix, after);
    TopGoneApart(scheme, md, containers, before, after);
    TopGoneWithin(md, containers, before, after);
    IndexedIsOff(ix, ix1, keep, before);
    RemoveTopGone(md, containers, ix1, keep, before, after);
    IndexedFrame(ix1, ix1 - TopGone(md, containers, before, after), after);
    TopClearsIff(scheme, md, containers, before, after);
    IndexedDns(ix, before);
  }

  // ----- Redirect policies -----

  predicate Contains(s: string, part: string) {
    part <= s || (s != "" && Contains(s[1..], part))
  }

  function RedirectDests(cs: seq<Obj>): seq<string> {
    if cs == [] then []
    else RedirectDests(cs[..|cs| - 1]) + if cs[|cs| - 1].cls == "vnsRedirectDest" then [Dn(cs[|cs| - 1])] else []
  }

  /** The redirect destinations of every deleted redirect policy, as the index knows them. */
  function ExtraDeletes(ix: map<string, Obj>, dns: seq<string>): seq<string> {
    if dns == [] then []
    else
      var last := dns[|dns| - 1];
      ExtraDeletes(ix, dns[..|dns| - 1]) +
      if Contains(last, "svcRedirectPol") && last in ix then RedirectDests(ix[last].children) else []
  }

  /** `part` occurs somewhere in `s`. */
  lemma {:induction false} ContainsIff(s: string, part: string)
    ensures Contains(s, part) <==> exists a, b :: s == a + part + b
  {
    if part <= s {
      assert s == "" + part + s[|part|..];
    } else if s != "" {
      ContainsIff(s[1..], part);
      if Contains(s[1..], part) {
        var a, b :| s[1..] == a + part + b;
        assert s == ([s[0]] + a) + part + b;
      }
    }
    if a, b :| s == a + part + b && !(part <= s) {
      assert a == "" ==> s == part + b;
      assert s[1..] == a[1..] + part + b;
    }
  }

  /** `x` names a redirect destination of the redirect policy `d`. */
  predicate IsDestOf(ix: map<string, Obj>, d: string, x: string) {
    Contains(d, "svcRedirectPol") && d in ix &&
    exists i :: 0 <= i < |ix[d].children| && ix[d].children[i].cls == "vnsRedirectDest" && x == Dn(ix[d].children[i])
  }

  lemma {:induction false} RedirectDestsAre(cs: seq<Obj>, x: string)
    ensures x in RedirectDests(cs) <==>
      exists i :: 0 <= i < |cs| && cs[i].cls == "vnsRedirectDest" && x == Dn(cs[i])
  {
    if cs != [] {
      var front := cs[..|cs| - 1];
      RedirectDestsAre(front, x);
      assert forall i :: 0 <= i < |front| ==> front[i] == cs[i];
    }
  }

  /** The extra deletes are exactly the destinations of the deleted redirect policies. */
  lemma {:induction false} ExtraDeletesAre(ix: map<string, Obj>, dns: seq<string>, x: string)
    ensures x in ExtraDeletes(ix, dns) <==> exists d :: d in dns && IsDestOf(ix, d, x)
  {
    if dns != [] {
      var front, last := dns[..|dns| - 1], dns[|dns| - 1];
      ExtraDeletesAre(ix, front, x);
      var more := if Contains(last, "svcRedirectPol") && last in ix then RedirectDests(ix[last].children) else [];
      assert x in more <==> IsDestOf(ix, last, x) by { if last in ix { RedirectDestsAre(ix[last].children, x); } }
      assert ExtraDeletes(ix, dns) == ExtraDeletes(ix, front) + more;
      hide *;
      assert dns == front + [last];
    }
  }

  lemma {:induction false} RedirectDestsWithin(cs: seq<Obj>, x: string)
    requires x in RedirectDests(cs)
    ensures x in Dns(cs)
  {
    var n := |cs| - 1;
    DnsSplit(cs, n);
    assert cs[..n + 1] == cs;
    if x in RedirectDests(cs[..n]) { RedirectDestsWithin(cs[..n], x); }
  }

  /** The extra deletes name objects whose parents go anyway. */
  lemma {:induction false} ExtraDeletesGone(ix: map<string, Obj>, dns: seq<string>, gone: set<string>)
    requires forall d :: d in dns ==> d in ix && DnsOf(ix[d]) <= gone
    ensures forall x :: x in ExtraDeletes(ix, dns) ==> x in gone
  {
    if dns != [] {
      var front, last := dns[..|dns| - 1], dns[|dns| - 1];
      ExtraDeletesGone(ix, front, gone);
      forall x | x in RedirectDests(ix[last].children) ensures x in gone {
        RedirectDestsWithin(ix[last].children, x);
      }
    }
  }

  lemma {:induction false} RemoveAbsent(ix: map<string, Obj>, dns: seq<string>)
    requires forall x :: x in dns ==> x !in ix
    ensures RemoveList(ix, dns) == ix
  {
    if dns != [] { RemoveAbsent(ix, dns[..|dns| - 1]); }
  }

  // ----- The store and its index -----

  type Store = map<string, seq<Obj>>

  function ObjectsOf(store: Store, key: string): seq<Obj> {
    if key in store then store[key] else []
  }

  function Written(store: Store, key: string, objects: Option<seq<Obj>>): Store {
    if objects.Some? then store[key := objects.value] else store - {key}
  }

  /** Every wanted object at every depth is found in the index, and keys do not share DNs. */
  ghost predicate CoveredBy(scheme: Scheme, store: Store, ix: map<string, Obj>) {
    && (forall k :: k in store ==> WellFormed(scheme, store[k]) && Indexed(ix, store[k]))
    && (forall k, l :: k in store && l in store && k != l ==> Dns(store[k]) !! Dns(store[l]))
  }

  /** The index holds nothing but wanted objects. */
  ghost predicate NothingElse(store: Store, ix: map<string, Obj>) {
    forall x :: x in ix ==> exists k :: k in store && x in Dns(store[k])
  }

  ghost predicate MayWrite(scheme: Scheme, store: Store, key: string, objects: Option<seq<Obj>>) {
    objects.Some? ==>
      && WellFormed(scheme, objects.value)
      && forall k :: k in store && k != key ==> Dns(store[k]) !! Dns(objects.value)
  }

  function AllDeletes(ix: map<string, Obj>, dns: seq<string>): seq<string> {
    dns + ExtraDeletes(ix, dns)
  }

  /** What a write lists for deletion: the names the diff deletes, and the destinations of deleted policies. */
  ghost predicate IsWriteDelete(md: Schema, containers: set<string>, ix: map<string, Obj>, before: seq<Obj>,
                                after: seq<Obj>, x: string) {
    || ForestDelete(md, containers, before, after, x)
    || exists d :: ForestDelete(md, containers, before, after, d) && IsDestOf(ix, d, x)
  }

  lemma WriteDeletesAre(md: Schema, containers: set<string>, ix: map<string, Obj>, before: seq<Obj>, after: seq<Obj>,
                        x: string)
    ensures x in AllDeletes(ix, ForestDeletes(md, containers, before, after)) <==>
      IsWriteDelete(md, containers, ix, before, after, x)
  {
    var dns := ForestDeletes(md, containers, before, after);
    forall d ensures d in dns <==> ForestDelete(md, containers, before, after, d) {
      ForestDeletesExact(md, containers, before, after, d);
    }
    ExtraDeletesAre(ix, dns, x);
    AllDeletesAre(ix, dns);
    hide AllDeletes, ExtraDeletes, ForestDeletes, ForestDelete, IsDestOf;
  }

  /** The DNs a write deletes are wanted before, indexed, and not wanted after. */
  lemma WriteDeletes(scheme: Scheme, md: Schema, containers: set<string>, store: Store, ix: map<string, Obj>,
                     key: string, objects: Option<seq<Obj>>)
    requires CoveredBy(scheme, store, ix) && MayWrite(scheme, store, key, objects)
    ensures var before, after := ObjectsOf(store, key), ObjectsOf(Written(store, key, objects), key);
      var dns := ForestDeletes(md, containers, before, after);
      && SortedForest(before) && SortedForest(after)
      && (forall x :: x in dns ==> x in ix)
      && (forall x :: x in AllDeletes(ix, dns) ==>
        x in TopGone(md, containers, before, after) && x in Dns(before) && x !in Dns(after))
  {
    var before, after := ObjectsOf(store, key), ObjectsOf(Written(store, key, objects), key);
    var dns, gone := ForestDeletes(md, containers, before, after), TopGone(md, containers, before, after);
    StoreParts(scheme, store, ix, key, objects);
    hide *;
    forall x | x in dns ensures x in ix && DnsOf(ix[x]) <= gone && x in gone {
      DeletedTopSubtree(md, containers, ix, before, after, x);
    }
    ExtraDeletesGone(ix, dns, gone);
    TopGoneApart(scheme, md, containers, before, after);
    TopGoneWithin(md, containers, before, after);
    assert forall x :: x in AllDeletes(ix, dns) ==> x in dns || x in ExtraDeletes(ix, dns) by {
      AllDeletesAre(ix, dns);
    }
  }

  lemma AllDeletesAre(ix: map<string, Obj>, dns: seq<string>)
    ensures AllDeletes(ix, dns) == dns + ExtraDeletes(ix, dns)
  {
  }

  lemma StoreParts(scheme: Scheme, store: Store, ix: map<string, Obj>, key: string, objects: Option<seq<Obj>>)
    requires CoveredBy(scheme, store, ix) && MayWrite(scheme, store, key, objects)
    ensures Indexed(ix, ObjectsOf(store, key))
    ensures WellFormed(scheme, ObjectsOf(store, key))
    ensures WellFormed(scheme, ObjectsOf(Written(store, key, objects), key))
    ensures SortedForest(ObjectsOf(store, key)) && SortedForest(ObjectsOf(Written(store, key, objects), key))
    ensures ObjectsOf(Written(store, key, objects), key) == if objects.Some? then objects.value else []
  {
  }

  lemma WrittenIndex(scheme: Scheme, md: Schema, containers: set<string>, store: Store, ix: map<string, Obj>,
                     key: string, objects: Option<seq<Obj>>)
    requires CoveredBy(scheme, store, ix) && MayWrite(scheme, store, key, objects)
    ensures var before, after := ObjectsOf(store, key), ObjectsOf(Written(store, key, objects), key);
      var ix' := RemoveList(AddAll(ix, after), AllDeletes(ix, ForestDeletes(md, containers, before, after)));
      && WellFormed(scheme, after) && Indexed(ix', after)
      && (forall x :: x in ix && x !in Dns(before) && x !in Dns(after) ==> x in ix' && ix'[x] == ix[x])
      && ix'.Keys <= ix.Keys + Dns(after)
      && (ix'.Keys !! Dns(before) - Dns(after) <==> TopClears(md, containers, before, after))
  {
    var before, after := ObjectsOf(store, key), ObjectsOf(Written(store, key, objects), key);
    var dns, gone := ForestDeletes(md, containers, before, after), TopGone(md, containers, before, after);
    StoreParts(scheme, store, ix, key, objects);
    WriteDeletes(scheme, md, containers, store, ix, key, objects);
    WriteIndex(scheme, md, containers, ix, before, after);
    hide *;
    AllDeletesAre(ix, dns);
    var ix1 := AddAll(ix, after);
    RemoveListConcat(ix1, dns, ExtraDeletes(ix, dns));
    RemoveAbsent(ix1 - gone, ExtraDeletes(ix, dns));
    assert RemoveList(ix1, AllDeletes(ix, dns)) == ix1 - gone;
  }

  /** What a write does to the store and its index. */
  lemma WriteEffect(scheme: Scheme, md: Schema, containers: set<string>, store: Store, ix: map<string, Obj>,
                    key: string, objects: Option<seq<Obj>>)
    requires CoveredBy(scheme, store, ix) && MayWrite(scheme, store, key, objects)
    ensures var store' := Written(store, key, objects);
      var before, after := ObjectsOf(store, key), ObjectsOf(store', key);
      var ix' := RemoveList(AddAll(ix, after), AllDeletes(ix, ForestDeletes(md, containers, before, after)));
      && CoveredBy(scheme, store', ix')
      && ix'.Keys <= ix.Keys + Dns(after)
      && (NothingElse(store, ix) ==> (NothingElse(store', ix') <==> TopClears(md, containers, before, after)))
  {
    var store' := Written(store, key, objects);
    var before, after := ObjectsOf(store, key), ObjectsOf(store', key);
    var ix' := RemoveList(AddAll(ix, after), AllDeletes(ix, ForestDeletes(md, containers, before, after)));
    WrittenIndex(scheme, md, containers, store, ix, key, objects);
    hide *;
    WriteCovers(scheme, store, ix, key, objects, ix');
    if NothingElse(store, ix) {
      NothingElseIff(scheme, store, ix, key, objects, ix');
    }
  }

  lemma WriteCovers(scheme: Scheme, store: Store, ix: map<string, Obj>, key: string, objects: Option<seq<Obj>>,
                    ix': map<string, Obj>)
    requires CoveredBy(scheme, store, ix) && MayWrite(scheme, store, key, objects)
    requires var before, after := ObjectsOf(store, key), ObjectsOf(Written(store, key, objects), key);
      Indexed(ix', after) && forall x :: x in ix && x !in Dns(before) && x !in Dns(after) ==>
        x in ix' && ix'[x] == ix[x]
    ensures CoveredBy(scheme, Written(store, key, objects), ix')
  {
    hide Dns, Indexed, WellFormed;
    var store' := Written(store, key, objects);
    forall k | k in store' && k != key ensures Indexed(ix', store'[k]) {
      assert forall x :: x in Dns(store[k]) ==> x !in Dns(ObjectsOf(store, key)) by { EmptyDns(); }
      assert forall x :: x in Dns(store[k]) ==> x !in Dns(ObjectsOf(store', key)) by { EmptyDns(); }
      IndexedFrame(ix, ix', store[k]);
    }
  }

  lemma EmptyDns()
    ensures Dns([]) == {}
  {
  }

  lemma NothingElseIff(scheme: Scheme, store: Store, ix: map<string, Obj>, key: string, objects: Option<seq<Obj>>,
                       ix': map<string, Obj>)
    requires CoveredBy(scheme, store, ix) && NothingElse(store, ix)
    requires ix'.Keys <= ix.Keys + Dns(ObjectsOf(Written(store, key, objects), key))
    ensures NothingElse(Written(store, key, objects), ix') <==>
      ix'.Keys !! Dns(ObjectsOf(store, key)) - Dns(ObjectsOf(Written(store, key, objects), key))
  {
    var lost := Dns(ObjectsOf(store, key)) - Dns(ObjectsOf(Written(store, key, objects), key));
    if ix'.Keys !! lost { WriteLeavesNothingElse(store, ix, key, objects, ix'); }
    if NothingElse(Written(store, key, objects), ix') {
      forall x | x in ix' ensures x !in lost { LostIsElse(scheme, store, ix, key, objects, ix', x); }
    }
  }

  /** A DN that is wanted by some key now is not one that this key has just lost. */
  lemma LostIsElse(scheme: Scheme, store: Store, ix: map<string, Obj>, key: string, objects: Option<seq<Obj>>,
                   ix': map<string, Obj>, x: string)
    requires CoveredBy(scheme, store, ix) && NothingElse(Written(store, key, objects), ix') && x in ix'
    ensures x !in Dns(ObjectsOf(store, key)) || x in Dns(ObjectsOf(Written(store, key, objects), key))
  {
    hide Dns, Indexed, WellFormed;
    EmptyDns();
    var store' := Written(store, key, objects);
    var k :| k in store' && x in Dns(store'[k]);
    assert k != key && key in store ==> Dns(store[k]) !! Dns(store[key]);
  }

  lemma WriteLeavesNothingElse(store: Store, ix: map<string, Obj>, key: string, objects: Option<seq<Obj>>,
                               ix': map<string, Obj>)
    requires NothingElse(store, ix)
    requires var before, after := ObjectsOf(store, key), ObjectsOf(Written(store, key, objects), key);
      ix'.Keys <= ix.Keys + Dns(after) && ix'.Keys !! Dns(before) - Dns(after)
    ensures NothingElse(Written(store, key, objects), ix')
  {
    hide Dns;
    EmptyDns();
    var store' := Written(store, key, objects);
    forall x | x in ix' ensures exists k :: k in store' && x in Dns(store'[k]) {
      if x in Dns(ObjectsOf(store', key)) {
        assert key in store';
      } else {
        var k :| k in store && x in Dns(store[k]);
        assert k != key && k in store';
      }
    }
  }
}
