/**
 What applying a diff does to the controller. DELETE removes the subtree a DN names; POST
 upserts: it sets the attributes it carries, leaves the others alone and recurses into the
 children it mentions.

 Main results: after the returned deletes and updates a second diff finds nothing left to do, if
 and only if no unmentioned attribute of a matched object is off its schema default
 (`DiffConverges`, `Settable`). Applying that diff changes nothing more (`AppliedIsStable`), so the
 same holds after any number of rounds (`RoundsConverge`).
 */
module ApicConverge {
  import opened ApicTypes
  import opened ApicDiff

  // ----- The controller's answers to DELETE and POST -----

  ghost function Prune(f: seq<Obj>, gone: set<string>): seq<Obj>
    decreases f
  {
    if f == [] then []
    else if Dn(f[0]) in gone then Prune(f[1..], gone)
    else [PruneObj(f[0], gone)] + Prune(f[1..], gone)
  }

  ghost function PruneObj(o: Obj, gone: set<string>): Obj
    decreases o
  {
    Obj(o.cls, o.hintDn, o.attrs, Prune(o.children, gone))
  }

  /** The object keeps its own name whatever the posted body says about "dn". */
  ghost function Upsert(c: Obj, d: Obj): Obj
    decreases d, 1
  {
    Obj(c.cls, KeptHint(c, c.attrs + d.attrs), c.attrs + d.attrs, UpsertAll(c.children, d.children))
  }

  ghost function KeptHint(c: Obj, attrs: map<string, Value>): string {
    if Dn(c.(attrs := attrs)) == Dn(c) then c.hintDn else Dn(c)
  }

  /** Sorted merge of the posted children into the existing ones. */
  ghost function UpsertAll(cs: seq<Obj>, ds: seq<Obj>): seq<Obj>
    decreases ds, |cs|
  {
    if ds == [] then cs
    else if cs == [] then ds
    else if StrLess(Dn(cs[0]), Dn(ds[0])) then [cs[0]] + UpsertAll(cs[1..], ds)
    else if Dn(cs[0]) == Dn(ds[0]) then [Upsert(cs[0], ds[0])] + UpsertAll(cs[1..], ds[1..])
    else [ds[0]] + UpsertAll(cs, ds[1..])
  }

  ghost function ToSet(xs: seq<string>): set<string> {
    set x | x in xs
  }

  /** Deletes first, then updates: the order in which applyDiff queues them. */
  ghost function Applied(md: Schema, containers: set<string>, current: seq<Obj>, desired: seq<Obj>): seq<Obj> {
    UpsertAll(Prune(current, ToSet(ForestDeletes(md, containers, current, desired))),
              Updates(md, containers, current, desired))
  }

  // ----- Lookups after the operations -----

  ghost predicate Above(x: string, f: seq<Obj>) {
    forall i :: 0 <= i < |f| ==> StrLess(x, Dn(f[i]))
  }

  lemma SortedCons(f: seq<Obj>)
    requires f != []
    ensures SortedForest(f) <==> SortedForest(f[0].children) && Above(Dn(f[0]), f[1..]) && SortedForest(f[1..])
  {
    if SortedForest(f[0].children) && Above(Dn(f[0]), f[1..]) && SortedForest(f[1..]) {
      forall i, j | 0 <= i < j < |f| ensures StrLess(Dn(f[i]), Dn(f[j])) {
        if i == 0 { assert f[j] == f[1..][j - 1]; } else { assert f[i] == f[1..][i - 1] && f[j] == f[1..][j - 1]; }
      }
      forall i | 0 <= i < |f| ensures SortedForest(f[i].children) {
        if i > 0 { assert f[i] == f[1..][i - 1]; }
      }
    }
  }

  lemma ConsSorted(o: Obj, f: seq<Obj>)
    requires SortedForest(o.children) && Above(Dn(o), f) && SortedForest(f)
    ensures SortedForest([o] + f)
  {
    assert ([o] + f)[1..] == f;
    SortedCons([o] + f);
  }

  lemma AboveCons(f: seq<Obj>)
    requires f != []
    ensures forall x :: Above(x, f) <==> StrLess(x, Dn(f[0])) && Above(x, f[1..])
  {
    forall x | StrLess(x, Dn(f[0])) && Above(x, f[1..]) ensures Above(x, f) {
      forall i | 0 <= i < |f| ensures StrLess(x, Dn(f[i])) {
        if i > 0 { assert f[i] == f[1..][i - 1]; }
      }
    }
  }

  lemma AboveLower(x: string, y: string, f: seq<Obj>)
    requires StrLess(x, y) && Above(y, f)
    ensures Above(x, f)
  {
    forall i | 0 <= i < |f| ensures StrLess(x, Dn(f[i])) { StrLessTransitive(x, y, Dn(f[i])); }
  }

  lemma AboveMissing(x: string, f: seq<Obj>)
    requires Above(x, f)
    ensures Lookup(f, x).None?
  {
    StrLessIrreflexive(x);
  }

  lemma UpsertName(c: Obj, d: Obj)
    requires Dn(c) == Dn(d)
    ensures Dn(Upsert(c, d)) == Dn(c)
  {
  }

  lemma {:induction false} PruneSorted(f: seq<Obj>, gone: set<string>)
    requires SortedForest(f)
    ensures SortedForest(Prune(f, gone))
    ensures forall x :: Above(x, f) ==> Above(x, Prune(f, gone))
    decreases f
  {
    if f != [] {
      SortedCons(f);
      PruneSorted(f[1..], gone);
      PruneSorted(f[0].children, gone);
      AboveCons(f);
      if Dn(f[0]) !in gone {
        ConsSorted(PruneObj(f[0], gone), Prune(f[1..], gone));
        AboveCons(Prune(f, gone));
      }
    }
  }

  /** Deleting removes exactly the named objects, and prunes below the others. */
  lemma {:induction false} PruneLookup(f: seq<Obj>, gone: set<string>, x: string)
    requires SortedForest(f)
    ensures Lookup(Prune(f, gone), x) ==
              if x in gone || Lookup(f, x).None? then None else Some(PruneObj(Lookup(f, x).value, gone))
  {
    if f != [] {
      SortedCons(f);
      PruneLookup(f[1..], gone, x);
      if Dn(f[0]) in gone && Dn(f[0]) == x { AboveMissing(x, f[1..]); }
    }
  }

  lemma {:induction false} UpsertSorted(cs: seq<Obj>, ds: seq<Obj>)
    requires SortedForest(cs) && SortedForest(ds)
    ensures SortedForest(UpsertAll(cs, ds))
    ensures forall x :: Above(x, cs) && Above(x, ds) ==> Above(x, UpsertAll(cs, ds))
    decreases ds, |cs|
  {
    if ds != [] && cs != [] {
      SortedCons(cs);
      SortedCons(ds);
      AboveCons(cs);
      AboveCons(ds);
      if StrLess(Dn(cs[0]), Dn(ds[0])) {
        UpsertSorted(cs[1..], ds);
        AboveLower(Dn(cs[0]), Dn(ds[0]), ds[1..]);
        assert Above(Dn(cs[0]), ds);
        ConsSorted(cs[0], UpsertAll(cs[1..], ds));
      } else if Dn(cs[0]) == Dn(ds[0]) {
        UpsertName(cs[0], ds[0]);
        UpsertSorted(cs[0].children, ds[0].children);
        UpsertSorted(cs[1..], ds[1..]);
        ConsSorted(Upsert(cs[0], ds[0]), UpsertAll(cs[1..], ds[1..]));
      } else {
        StrLessTotal(Dn(cs[0]), Dn(ds[0]));
        UpsertSorted(cs, ds[1..]);
        AboveLower(Dn(ds[0]), Dn(cs[0]), cs[1..]);
        assert Above(Dn(ds[0]), cs);
        ConsSorted(ds[0], UpsertAll(cs, ds[1..]));
      }
      AboveCons(UpsertAll(cs, ds));
    }
  }

  /** Posting merges objects with the same name, adds the new ones and keeps the rest. */
  lemma {:induction false} UpsertLookup(cs: seq<Obj>, ds: seq<Obj>, x: string)
    requires SortedForest(cs) && SortedForest(ds)
    ensures Lookup(UpsertAll(cs, ds), x) ==
              if Lookup(ds, x).None? then Lookup(cs, x)
              else if Lookup(cs, x).None? then Lookup(ds, x)
              else Some(Upsert(Lookup(cs, x).value, Lookup(ds, x).value))
    decreases |ds| + |cs|
  {
    if ds != [] && cs != [] {
      SortedCons(cs);
      SortedCons(ds);
      StrLessTotal(Dn(cs[0]), Dn(ds[0]));
      StrLessIrreflexive(Dn(cs[0]));
      if StrLess(Dn(cs[0]), Dn(ds[0])) {
        UpsertLookup(cs[1..], ds, x);
        if x == Dn(cs[0]) {
          AboveLower(x, Dn(ds[0]), ds[1..]);
          assert Above(x, ds);
          AboveMissing(x, ds);
        }
      } else if Dn(cs[0]) == Dn(ds[0]) {
        UpsertName(cs[0], ds[0]);
        UpsertLookup(cs[1..], ds[1..], x);
      } else {
        UpsertLookup(cs, ds[1..], x);
        if x == Dn(ds[0]) {
          AboveLower(x, Dn(cs[0]), cs[1..]);
          assert Above(x, cs);
          AboveMissing(x, cs);
        }
      }
    }
  }

  // ----- When a POST can bring an object to its wanted state -----

  /** Every compared attribute the wanted object does not mention is at its default already. */
  ghost predicate SettableAttrs(md: Schema, c: Obj, d: Obj) {
    c.cls in md ==>
      && (forall p :: p in md[c.cls].attributes && p !in d.attrs ==>
            AttrOr(c.attrs, p, md[c.cls].attributes[p]) == md[c.cls].attributes[p])
      && (IsTagClass(c.cls) || "annotation" in d.attrs || AttrOr(c.attrs, "annotation", Str("")) == Str(""))
  }

  ghost predicate Settable(md: Schema, c: Obj, d: Obj)
    decreases d, 0
  {
    SettableAttrs(md, c, d) &&
    forall j :: 0 <= j < |d.children| ==> ChildSettable(md, c.children, d.children[j])
  }

  ghost predicate ChildSettable(md: Schema, cs: seq<Obj>, d: Obj)
    decreases d, 1
  {
    var m := Lookup(cs, Dn(d));
    m.Some? ==> Settable(md, m.value, d)
  }

  /** A DN fixes the class of the object it names. */
  ghost predicate SameClasses(c: Obj, d: Obj)
    decreases d
  {
    c.cls == d.cls &&
    forall j :: 0 <= j < |d.children| ==>
      var m := Lookup(c.children, Dn(d.children[j]));
      m.Some? ==> SameClasses(m.value, d.children[j])
  }

  ghost predicate ForestSettable(md: Schema, containers: set<string>, current: seq<Obj>, desired: seq<Obj>) {
    forall j :: 0 <= j < |desired| ==> TopSettable(md, containers, current, desired[j])
  }

  ghost predicate TopSettable(md: Schema, containers: set<string>, current: seq<Obj>, d: Obj) {
    var m := Lookup(current, Dn(d));
    m.Some? ==> if Dn(d) in containers then SettableAttrs(md, m.value, d) else Settable(md, m.value, d)
  }

  ghost predicate ForestSameClasses(current: seq<Obj>, desired: seq<Obj>) {
    forall j :: 0 <= j < |desired| ==>
      var m := Lookup(current, Dn(desired[j]));
      m.Some? ==> SameClasses(m.value, desired[j])
  }

  lemma UpsertAgrees(md: Schema, c: Obj, d: Obj)
    ensures AttrsAgree(md, c.cls, c.attrs + d.attrs, d.attrs) <==> SettableAttrs(md, c, d)
    ensures AttrsAgree(md, c.cls, c.attrs, d.attrs) ==> SettableAttrs(md, c, d)
  {
    if c.cls in md {
      var attributes := md[c.cls].attributes;
      if AttrsAgree(md, c.cls, c.attrs + d.attrs, d.attrs) {
        forall p | p in attributes && p !in d.attrs ensures AttrOr(c.attrs, p, attributes[p]) == attributes[p] {
          assert AttrOr(c.attrs + d.attrs, p, attributes[p]) == AttrOr(d.attrs, p, attributes[p]);
        }
      }
    }
  }

  // ----- Which DNs the deletes remove -----

  lemma {:induction false} DeleteBelow(md: Schema, c: Obj, d: Obj, x: string)
    requires ObjDelete(md, c, d, x)
    ensures x in Dns(c.children)
    decreases c, 0
  {
    var i :| 0 <= i < |c.children| && ChildDelete(md, c.children[i], d.children, x);
    ChildDeleteWithin(md, c.children[i], d.children, x);
    DnsAt(c.children, i);
  }

  lemma {:induction false} ChildDeleteWithin(md: Schema, c: Obj, ds: seq<Obj>, x: string)
    requires ChildDelete(md, c, ds, x)
    ensures x in DnsOf(c)
    decreases c, 1
  {
    var m := Lookup(ds, Dn(c));
    if m.Some? { DeleteBelow(md, c, m.value, x); }
  }

  /** Below a matched pair, the removed DNs are the ones its comparison asked for. */
  ghost predicate GoneBelow(md: Schema, c: Obj, d: Obj, gone: set<string>) {
    forall x :: x in Dns(c.children) ==> (x in gone <==> ObjDelete(md, c, d, x))
  }

  /** Unique names keep the deletes of one child out of the others. */
  lemma DeleteOwner(md: Schema, c: Obj, d: Obj, i: nat, x: string)
    requires UniqueForest(c.children) && c.cls == d.cls && i < |c.children| && x in DnsOf(c.children[i])
    ensures ObjDelete(md, c, d, x) <==> ChildDelete(md, c.children[i], d.children, x)
  {
    if ObjDelete(md, c, d, x) {
      var k :| 0 <= k < |c.children| && ChildDelete(md, c.children[k], d.children, x);
      ChildDeleteWithin(md, c.children[k], d.children, x);
      UniqueOwner(c.children, i, k, x);
    }
  }

  lemma GoneChild(md: Schema, c: Obj, d: Obj, gone: set<string>, i: nat)
    requires UniqueForest(c.children) && c.cls == d.cls && GoneBelow(md, c, d, gone) && i < |c.children|
    ensures var m := Lookup(d.children, Dn(c.children[i]));
      if m.None? then Dn(c.children[i]) in gone <==> Deletable(md, c.children[i].cls)
      else Dn(c.children[i]) !in gone && GoneBelow(md, c.children[i], m.value, gone)
  {
    var o := c.children[i];
    var m := Lookup(d.children, Dn(o));
    DnsAt(c.children, i);
    DeleteOwner(md, c, d, i, Dn(o));
    if m.Some? {
      if ObjDelete(md, o, m.value, Dn(o)) { DeleteBelow(md, o, m.value, Dn(o)); }
      forall x | x in Dns(o.children) ensures x in gone <==> ObjDelete(md, o, m.value, x) {
        DeleteOwner(md, c, d, i, x);
      }
    }
  }

  // ----- A matched pair after the operations -----

  lemma {:induction false} NothingToDo(md: Schema, d: Obj)
    requires SortedForest(d.children)
    ensures !Differs(md, d, d)
    ensures forall x :: !ObjDelete(md, d, d, x)
    decreases d
  {
    forall j | 0 <= j < |d.children|
      ensures !ChildDiffers(md, d.children, d.children[j])
      ensures forall x :: !ChildDelete(md, d.children[j], d.children, x)
    {
      LookupAt(d.children, j);
      NothingToDo(md, d.children[j]);
    }
  }

  ghost predicate PairReady(md: Schema, c: Obj, d: Obj, gone: set<string>) {
    && SortedForest(c.children) && SortedForest(d.children) && UniqueForest(c.children)
    && SameClasses(c, d) && GoneBelow(md, c, d, gone)
  }

  lemma ReadyChild(md: Schema, c: Obj, d: Obj, gone: set<string>, x: string)
    requires PairReady(md, c, d, gone)
    requires Lookup(c.children, x).Some? && Lookup(d.children, x).Some?
    ensures x !in gone
    ensures PairReady(md, Lookup(c.children, x).value, Lookup(d.children, x).value, gone)
    ensures Lookup(d.children, x).value < d
  {
    var o, w := Lookup(c.children, x).value, Lookup(d.children, x).value;
    var i :| 0 <= i < |c.children| && c.children[i] == o;
    var j :| 0 <= j < |d.children| && d.children[j] == w;
    GoneChild(md, c, d, gone, i);
  }

  lemma ExtraChild(md: Schema, c: Obj, d: Obj, gone: set<string>, x: string)
    requires PairReady(md, c, d, gone)
    requires Lookup(c.children, x).Some? && Lookup(d.children, x).None?
    ensures x in gone <==> Deletable(md, Lookup(c.children, x).value.cls)
  {
    var o := Lookup(c.children, x).value;
    var i :| 0 <= i < |c.children| && c.children[i] == o;
    GoneChild(md, c, d, gone, i);
  }

  /** After deletes and a POST of `d`, the pair agrees exactly when it was settable. */
  lemma {:induction false} PostedPair(md: Schema, c: Obj, d: Obj, gone: set<string>)
    requires PairReady(md, c, d, gone)
    ensures Differs(md, Upsert(PruneObj(c, gone), d), d) <==> !Settable(md, c, d)
    ensures forall x :: !ObjDelete(md, Upsert(PruneObj(c, gone), d), d, x)
    decreases d
  {
    var pruned := Prune(c.children, gone);
    var e := Upsert(PruneObj(c, gone), d);
    UpsertAgrees(md, c, d);
    PruneSorted(c.children, gone);
    UpsertSorted(pruned, d.children);
    forall j | 0 <= j < |d.children|
      ensures ChildDiffers(md, e.children, d.children[j]) <==> !ChildSettable(md, c.children, d.children[j])
    {
      LookupAt(d.children, j);
      PostedChild(md, c, d, gone, Dn(d.children[j]));
    }
    forall k, x | 0 <= k < |e.children|
      ensures !ChildDelete(md, e.children[k], d.children, x)
    {
      LookupAt(e.children, k);
      PostedChild(md, c, d, gone, Dn(e.children[k]));
    }
  }

  lemma {:induction false} PostedChild(md: Schema, c: Obj, d: Obj, gone: set<string>, x: string)
    requires PairReady(md, c, d, gone)
    ensures var e := Lookup(UpsertAll(Prune(c.children, gone), d.children), x);
      var w := Lookup(d.children, x);
      && (w.Some? ==> e.Some? && (Differs(md, e.value, w.value) <==> !ChildSettable(md, c.children, w.value)))
      && (e.Some? ==> forall y :: !ChildDelete(md, e.value, d.children, y))
    decreases d, 0
  {
    var pruned := Prune(c.children, gone);
    PruneSorted(c.children, gone);
    PruneLookup(c.children, gone, x);
    UpsertLookup(pruned, d.children, x);
    var o, w := Lookup(c.children, x), Lookup(d.children, x);
    if w.Some? && o.Some? {
      ReadyChild(md, c, d, gone, x);
      UpsertName(PruneObj(o.value, gone), w.value);
      PostedPair(md, o.value, w.value, gone);
    } else if w.Some? {
      var j :| 0 <= j < |d.children| && d.children[j] == w.value;
      NothingToDo(md, w.value);
    } else if o.Some? {
      ExtraChild(md, c, d, gone, x);
    }
  }

  /** A pair that needs no POST is settable, and stays settled under the deletes. */
  lemma {:induction false} KeptPair(md: Schema, c: Obj, d: Obj, gone: set<string>)
    requires PairReady(md, c, d, gone) && !Differs(md, c, d)
    ensures Settable(md, c, d) && !Differs(md, PruneObj(c, gone), d)
    ensures forall x :: !ObjDelete(md, PruneObj(c, gone), d, x)
    decreases d
  {
    var e := PruneObj(c, gone);
    UpsertAgrees(md, c, d);
    PruneSorted(c.children, gone);
    forall j | 0 <= j < |d.children|
      ensures ChildSettable(md, c.children, d.children[j]) && !ChildDiffers(md, e.children, d.children[j])
    {
      LookupAt(d.children, j);
      assert !ChildDiffers(md, c.children, d.children[j]);
      KeptChild(md, c, d, gone, Dn(d.children[j]));
    }
    forall k, x | 0 <= k < |e.children|
      ensures !ChildDelete(md, e.children[k], d.children, x)
    {
      LookupAt(e.children, k);
      KeptChild(md, c, d, gone, Dn(e.children[k]));
    }
  }

  lemma {:induction false} KeptChild(md: Schema, c: Obj, d: Obj, gone: set<string>, x: string)
    requires PairReady(md, c, d, gone) && !Differs(md, c, d)
    ensures var e, w := Lookup(Prune(c.children, gone), x), Lookup(d.children, x);
      && (w.Some? ==> e.Some? && !Differs(md, e.value, w.value) && ChildSettable(md, c.children, w.value))
      && (e.Some? ==> forall y :: !ChildDelete(md, e.value, d.children, y))
    decreases d, 0
  {
    PruneLookup(c.children, gone, x);
    var o, w := Lookup(c.children, x), Lookup(d.children, x);
    if w.Some? {
      var j :| 0 <= j < |d.children| && d.children[j] == w.value;
      assert !ChildDiffers(md, c.children, d.children[j]);
      ReadyChild(md, c, d, gone, x);
      KeptPair(md, o.value, w.value, gone);
    } else if o.Some? {
      ExtraChild(md, c, d, gone, x);
    }
  }

  // ----- The whole forest -----

  lemma {:induction false} UpdatesSorted(md: Schema, containers: set<string>, current: seq<Obj>, desired: seq<Obj>)
    requires SortedForest(desired)
    ensures SortedForest(Updates(md, containers, current, desired))
  {
    if desired != [] {
      var front, last := desired[..|desired| - 1], desired[|desired| - 1];
      UpdatesSorted(md, containers, current, front);
      var us := Updates(md, containers, current, front);
      forall i | 0 <= i < |us| ensures StrLess(Dn(us[i]), Dn(last)) {
        UpdatesExact(md, containers, current, front, us[i]);
      }
    }
  }

  lemma UpdatesLookup(md: Schema, containers: set<string>, current: seq<Obj>, desired: seq<Obj>, x: string)
    requires SortedForest(desired)
    ensures Lookup(Updates(md, containers, current, desired), x) ==
              (var w := Lookup(desired, x);
               if w.Some? && NeedsUpdate(md, containers, current, w.value) then w else None)
  {
    var us := Updates(md, containers, current, desired);
    var u, w := Lookup(us, x), Lookup(desired, x);
    UpdatesSorted(md, containers, current, desired);
    if u.Some? {
      UpdatesExact(md, containers, current, desired, u.value);
      var j :| 0 <= j < |desired| && desired[j] == u.value;
      LookupAt(desired, j);
    }
    if w.Some? {
      UpdatesExact(md, containers, current, desired, w.value);
      if w.value in us {
        var i :| 0 <= i < |us| && us[i] == w.value;
        LookupAt(us, i);
      }
    }
  }

  ghost predicate ForestReady(md: Schema, containers: set<string>, current: seq<Obj>, desired: seq<Obj>,
                              gone: set<string>) {
    && SortedForest(current) && SortedForest(desired) && UniqueForest(current) && ForestSameClasses(current, desired)
    && forall x :: x in gone <==> ForestDelete(md, containers, current, desired, x)
  }

  lemma TopDeleteOwner(md: Schema, containers: set<string>, current: seq<Obj>, desired: seq<Obj>, i: nat, x: string)
    requires UniqueForest(current) && i < |current| && x in DnsOf(current[i])
    ensures ForestDelete(md, containers, current, desired, x) <==> TopDelete(md, containers, current[i], desired, x)
  {
    if ForestDelete(md, containers, current, desired, x) {
      var k :| 0 <= k < |current| && TopDelete(md, containers, current[k], desired, x);
      var m := Lookup(desired, Dn(current[k]));
      if m.Some? { DeleteBelow(md, current[k], m.value, x); }
      UniqueOwner(current, i, k, x);
    }
  }

  lemma GoneTop(md: Schema, containers: set<string>, current: seq<Obj>, desired: seq<Obj>, gone: set<string>, x: string)
    requires ForestReady(md, containers, current, desired, gone) && Lookup(current, x).Some?
    ensures var o, w := Lookup(current, x).value, Lookup(desired, x);
      if w.None? then x in gone <==> Deletable(md, o.cls)
      else && x !in gone && o.cls == w.value.cls
           && (x !in containers ==> PairReady(md, o, w.value, gone))
  {
    var o, w := Lookup(current, x).value, Lookup(desired, x);
    var i :| 0 <= i < |current| && current[i] == o;
    TopDeleteOwner(md, containers, current, desired, i, x);
    if w.Some? {
      var j :| 0 <= j < |desired| && desired[j] == w.value;
      if ObjDelete(md, o, w.value, x) { DeleteBelow(md, o, w.value, x); }
      if x !in containers {
        forall y | y in Dns(o.children) ensures y in gone <==> ObjDelete(md, o, w.value, y) {
          TopDeleteOwner(md, containers, current, desired, i, y);
        }
      }
    }
  }

  /** What stands at the name `x` once the diff has been applied. */
  lemma Outcome(md: Schema, containers: set<string>, current: seq<Obj>, desired: seq<Obj>, gone: set<string>, x: string)
    requires ForestReady(md, containers, current, desired, gone)
    ensures var e := Lookup(UpsertAll(Prune(current, gone), Updates(md, containers, current, desired)), x);
      var w := Lookup(desired, x);
      && (w.Some? ==>
            && e.Some?
            && (PairDiffers(md, containers, e.value, w.value) <==> !TopSettable(md, containers, current, w.value)))
      && (e.Some? ==> forall y :: !TopDelete(md, containers, e.value, desired, y))
  {
    PruneSorted(current, gone);
    PruneLookup(current, gone, x);
    UpdatesSorted(md, containers, current, desired);
    UpdatesLookup(md, containers, current, desired, x);
    UpsertLookup(Prune(current, gone), Updates(md, containers, current, desired), x);
    var o, w := Lookup(current, x), Lookup(desired, x);
    if o.Some? { GoneTop(md, containers, current, desired, gone, x); }
    if w.Some? && o.Some? {
      UpsertName(PruneObj(o.value, gone), w.value);
      UpsertAgrees(md, o.value, w.value);
      if x !in containers {
        PostedPair(md, o.value, w.value, gone);
        if !Differs(md, o.value, w.value) { KeptPair(md, o.value, w.value, gone); }
      }
    } else if w.Some? {
      NothingToDo(md, w.value);
    }
  }

  lemma Settled(md: Schema, containers: set<string>, current: seq<Obj>, desired: seq<Obj>)
    requires SortedForest(current) && SortedForest(desired)
    ensures Updates(md, containers, current, desired) == [] <==>
              forall j :: 0 <= j < |desired| ==> !NeedsUpdate(md, containers, current, desired[j])
    ensures ForestDeletes(md, containers, current, desired) == [] <==>
              forall x :: !ForestDelete(md, containers, current, desired, x)
  {
    var us, xs := Updates(md, containers, current, desired), ForestDeletes(md, containers, current, desired);
    if us != [] {
      UpdatesExact(md, containers, current, desired, us[0]);
    } else {
      forall j | 0 <= j < |desired| ensures !NeedsUpdate(md, containers, current, desired[j]) {
        UpdatesExact(md, containers, current, desired, desired[j]);
      }
    }
    forall x ensures x in xs <==> ForestDelete(md, containers, current, desired, x) {
      ForestDeletesExact(md, containers, current, desired, x);
    }
    if xs != [] { assert xs[0] in xs; }
  }

  /**
   Diff convergence. The controller's names are unique and a name fixes a class. Then
   applying the diff always leaves nothing to delete, and leaves nothing to update exactly
   when every matched object was settable.
   */
  lemma DiffConverges(md: Schema, containers: set<string>, current: seq<Obj>, desired: seq<Obj>)
    requires SortedForest(current) && SortedForest(desired)
    requires UniqueForest(current) && ForestSameClasses(current, desired)
    ensures var after := Applied(md, containers, current, desired);
      && SortedForest(after)
      && ForestDeletes(md, containers, after, desired) == []
      && (Updates(md, containers, after, desired) == [] <==> ForestSettable(md, containers, current, desired))
  {
    var gone := ToSet(ForestDeletes(md, containers, current, desired));
    forall x ensures x in gone <==> ForestDelete(md, containers, current, desired, x) {
      ForestDeletesExact(md, containers, current, desired, x);
    }
    var after := Applied(md, containers, current, desired);
    PruneSorted(current, gone);
    UpdatesSorted(md, containers, current, desired);
    UpsertSorted(Prune(current, gone), Updates(md, containers, current, desired));
    Settled(md, containers, after, desired);
    forall j | 0 <= j < |desired|
      ensures NeedsUpdate(md, containers, after, desired[j]) <==> !TopSettable(md, containers, current, desired[j])
    {
      LookupAt(desired, j);
      Outcome(md, containers, current, desired, gone, Dn(desired[j]));
    }
    forall k, x | 0 <= k < |after| ensures !TopDelete(md, containers, after[k], desired, x) {
      LookupAt(after, k);
      Outcome(md, containers, current, desired, gone, Dn(after[k]));
    }
  }

  /** Carries every compared attribute, at every depth: objects made by newApicObject and tagged by PrepareApicSlice. */
  ghost predicate Complete(md: Schema, d: Obj)
    decreases d
  {
    && (d.cls in md ==> md[d.cls].attributes.Keys <= d.attrs.Keys && (IsTagClass(d.cls) || "annotation" in d.attrs))
    && forall j :: 0 <= j < |d.children| ==> Complete(md, d.children[j])
  }

  lemma {:induction false} CompleteIsSettable(md: Schema, c: Obj, d: Obj)
    requires Complete(md, d) && SameClasses(c, d)
    ensures Settable(md, c, d)
    decreases d
  {
    forall j | 0 <= j < |d.children| ensures ChildSettable(md, c.children, d.children[j]) {
      var m := Lookup(c.children, Dn(d.children[j]));
      if m.Some? { CompleteIsSettable(md, m.value, d.children[j]); }
    }
  }

  /** Complete wanted objects always converge in one round, whatever the controller held. */
  lemma CompleteConverges(md: Schema, containers: set<string>, current: seq<Obj>, desired: seq<Obj>)
    requires SortedForest(current) && SortedForest(desired)
    requires UniqueForest(current) && ForestSameClasses(current, desired)
    requires forall j :: 0 <= j < |desired| ==> Complete(md, desired[j])
    ensures var after := Applied(md, containers, current, desired);
      Updates(md, containers, after, desired) == [] && ForestDeletes(md, containers, after, desired) == []
  {
    DiffConverges(md, containers, current, desired);
    forall j | 0 <= j < |desired| ensures TopSettable(md, containers, current, desired[j]) {
      var m := Lookup(current, Dn(desired[j]));
      if m.Some? { CompleteIsSettable(md, m.value, desired[j]); }
    }
  }

  // ----- Further rounds -----

  lemma {:induction false} PruneNone(f: seq<Obj>)
    ensures Prune(f, {}) == f
    decreases f
  {
    if f != [] {
      PruneNone(f[0].children);
      PruneNone(f[1..]);
      assert f == [f[0]] + f[1..];
    }
  }

  lemma {:induction false} UpsertTwice(c: Obj, d: Obj)
    requires Dn(c) == Dn(d) && SortedForest(c.children) && SortedForest(d.children)
    ensures Upsert(Upsert(c, d), d) == Upsert(c, d)
    decreases d, 1
  {
    UpsertName(c, d);
    UpsertMore(c.children, d.children, d.children);
    assert c.attrs + d.attrs + d.attrs == c.attrs + d.attrs;
  }

  lemma {:induction false} UpsertSelf(d: Obj)
    requires SortedForest(d.children)
    ensures Upsert(d, d) == d
    decreases d, 1
  {
    UpsertMore([], d.children, d.children);
    assert UpsertAll([], d.children) == d.children;
    assert d.attrs + d.attrs == d.attrs;
  }

  lemma SubFront(us: seq<Obj>, vs: seq<Obj>)
    requires us != [] && vs != [] && SortedForest(us) && SortedForest(vs) && forall v :: v in vs ==> v in us
    ensures || (vs[0] == us[0] && forall v :: v in vs[1..] ==> v in us[1..])
            || (StrLess(Dn(us[0]), Dn(vs[0])) && forall v :: v in vs ==> v in us[1..])
  {
    forall j | 0 <= j < |vs| && StrLess(Dn(us[0]), Dn(vs[j])) ensures vs[j] in us[1..] {
      StrLessIrreflexive(Dn(us[0]));
      assert vs[j] in us;
      var i :| 0 <= i < |us| && us[i] == vs[j];
      assert us[1..][i - 1] == vs[j];
    }
    assert vs[0] in us;
    var i :| 0 <= i < |us| && us[i] == vs[0];
    if i > 0 {
      forall j | 0 < j < |vs| ensures StrLess(Dn(us[0]), Dn(vs[j])) {
        StrLessTransitive(Dn(us[0]), Dn(vs[0]), Dn(vs[j]));
      }
    }
  }

  /** An object at the front that is already as posted stays. */
  lemma FrontAgain(h: Obj, rest: seq<Obj>, u: Obj, vs: seq<Obj>)
    requires vs != [] && Dn(h) == Dn(u) && Upsert(h, u) == h
    requires || (vs[0] == u && UpsertAll(rest, vs[1..]) == rest)
             || (StrLess(Dn(u), Dn(vs[0])) && UpsertAll(rest, vs) == rest)
    ensures UpsertAll([h] + rest, vs) == [h] + rest
  {
    StrLessIrreflexive(Dn(h));
    assert ([h] + rest)[1..] == rest;
  }

  /** Posting again what has been posted changes nothing. */
  lemma {:induction false} UpsertMore(cs: seq<Obj>, us: seq<Obj>, vs: seq<Obj>)
    requires SortedForest(cs) && SortedForest(us) && SortedForest(vs) && forall v :: v in vs ==> v in us
    ensures UpsertAll(UpsertAll(cs, us), vs) == UpsertAll(cs, us)
    decreases us, 0, |cs|
  {
    if vs != [] {
      assert vs[0] in us;
      SortedCons(us);
      SortedCons(vs);
      SubFront(us, vs);
      var rest := if vs[0] == us[0] then vs[1..] else vs;
      StrLessIrreflexive(Dn(us[0]));
      if cs == [] {
        UpsertSelf(us[0]);
        UpsertMore(cs, us[1..], rest);
        assert us == [us[0]] + us[1..];
        FrontAgain(us[0], us[1..], us[0], vs);
      } else {
        SortedCons(cs);
        StrLessTotal(Dn(cs[0]), Dn(us[0]));
        if StrLess(Dn(cs[0]), Dn(us[0])) {
          UpsertMore(cs[1..], us, vs);
          LowerFront(cs[0], UpsertAll(cs[1..], us), us[0], vs);
        } else if Dn(cs[0]) == Dn(us[0]) {
          UpsertTwice(cs[0], us[0]);
          UpsertName(cs[0], us[0]);
          UpsertMore(cs[1..], us[1..], rest);
          FrontAgain(Upsert(cs[0], us[0]), UpsertAll(cs[1..], us[1..]), us[0], vs);
        } else {
          UpsertSelf(us[0]);
          UpsertMore(cs, us[1..], rest);
          FrontAgain(us[0], UpsertAll(cs, us[1..]), us[0], vs);
        }
      }
    }
  }

  lemma LowerFront(c: Obj, rest: seq<Obj>, u: Obj, vs: seq<Obj>)
    requires vs != [] && StrLess(Dn(c), Dn(u))
    requires (vs[0] == u || StrLess(Dn(u), Dn(vs[0]))) && UpsertAll(rest, vs) == rest
    ensures UpsertAll([c] + rest, vs) == [c] + rest
  {
    if vs[0] != u { StrLessTransitive(Dn(c), Dn(u), Dn(vs[0])); }
    assert ([c] + rest)[1..] == rest;
  }

  /** Applying the diff again changes nothing more: the first round reaches a fixed point. */
  lemma AppliedIsStable(md: Schema, containers: set<string>, current: seq<Obj>, desired: seq<Obj>)
    requires SortedForest(current) && SortedForest(desired)
    requires UniqueForest(current) && ForestSameClasses(current, desired)
    ensures var after := Applied(md, containers, current, desired);
      Applied(md, containers, after, desired) == after
  {
    var gone := ToSet(ForestDeletes(md, containers, current, desired));
    forall x ensures x in gone <==> ForestDelete(md, containers, current, desired, x) {
      ForestDeletesExact(md, containers, current, desired, x);
    }
    var after := Applied(md, containers, current, desired);
    var us, vs := Updates(md, containers, current, desired), Updates(md, containers, after, desired);
    DiffConverges(md, containers, current, desired);
    PruneSorted(current, gone);
    UpdatesSorted(md, containers, current, desired);
    UpdatesSorted(md, containers, after, desired);
    forall v | v in vs ensures v in us { UpdatedAgain(md, containers, current, desired, gone, v); }
    hide *;
    UpsertMore(Prune(current, gone), us, vs);
    PruneNone(after);
    AppliedIs(md, containers, current, desired);
    AppliedIs(md, containers, after, desired);
    assert ToSet([]) == {} by { NoneToSet(); }
  }

  lemma NoneToSet()
    ensures ToSet([]) == {}
  {
  }

  lemma AppliedIs(md: Schema, containers: set<string>, current: seq<Obj>, desired: seq<Obj>)
    ensures Applied(md, containers, current, desired) ==
      UpsertAll(Prune(current, ToSet(ForestDeletes(md, containers, current, desired))),
        Updates(md, containers, current, desired))
  {
  }

  /** Only what was posted before is posted again. */
  lemma UpdatedAgain(md: Schema, containers: set<string>, current: seq<Obj>, desired: seq<Obj>, gone: set<string>,
                     v: Obj)
    requires ForestReady(md, containers, current, desired, gone)
    requires var after := UpsertAll(Prune(current, gone), Updates(md, containers, current, desired));
      v in Updates(md, containers, after, desired)
    ensures v in Updates(md, containers, current, desired)
  {
    var after := UpsertAll(Prune(current, gone), Updates(md, containers, current, desired));
    UpdatesExact(md, containers, after, desired, v);
    UpdatesExact(md, containers, current, desired, v);
    var j :| 0 <= j < |desired| && desired[j] == v;
    LookupAt(desired, j);
    Outcome(md, containers, current, desired, gone, Dn(v));
    hide Updates, UpsertAll, Prune;
    var o := Lookup(current, Dn(v));
    if o.Some? {
      GoneTop(md, containers, current, desired, gone, Dn(v));
      UpsertAgrees(md, o.value, v);
      if Dn(v) !in containers && !Differs(md, o.value, v) { KeptPair(md, o.value, v, gone); }
    }
  }

  /** The controller after `n` rounds of diff and application. */
  ghost function Rounds(md: Schema, containers: set<string>, current: seq<Obj>, desired: seq<Obj>, n: nat): seq<Obj> {
    if n == 0 then current else Applied(md, containers, Rounds(md, containers, current, desired, n - 1), desired)
  }

  /** However many rounds follow the first, nothing is left to delete, and to update exactly if all was settable. */
  lemma {:induction false} RoundsConverge(md: Schema, containers: set<string>, current: seq<Obj>, desired: seq<Obj>,
                                          n: nat)
    requires SortedForest(current) && SortedForest(desired)
    requires UniqueForest(current) && ForestSameClasses(current, desired)
    requires n > 0
    ensures var end := Rounds(md, containers, current, desired, n);
      && end == Applied(md, containers, current, desired)
      && ForestDeletes(md, containers, end, desired) == []
      && (Updates(md, containers, end, desired) == [] <==> ForestSettable(md, containers, current, desired))
  {
    if n == 1 {
      assert Rounds(md, containers, current, desired, 0) == current;
    } else {
      RoundsConverge(md, containers, current, desired, n - 1);
      AppliedIsStable(md, containers, current, desired);
    }
    hide *;
    DiffConverges(md, containers, current, desired);
  }

  lemma SingleUpdate(md: Schema, current: seq<Obj>, d: Obj)
    ensures Updates(md, {}, current, [d]) == if NeedsUpdate(md, {}, current, d) then [d] else []
  {
    assert [d][..0] == [];
  }

  /** An object that no POST can bring to its wanted state is posted in every round. */
  lemma UnsettableNeverConverges(md: Schema, c: Obj, d: Obj, n: nat)
    requires SortedForest([c]) && SortedForest([d]) && UniqueForest([c])
    requires Dn(c) == Dn(d) && SameClasses(c, d) && !SettableAttrs(md, c, d)
    ensures Updates(md, {}, Rounds(md, {}, [c], [d], n), [d]) == [d]
  {
    hide Applied, Updates, ForestDeletes, StrLess, Rounds, SameClasses, SettableAttrs, AttrsAgree;
    assert Lookup([c], Dn(d)) == Some(c) && [d][0] == d;
    if n == 0 {
      UpsertAgrees(md, c, d);
      SameClassesTop(c, d);
      assert NeedsUpdate(md, {}, [c], d);
      SingleUpdate(md, [c], d);
      NoRounds(md, [c], [d]);
    } else {
      RoundsConverge(md, {}, [c], [d], n);
      assert !TopSettable(md, {}, [c], [d][0]);
      SingleUpdate(md, Rounds(md, {}, [c], [d], n), d);
    }
  }

  lemma SameClassesTop(c: Obj, d: Obj)
    requires SameClasses(c, d)
    ensures c.cls == d.cls
  {
  }

  lemma NoRounds(md: Schema, current: seq<Obj>, desired: seq<Obj>)
    ensures Rounds(md, {}, current, desired, 0) == current
  {
  }
}
