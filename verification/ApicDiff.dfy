/**
 The desired-state diff (pkg/apicapi/apic_sync.go): a recursive two-pointer merge of sorted
 object forests that yields the objects to POST and the DNs to DELETE.

 The merge is specified pointwise on DNs, without order: `Differs`, `ObjDelete`,
 `NeedsUpdate` and `ForestDelete`. The methods are the source's loops, proved against that
 specification for every schema and every pair of sorted forests.
 */
module ApicDiff {
  import opened ApicTypes

  function AttrOr(attrs: map<string, Value>, p: string, default: Value): Value {
    if p in attrs then attrs[p] else default
  }

  predicate IsTagClass(cls: string) {
    cls == "tagAnnotation" || cls == "tagInst"
  }

  /** Schema attributes agree, with schema defaults for the missing ones, and so does the owner annotation. */
  predicate AttrsAgree(md: Schema, cls: string, c: map<string, Value>, d: map<string, Value>) {
    cls in md ==>
      && (forall p :: p in md[cls].attributes ==>
            AttrOr(c, p, md[cls].attributes[p]) == AttrOr(d, p, md[cls].attributes[p]))
      && (IsTagClass(cls) || AttrOr(c, "annotation", Str("")) == AttrOr(d, "annotation", Str("")))
  }

  /** What the comparison sees of an object's attributes. */
  datatype Projection = Projection(attrs: map<string, Value>, annotation: Value)

  function Project(md: Schema, cls: string, attrs: map<string, Value>): Projection {
    if cls !in md then Projection(map[], Str(""))
    else Projection(map p | p in md[cls].attributes :: AttrOr(attrs, p, md[cls].attributes[p]),
                    if IsTagClass(cls) then Str("") else AttrOr(attrs, "annotation", Str("")))
  }

  lemma AgreeIsSameProjection(md: Schema, cls: string, c: map<string, Value>, d: map<string, Value>)
    ensures AttrsAgree(md, cls, c, d) <==> Project(md, cls, c) == Project(md, cls, d)
  {
    if cls in md && Project(md, cls, c) == Project(md, cls, d) {
      forall p | p in md[cls].attributes
        ensures AttrOr(c, p, md[cls].attributes[p]) == AttrOr(d, p, md[cls].attributes[p])
      {
        assert Project(md, cls, c).attrs[p] == Project(md, cls, d).attrs[p];
      }
    }
  }

  /** apicBodyAttrCmp: stops at the first attribute that differs. */
  method BodyAttrCmp(md: Schema, cls: string, c: map<string, Value>, d: map<string, Value>) returns (same: bool)
    ensures same <==> Project(md, cls, c) == Project(md, cls, d)
  {
    AgreeIsSameProjection(md, cls, c, d);
    if cls !in md { return true; }
    var attributes := md[cls].attributes;
    var todo := attributes.Keys;
    while todo != {}
      invariant todo <= attributes.Keys
      invariant forall p :: p in attributes.Keys - todo ==> AttrOr(c, p, attributes[p]) == AttrOr(d, p, attributes[p])
      decreases todo
    {
      var p :| p in todo;
      if AttrOr(c, p, attributes[p]) != AttrOr(d, p, attributes[p]) { return false; }
      todo := todo - {p};
    }
    if !IsTagClass(cls) && AttrOr(c, "annotation", Str("")) != AttrOr(d, "annotation", Str("")) { return false; }
    return true;
  }

  /** The owner annotation counts, except on tags. */
  lemma AnnotationCounts(md: Schema, cls: string, attrs: map<string, Value>, v: Value)
    requires cls in md && "annotation" !in md[cls].attributes
    ensures AttrsAgree(md, cls, attrs, attrs["annotation" := v]) <==>
      cls == "tagAnnotation" || cls == "tagInst" || v == AttrOr(attrs, "annotation", Str(""))
  {
    var t := attrs["annotation" := v];
    assert forall p, w :: p in md[cls].attributes ==> AttrOr(t, p, w) == AttrOr(attrs, p, w);
    assert AttrOr(t, "annotation", Str("")) == v;
    hide AttrOr;
  }

  /** checkNonDeletable: false only when the schema carries the boolean hint "deletable: false". */
  predicate Deletable(md: Schema, cls: string) {
    !(cls in md && "deletable" in md[cls].hints && md[cls].hints["deletable"] == Flag(false))
  }

  // ----- The pointwise specification -----

  /** `d` must be posted again: its attributes or something in its matched subtree is not as wanted. */
  ghost predicate Differs(md: Schema, c: Obj, d: Obj)
    decreases d, 0
  {
    c.cls == d.cls &&
    (!AttrsAgree(md, c.cls, c.attrs, d.attrs) ||
     exists j :: 0 <= j < |d.children| && ChildDiffers(md, c.children, d.children[j]))
  }

  ghost predicate ChildDiffers(md: Schema, cs: seq<Obj>, d: Obj)
    decreases d, 1
  {
    var m := Lookup(cs, Dn(d));
    m.None? || Differs(md, m.value, d)
  }

  /** `x` is an unwanted, deletable DN somewhere below the matched pair. */
  ghost predicate ObjDelete(md: Schema, c: Obj, d: Obj, x: string)
    decreases c, 0
  {
    c.cls == d.cls && exists i :: 0 <= i < |c.children| && ChildDelete(md, c.children[i], d.children, x)
  }

  ghost predicate ChildDelete(md: Schema, c: Obj, ds: seq<Obj>, x: string)
    decreases c, 1
  {
    var m := Lookup(ds, Dn(c));
    if m.None? then Deletable(md, c.cls) && x == Dn(c) else ObjDelete(md, c, m.value, x)
  }

  /** Container objects are compared on their own attributes only. */
  ghost predicate PairDiffers(md: Schema, containers: set<string>, c: Obj, d: Obj) {
    if Dn(c) in containers then !(c.cls == d.cls && AttrsAgree(md, c.cls, c.attrs, d.attrs)) else Differs(md, c, d)
  }

  ghost predicate NeedsUpdate(md: Schema, containers: set<string>, current: seq<Obj>, d: Obj) {
    var m := Lookup(current, Dn(d));
    m.None? || PairDiffers(md, containers, m.value, d)
  }

  ghost predicate TopDelete(md: Schema, containers: set<string>, c: Obj, desired: seq<Obj>, x: string) {
    var m := Lookup(desired, Dn(c));
    if m.None? then Deletable(md, c.cls) && x == Dn(c)
    else Dn(c) !in containers && ObjDelete(md, c, m.value, x)
  }

  ghost predicate ForestDelete(md: Schema, containers: set<string>, current: seq<Obj>, desired: seq<Obj>, x: string) {
    exists i :: 0 <= i < |current| && TopDelete(md, containers, current[i], desired, x)
  }

  /** What lies below a container makes no difference. */
  lemma ContainersAreShallow(md: Schema, containers: set<string>, c: Obj, d: Obj, cs: seq<Obj>, ds: seq<Obj>,
                             desired: seq<Obj>, x: string)
    requires Dn(c) in containers
    ensures PairDiffers(md, containers, c.(children := cs), d.(children := ds)) <==> PairDiffers(md, containers, c, d)
    ensures TopDelete(md, containers, c.(children := cs), desired, x) <==> TopDelete(md, containers, c, desired, x)
    ensures TopDelete(md, containers, c, desired, x) ==> x == Dn(c)
  {
  }

  /** Objects of different classes under one name are left alone, with all that is below them. */
  lemma OtherClassIsLeft(md: Schema, c: Obj, d: Obj, x: string)
    requires c.cls != d.cls
    ensures !Differs(md, c, d) && !ObjDelete(md, c, d, x)
  {
  }

  // ----- The same answers as lists, in the order the merge emits them -----

  ghost predicate AnyDiffers(md: Schema, cs: seq<Obj>, ds: seq<Obj>) {
    ds != [] && (AnyDiffers(md, cs, ds[..|ds| - 1]) || ChildDiffers(md, cs, ds[|ds| - 1]))
  }

  ghost function ObjDeletes(md: Schema, c: Obj, d: Obj): seq<string>
    decreases c, 0
  {
    if c.cls != d.cls then [] else ChildrenDeletes(md, c.children, d.children)
  }

  ghost function ChildrenDeletes(md: Schema, cs: seq<Obj>, ds: seq<Obj>): seq<string>
    decreases cs, 0
  {
    if cs == [] then [] else ChildrenDeletes(md, cs[..|cs| - 1], ds) + ChildDeletes(md, cs[|cs| - 1], ds)
  }

  ghost function ChildDeletes(md: Schema, c: Obj, ds: seq<Obj>): seq<string>
    decreases c, 1
  {
    var m := Lookup(ds, Dn(c));
    if m.None? then (if Deletable(md, c.cls) then [Dn(c)] else []) else ObjDeletes(md, c, m.value)
  }

  ghost function TopDeletes(md: Schema, containers: set<string>, c: Obj, desired: seq<Obj>): seq<string> {
    if Lookup(desired, Dn(c)).Some? && Dn(c) in containers then [] else ChildDeletes(md, c, desired)
  }

  ghost function ForestDeletes(md: Schema, containers: set<string>, current: seq<Obj>, desired: seq<Obj>): seq<string> {
    if current == [] then []
    else ForestDeletes(md, containers, current[..|current| - 1], desired) +
         TopDeletes(md, containers, current[|current| - 1], desired)
  }

  /** The wanted objects that need an update, in order. */
  ghost function Updates(md: Schema, containers: set<string>, current: seq<Obj>, desired: seq<Obj>): seq<Obj> {
    if desired == [] then []
    else
      var last := desired[|desired| - 1];
      Updates(md, containers, current, desired[..|desired| - 1]) +
      (if NeedsUpdate(md, containers, current, last) then [last] else [])
  }

  lemma EmitStep(md: Schema, cs: seq<Obj>, i: nat, ds: seq<Obj>, j: nat)
    requires i <= |cs| && j <= |ds|
    ensures i < |cs| ==>
      ChildrenDeletes(md, cs[..i + 1], ds) == ChildrenDeletes(md, cs[..i], ds) + ChildDeletes(md, cs[i], ds)
    ensures j < |ds| ==> AnyDiffers(md, cs, ds[..j + 1]) == (AnyDiffers(md, cs, ds[..j]) || ChildDiffers(md, cs, ds[j]))
  {
    if i < |cs| { assert cs[..i + 1][..i] == cs[..i]; }
    if j < |ds| { assert ds[..j + 1][..j] == ds[..j]; }
  }

  lemma EmitTopStep(md: Schema, containers: set<string>, cs: seq<Obj>, i: nat, ds: seq<Obj>, j: nat)
    requires i <= |cs| && j <= |ds|
    ensures i < |cs| ==> ForestDeletes(md, containers, cs[..i + 1], ds) ==
                         ForestDeletes(md, containers, cs[..i], ds) + TopDeletes(md, containers, cs[i], ds)
    ensures j < |ds| ==> Updates(md, containers, cs, ds[..j + 1]) ==
                         Updates(md, containers, cs, ds[..j]) +
                         if NeedsUpdate(md, containers, cs, ds[j]) then [ds[j]] else []
  {
    if i < |cs| { assert cs[..i + 1][..i] == cs[..i]; }
    if j < |ds| { assert ds[..j + 1][..j] == ds[..j]; }
  }

  lemma {:induction false} AnyDiffersExact(md: Schema, cs: seq<Obj>, ds: seq<Obj>)
    ensures AnyDiffers(md, cs, ds) <==> exists j :: 0 <= j < |ds| && ChildDiffers(md, cs, ds[j])
  {
    if ds != [] {
      var front := ds[..|ds| - 1];
      AnyDiffersExact(md, cs, front);
      assert forall j :: 0 <= j < |front| ==> front[j] == ds[j];
    }
  }

  lemma {:induction false} ObjDeletesExact(md: Schema, c: Obj, d: Obj, x: string)
    ensures x in ObjDeletes(md, c, d) <==> ObjDelete(md, c, d, x)
    decreases c, 0
  {
    if c.cls == d.cls { ChildrenDeletesExact(md, c.children, d.children, x); }
  }

  lemma {:induction false} ChildDeletesExact(md: Schema, c: Obj, ds: seq<Obj>, x: string)
    ensures x in ChildDeletes(md, c, ds) <==> ChildDelete(md, c, ds, x)
    decreases c, 1
  {
    var m := Lookup(ds, Dn(c));
    if m.Some? { ObjDeletesExact(md, c, m.value, x); }
  }

  lemma {:induction false} ChildrenDeletesExact(md: Schema, cs: seq<Obj>, ds: seq<Obj>, x: string)
    ensures x in ChildrenDeletes(md, cs, ds) <==> exists i :: 0 <= i < |cs| && ChildDelete(md, cs[i], ds, x)
    decreases cs, 0
  {
    if cs != [] {
      var front := cs[..|cs| - 1];
      ChildrenDeletesExact(md, front, ds, x);
      ChildDeletesExact(md, cs[|cs| - 1], ds, x);
      assert forall i :: 0 <= i < |front| ==> front[i] == cs[i];
    }
  }

  /** The emitted deletes are exactly the deletable current DNs with no partner at their matched place. */
  lemma {:induction false} ForestDeletesExact(md: Schema, containers: set<string>, current: seq<Obj>,
                                              desired: seq<Obj>, x: string)
    ensures x in ForestDeletes(md, containers, current, desired) <==> ForestDelete(md, containers, current, desired, x)
  {
    if current != [] {
      var front, last := current[..|current| - 1], current[|current| - 1];
      ForestDeletesExact(md, containers, front, desired, x);
      ChildDeletesExact(md, last, desired, x);
      assert x in TopDeletes(md, containers, last, desired) <==> TopDelete(md, containers, last, desired, x);
      hide TopDelete, TopDeletes, ChildDelete, ChildDeletes, ObjDelete, ObjDeletes;
      assert current == front + [last];
      if i :| 0 <= i < |front| && TopDelete(md, containers, front[i], desired, x) {
        assert TopDelete(md, containers, current[i], desired, x);
      }
      if TopDelete(md, containers, last, desired, x) {
        assert TopDelete(md, containers, current[|front|], desired, x);
      }
    }
  }

  /** The emitted updates are exactly the wanted objects that need one. */
  lemma {:induction false} UpdatesExact(md: Schema, containers: set<string>, current: seq<Obj>, desired: seq<Obj>,
                                        d: Obj)
    ensures d in Updates(md, containers, current, desired) <==> d in desired && NeedsUpdate(md, containers, current, d)
  {
    if desired != [] {
      var front, last := desired[..|desired| - 1], desired[|desired| - 1];
      UpdatesExact(md, containers, current, front, d);
      assert desired == front + [last];
    }
  }

  // ----- The merge loops -----

  /** Two cursors into sorted sibling lists: what was just passed on one side is below the head of the other. */
  ghost predicate Cursors(cs: seq<Obj>, i: nat, ds: seq<Obj>, j: nat) {
    && i <= |cs| && j <= |ds|
    && (0 < i && j < |ds| ==> StrLess(Dn(cs[i - 1]), Dn(ds[j])))
    && (0 < j && i < |cs| ==> StrLess(Dn(ds[j - 1]), Dn(cs[i])))
  }

  /** A head that is below the other list's head, or faces an exhausted list, has no partner there. */
  lemma SkipHead(cs: seq<Obj>, i: nat, ds: seq<Obj>, j: nat)
    requires SortedSiblings(cs) && SortedSiblings(ds) && Cursors(cs, i, ds, j)
    requires i < |cs| && (j < |ds| ==> StrLess(Dn(cs[i]), Dn(ds[j])))
    ensures Lookup(ds, Dn(cs[i])).None? && Cursors(cs, i + 1, ds, j)
  {
    var m := Lookup(ds, Dn(cs[i]));
    if m.Some? {
      var b :| 0 <= b < |ds| && ds[b] == m.value;
      StrLessIrreflexive(Dn(ds[b]));
      if j < b {
        StrLessTransitive(Dn(cs[i]), Dn(ds[j]), Dn(ds[b]));
      } else if b < j - 1 {
        StrLessTransitive(Dn(ds[b]), Dn(ds[j - 1]), Dn(cs[i]));
      }
    }
    if 0 < j && i + 1 < |cs| { StrLessTransitive(Dn(ds[j - 1]), Dn(cs[i]), Dn(cs[i + 1])); }
  }

  /** Equal heads are partners. */
  lemma MatchHeads(cs: seq<Obj>, i: nat, ds: seq<Obj>, j: nat)
    requires SortedSiblings(cs) && SortedSiblings(ds)
    requires i < |cs| && j < |ds| && Dn(cs[i]) == Dn(ds[j])
    ensures Lookup(ds, Dn(cs[i])) == Some(ds[j]) && Lookup(cs, Dn(ds[j])) == Some(cs[i])
    ensures Cursors(cs, i + 1, ds, j + 1)
  {
    LookupAt(cs, i);
    LookupAt(ds, j);
  }

  /** What the child merge has established when its cursors stand at `i` and `j`. */
  ghost predicate Merged(md: Schema, cs: seq<Obj>, i: nat, ds: seq<Obj>, j: nat, update: bool, deletes: seq<string>) {
    && Cursors(cs, i, ds, j)
    && update == AnyDiffers(md, cs, ds[..j])
    && deletes == ChildrenDeletes(md, cs[..i], ds)
  }

  lemma MergedStart(md: Schema, cs: seq<Obj>, ds: seq<Obj>)
    ensures Merged(md, cs, 0, ds, 0, false, [])
  {
  }

  lemma MergedOld(md: Schema, cs: seq<Obj>, i: nat, ds: seq<Obj>, j: nat, update: bool, deletes: seq<string>)
    requires SortedForest(cs) && SortedForest(ds) && Merged(md, cs, i, ds, j, update, deletes)
    requires i < |cs| && (j < |ds| ==> StrLess(Dn(cs[i]), Dn(ds[j])))
    ensures Merged(md, cs, i + 1, ds, j, update, if Deletable(md, cs[i].cls) then deletes + [Dn(cs[i])] else deletes)
  {
    SkipHead(cs, i, ds, j);
    EmitStep(md, cs, i, ds, j);
  }

  lemma MergedNew(md: Schema, cs: seq<Obj>, i: nat, ds: seq<Obj>, j: nat, update: bool, deletes: seq<string>)
    requires SortedForest(cs) && SortedForest(ds) && Merged(md, cs, i, ds, j, update, deletes)
    requires j < |ds| && (i < |cs| ==> StrLess(Dn(ds[j]), Dn(cs[i])))
    ensures Merged(md, cs, i, ds, j + 1, true, deletes)
  {
    SkipHead(ds, j, cs, i);
    EmitStep(md, cs, i, ds, j);
  }

  lemma MergedMatch(md: Schema, cs: seq<Obj>, i: nat, ds: seq<Obj>, j: nat, update: bool, deletes: seq<string>)
    requires SortedForest(cs) && SortedForest(ds) && Merged(md, cs, i, ds, j, update, deletes)
    requires i < |cs| && j < |ds| && Dn(cs[i]) == Dn(ds[j])
    ensures SortedForest(cs[i].children) && SortedForest(ds[j].children)
    ensures Merged(md, cs, i + 1, ds, j + 1, update || Differs(md, cs[i], ds[j]),
      deletes + ObjDeletes(md, cs[i], ds[j]))
  {
    MatchHeads(cs, i, ds, j);
    EmitStep(md, cs, i, ds, j);
  }

  lemma MergedAll(md: Schema, c: Obj, d: Obj, j: nat, update: bool, deletes: seq<string>)
    requires SortedForest(c.children) && SortedForest(d.children) && c.cls == d.cls
    requires Merged(md, c.children, |c.children|, d.children, j, update, deletes)
    ensures deletes == ObjDeletes(md, c, d)
    ensures Differs(md, c, d) <==>
              Project(md, c.cls, c.attrs) != Project(md, c.cls, d.attrs) || update || j < |d.children|
  {
    var cs, ds := c.children, d.children;
    assert cs[..|cs|] == cs;
    AgreeIsSameProjection(md, c.cls, c.attrs, d.attrs);
    AnyDiffersExact(md, cs, ds[..j]);
    if j < |ds| {
      SkipHead(ds, j, cs, |cs|);
      assert ChildDiffers(md, cs, ds[j]);
    } else {
      assert ds[..j] == ds;
    }
  }

  lemma DifferentClasses(md: Schema, c: Obj, d: Obj)
    requires c.cls != d.cls
    ensures !Differs(md, c, d) && ObjDeletes(md, c, d) == []
  {
  }

  /** apicObjCmp. */
  method ObjCmp(md: Schema, current: Obj, desired: Obj) returns (update: bool, deletes: seq<string>)
    requires SortedForest(current.children) && SortedForest(desired.children)
    ensures update <==> Differs(md, current, desired)
    ensures deletes == ObjDeletes(md, current, desired)
    decreases current
  {
    hide *;
    update, deletes := false, [];
    if current.cls != desired.cls {
      DifferentClasses(md, current, desired);
      return;
    }
    var same := BodyAttrCmp(md, current.cls, current.attrs, desired.attrs);
    var cs, ds := current.children, desired.children;
    var childUpdate := false;
    MergedStart(md, cs, ds);
    var i, j := 0, 0;
    while i < |cs| && j < |ds|
      invariant i <= |cs| && j <= |ds| && Merged(md, cs, i, ds, j, childUpdate, deletes)
      decreases |cs| - i + |ds| - j
    {
      var cmp := StrCompare(Dn(cs[i]), Dn(ds[j]));
      if cmp < 0 {
        MergedOld(md, cs, i, ds, j, childUpdate, deletes);
        if Deletable(md, cs[i].cls) { deletes := deletes + [Dn(cs[i])]; }
        i := i + 1;
      } else if cmp > 0 {
        MergedNew(md, cs, i, ds, j, childUpdate, deletes);
        childUpdate := true;
        j := j + 1;
      } else {
        MergedMatch(md, cs, i, ds, j, childUpdate, deletes);
        var cu, cd := ObjCmp(md, cs[i], ds[j]);
        if cu { childUpdate := true; }
        deletes := deletes + cd;
        i, j := i + 1, j + 1;
      }
    }
    while i < |cs|
      invariant i <= |cs| && j <= |ds| && Merged(md, cs, i, ds, j, childUpdate, deletes)
      invariant i == |cs| || j == |ds|
    {
      MergedOld(md, cs, i, ds, j, childUpdate, deletes);
      if Deletable(md, cs[i].cls) { deletes := deletes + [Dn(cs[i])]; }
      i := i + 1;
    }
    MergedAll(md, current, desired, j, childUpdate, deletes);
    update := !same || childUpdate || j < |ds|;
  }

  /** apicCntCmp. */
  method CntCmp(md: Schema, current: Obj, desired: Obj) returns (same: bool)
    ensures same <==>
      && current.cls == desired.cls
      && Project(md, current.cls, current.attrs) == Project(md, current.cls, desired.attrs)
  {
    if current.cls != desired.cls { return false; }
    same := BodyAttrCmp(md, current.cls, current.attrs, desired.attrs);
  }

  /** What the top-level merge has established when its cursors stand at `i` and `j`. */
  ghost predicate TopMerged(md: Schema, containers: set<string>, cs: seq<Obj>, i: nat, ds: seq<Obj>, j: nat,
                            updates: seq<Obj>, deletes: seq<string>)
  {
    && Cursors(cs, i, ds, j)
    && updates == Updates(md, containers, cs, ds[..j])
    && deletes == ForestDeletes(md, containers, cs[..i], ds)
  }

  lemma TopMergedEnds(md: Schema, containers: set<string>, cs: seq<Obj>, ds: seq<Obj>)
    ensures TopMerged(md, containers, cs, 0, ds, 0, [], [])
    ensures forall updates, deletes :: TopMerged(md, containers, cs, |cs|, ds, |ds|, updates, deletes) ==>
              updates == Updates(md, containers, cs, ds) && deletes == ForestDeletes(md, containers, cs, ds)
  {
    assert cs[..|cs|] == cs && ds[..|ds|] == ds;
  }

  lemma TopMergedOld(md: Schema, containers: set<string>, cs: seq<Obj>, i: nat, ds: seq<Obj>, j: nat,
                     updates: seq<Obj>, deletes: seq<string>)
    requires SortedForest(cs) && SortedForest(ds) && TopMerged(md, containers, cs, i, ds, j, updates, deletes)
    requires i < |cs| && (j < |ds| ==> StrLess(Dn(cs[i]), Dn(ds[j])))
    ensures TopMerged(md, containers, cs, i + 1, ds, j, updates,
                      if Deletable(md, cs[i].cls) then deletes + [Dn(cs[i])] else deletes)
  {
    SkipHead(cs, i, ds, j);
    EmitTopStep(md, containers, cs, i, ds, j);
  }

  lemma TopMergedNew(md: Schema, containers: set<string>, cs: seq<Obj>, i: nat, ds: seq<Obj>, j: nat,
                     updates: seq<Obj>, deletes: seq<string>)
    requires SortedForest(cs) && SortedForest(ds) && TopMerged(md, containers, cs, i, ds, j, updates, deletes)
    requires j < |ds| && (i < |cs| ==> StrLess(Dn(ds[j]), Dn(cs[i])))
    ensures TopMerged(md, containers, cs, i, ds, j + 1, updates + [ds[j]], deletes)
  {
    SkipHead(ds, j, cs, i);
    EmitTopStep(md, containers, cs, i, ds, j);
  }

  lemma TopMergedMatch(md: Schema, containers: set<string>, cs: seq<Obj>, i: nat, ds: seq<Obj>, j: nat,
                       updates: seq<Obj>, deletes: seq<string>)
    requires SortedForest(cs) && SortedForest(ds) && TopMerged(md, containers, cs, i, ds, j, updates, deletes)
    requires i < |cs| && j < |ds| && Dn(cs[i]) == Dn(ds[j])
    ensures SortedForest(cs[i].children) && SortedForest(ds[j].children)
    ensures PairDiffers(md, containers, cs[i], ds[j]) <==>
              if Dn(cs[i]) in containers
              then !(&& cs[i].cls == ds[j].cls
                     && Project(md, cs[i].cls, cs[i].attrs) == Project(md, cs[i].cls, ds[j].attrs))
              else Differs(md, cs[i], ds[j])
    ensures TopMerged(md, containers, cs, i + 1, ds, j + 1,
                      if PairDiffers(md, containers, cs[i], ds[j]) then updates + [ds[j]] else updates,
                      if Dn(cs[i]) in containers then deletes else deletes + ObjDeletes(md, cs[i], ds[j]))
  {
    MatchHeads(cs, i, ds, j);
    AgreeIsSameProjection(md, cs[i].cls, cs[i].attrs, ds[j].attrs);
    EmitTopStep(md, containers, cs, i, ds, j);
  }

  /** diffApicState. */
  method DiffApicState(md: Schema, containers: set<string>, current: seq<Obj>, desired: seq<Obj>)
    returns (updates: seq<Obj>, deletes: seq<string>)
    requires SortedForest(current) && SortedForest(desired)
    ensures updates == Updates(md, containers, current, desired)
    ensures deletes == ForestDeletes(md, containers, current, desired)
  {
    hide *;
    TopMergedEnds(md, containers, current, desired);
    updates, deletes := [], [];
    var i, j := 0, 0;
    while i < |current| && j < |desired|
      invariant i <= |current| && j <= |desired| && TopMerged(md, containers, current, i, desired, j, updates, deletes)
      decreases |current| - i + |desired| - j
    {
      var cmp := StrCompare(Dn(current[i]), Dn(desired[j]));
      if cmp < 0 {
        TopMergedOld(md, containers, current, i, desired, j, updates, deletes);
        if Deletable(md, current[i].cls) { deletes := deletes + [Dn(current[i])]; }
        i := i + 1;
      } else if cmp > 0 {
        TopMergedNew(md, containers, current, i, desired, j, updates, deletes);
        updates := updates + [desired[j]];
        j := j + 1;
      } else {
        TopMergedMatch(md, containers, current, i, desired, j, updates, deletes);
        if Dn(current[i]) in containers {
          var same := CntCmp(md, current[i], desired[j]);
          if !same { updates := updates + [desired[j]]; }
        } else {
          var cu, cd := ObjCmp(md, current[i], desired[j]);
          if cu { updates := updates + [desired[j]]; }
          deletes := deletes + cd;
        }
        i, j := i + 1, j + 1;
      }
    }
    // extra old objects
    while i < |current|
      invariant i <= |current| && j <= |desired| && TopMerged(md, containers, current, i, desired, j, updates, deletes)
      invariant i == |current| || j == |desired|
    {
      TopMergedOld(md, containers, current, i, desired, j, updates, deletes);
      if Deletable(md, current[i].cls) { deletes := deletes + [Dn(current[i])]; }
      i := i + 1;
    }
    // extra new objects
    while j < |desired|
      invariant i == |current| && j <= |desired| && TopMerged(md, containers, current, i, desired, j, updates, deletes)
    {
      TopMergedNew(md, containers, current, i, desired, j, updates, deletes);
      updates := updates + [desired[j]];
      j := j + 1;
    }
  }
}
