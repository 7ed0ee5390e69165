/**
 Bridge domains, with their real rows of the schema table, at the edges of the general results: one
 that is posted for ever (`NeverConverges`), one whose dropped link stays in the DN index
 (`DroppedLinkStaysIndexed`), and one that a second preparation changes again (`ForeignTagIsDroppedLate`).
 */
module BridgeDomains {
  import opened ApicTypes
  import opened ApicDiff
  import opened DnIndex
  import opened Prepare
  import ApicConverge

  /** The rows of a bridge domain and of what it may hold here (apic_metadata.go:326-347, 411-415). */
  const BD_ROWS: Schema := map[
    "fvBD" := Meta(map[], map["arpFlood" := Str("no"), "ipLearning" := Str("yes"), "name" := Str(""),
      "nameAlias" := Str(""), "unicastRoute" := Str("yes"), "unkMacUcastAct" := Str("proxy")],
      ["fvSubnet", "fvRsCtx", "fvRsBDToOut"], NoNormalizer),
    "fvRsCtx" := Meta(map["deletable" := Flag(false)], map["tnFvCtxName" := Str("")], [], NoNormalizer),
    "tagAnnotation" := Meta(map[], map["key" := Str("")], [], NoNormalizer)]

  lemma {:induction false} LessAfterPrefix(p: string, a: string, b: string)
    ensures StrLess(p + a, p + b) <==> StrLess(a, b)
  {
    if p == "" {
      assert p + a == a && p + b == b;
    } else {
      assert (p + a)[1..] == p[1..] + a && (p + b)[1..] == p[1..] + b;
      LessAfterPrefix(p[1..], a, b);
    }
  }

  /**
   A bridge domain with somebody else's tag before ours, and a later name: the first pass stops at ours and keeps
   the other, sorting puts the other behind ours, and the second pass drops it.
   */
  lemma ForeignTagIsDroppedLate(md: Schema, brackets: bool)
    ensures var dn := "uni/tn-k8s/BD-pod";
      var theirs := Obj("tagAnnotation", dn + "/annotationKey-[zone]", map["key" := Str("zone")], []);
      var ours := Obj("tagAnnotation", dn + "/annotationKey-[" + TAG_KEY + "]", map["key" := Str(TAG_KEY)], []);
      var f := [Obj("fvBD", "", map["dn" := Str(dn)], [theirs, ours])];
      PrepareAll(md, brackets, PrepareAll(md, brackets, f, "t"), "t") != PrepareAll(md, brackets, f, "t")
  {
    var dn := "uni/tn-k8s/BD-pod";
    var theirs := Obj("tagAnnotation", dn + "/annotationKey-[zone]", map["key" := Str("zone")], []);
    var ours := Obj("tagAnnotation", dn + "/annotationKey-[" + TAG_KEY + "]", map["key" := Str(TAG_KEY)], []);
    var o := Obj("fvBD", "", map["dn" := Str(dn)], [theirs, ours]);
    var set_ := WithValue(ours, "t");
    assert IsOurs(ours) && !IsOurs(theirs) && [theirs, ours][..1] == [theirs];
    assert TaggedChildren(md, brackets, o, "t") == [theirs, set_];
    assert StrLess(Dn(set_), Dn(theirs)) by {
      LessAfterPrefix(dn + "/annotationKey-[", TAG_KEY + "]", "zone]");
      assert Dn(set_) == dn + "/annotationKey-[" + (TAG_KEY + "]");
      assert Dn(theirs) == dn + "/annotationKey-[" + "zone]";
    }
    TwoSorted(theirs, set_);
    assert !LastTagIs([set_, theirs], "t");
    assert [o][0] == o && !Settled(md, brackets, [o], "t");
    PrepareTwiceIff(md, brackets, [o], "t");
  }

  lemma TwoSorted(a: Obj, b: Obj)
    requires StrLess(Dn(b), Dn(a))
    ensures Sort([a, b]) == [b, a]
  {
    assert [a, b][1..] == [b] && [b][1..] == [];
    assert Sort([b]) == Insert(b, []) == [b];
    assert Insert(a, []) == [a];
  }

  lemma {:induction false} OnePrepared(md: Schema, brackets: bool, o: Obj, tag: string)
    ensures PrepareAll(md, brackets, [o], tag) == [PrepareObj(md, brackets, o, tag)]
  {
    assert [o][1..] == [] && Sort([o]) == Insert(o, []) == [o];
  }

  lemma TwoPrepared(md: Schema, brackets: bool, a: Obj, b: Obj, tag: string)
    ensures PrepareEach(md, brackets, [a, b], tag) ==
      [PrepareObj(md, brackets, a, tag), PrepareObj(md, brackets, b, tag)]
  {
    PrepareEachAt(md, brackets, [a, b], tag, 0);
    PrepareEachAt(md, brackets, [a, b], tag, 1);
  }

  lemma RetagOne(c: Obj, tag: string)
    requires c.cls != "tagAnnotation"
    ensures Retag([c], tag) == ([c], false)
  {
    assert [c][..|[c]| - 1] == [];
    var none: seq<Obj> := [];
    assert Retag(none, tag) == (none, false) && none + [c] == [c];
  }

  function Marked(o: Obj, children: seq<Obj>): Obj {
    Obj(o.cls, o.hintDn, o.attrs["annotation" := Str(OWNER)], children)
  }

  /** A bridge domain without children, prepared: it carries the owner mark and its tag. */
  lemma BarePrepared(brackets: bool, o: Obj, tag: string)
    requires o.cls == "fvBD" && AttrStr(o, "dn") != "" && o.children == []
    ensures PrepareAll(BD_ROWS, brackets, [o], tag) == [Marked(o, [TagObj(BD_ROWS, brackets, AttrStr(o, "dn"), tag)])]
  {
    var dn := AttrStr(o, "dn");
    var t := TagObj(BD_ROWS, brackets, dn, tag);
    OnePrepared(BD_ROWS, brackets, o, tag);
    OnePrepared(BD_ROWS, brackets, t, tag);
    PrepareObjIs(BD_ROWS, brackets, o, tag);
    PrepareObjIs(BD_ROWS, brackets, t, tag);
    assert Kids(BD_ROWS, brackets, o, tag) == [t] && Kids(BD_ROWS, brackets, t, tag) == [];
    NothingToNormalize(o.attrs["annotation" := Str(OWNER)]);
    NothingToNormalize(t.attrs);
  }

  /** The prepared form of a bridge domain, spelled out, with and without brackets in the tag's name. */
  lemma PreparedText(brackets: bool, dn: string, tag: string)
    requires dn != ""
    ensures var tagDn := dn + if brackets then "/annotationKey-[aci-containers-controller-tag]"
                              else "/annotationKey-aci-containers-controller-tag";
      PrepareAll(BD_ROWS, brackets, [Obj("fvBD", "", map["dn" := Str(dn)], [])], tag) ==
        [Obj("fvBD", "", map["dn" := Str(dn), "annotation" := Str("orchestrator:aci-containers-controller")],
             [Obj("tagAnnotation", "", map["key" := Str("aci-containers-controller-tag"), "dn" := Str(tagDn),
                                           "value" := Str(tag)], [])])]
  {
    BarePrepared(brackets, Obj("fvBD", "", map["dn" := Str(dn)], []), tag);
    TagText(brackets, dn, tag);
    hide PrepareAll, TagObj;
  }

  lemma TagText(brackets: bool, dn: string, tag: string)
    ensures var tagDn := dn + if brackets then "/annotationKey-[aci-containers-controller-tag]"
                              else "/annotationKey-aci-containers-controller-tag";
      TagObj(BD_ROWS, brackets, dn, tag) ==
        Obj("tagAnnotation", "", map["key" := Str("aci-containers-controller-tag"), "dn" := Str(tagDn),
                                     "value" := Str(tag)], [])
  {
    BracketSuffix();
    PlainSuffix();
    var t := TagObj(BD_ROWS, brackets, dn, tag);
    assert t.attrs.Keys == {"key", "dn", "value"} by { assert BD_ROWS["tagAnnotation"].attributes.Keys == {"key"}; }
  }

  lemma BracketSuffix()
    ensures "/annotationKey-[" + TAG_KEY + "]" == "/annotationKey-[aci-containers-controller-tag]"
  {
  }

  lemma PlainSuffix()
    ensures "/annotationKey-" + TAG_KEY == "/annotationKey-aci-containers-controller-tag"
  {
  }

  lemma NothingToNormalize(attrs: map<string, Value>)
    ensures Normalize(NoNormalizer, attrs) == attrs
  {
  }

  lemma OneWithOne(o: Obj, t: Obj)
    requires o.children == [t] && t.children == [] && Dn(t) != Dn(o)
    ensures SortedForest([o]) && UniqueForest([o])
  {
    assert Dns([t]) == {Dn(t)} by { assert [t][1..] == []; }
    hide StrLess, Dn;
    assert SortedForest(t.children) && UniqueForest(t.children);
    assert SortedForest([t]) && UniqueForest([t]);
  }

  /**
   A bridge domain made by EmptyApicObject, with nothing but its DN, is posted in every round once somebody has
   turned "arpFlood" on: the comparison takes the missing attribute for "no", and no POST says so.
   */
  lemma NeverConverges(brackets: bool, dn: string, tag: string, n: nat)
    requires dn != ""
    ensures var desired := PrepareAll(BD_ROWS, brackets, [Obj("fvBD", "", map["dn" := Str(dn)], [])], tag);
      && |desired| == 1
      && var current := [desired[0].(attrs := desired[0].attrs["arpFlood" := Str("yes")])];
        Updates(BD_ROWS, {}, ApicConverge.Rounds(BD_ROWS, {}, current, desired, n), desired) == desired
  {
    var t := TagObj(BD_ROWS, brackets, dn, tag);
    var o := Obj("fvBD", "", map["dn" := Str(dn)], []);
    var d := Marked(o, [t]);
    var c := d.(attrs := d.attrs["arpFlood" := Str("yes")]);
    BarePrepared(brackets, o, tag);
    assert |Dn(t)| > |Dn(c)| && Dn(c) == Dn(d) == dn && t.children == [];
    OneWithOne(c, t);
    OneWithOne(d, t);
    assert Lookup([t], Dn(t)) == Some(t);
    assert "arpFlood" in BD_ROWS["fvBD"].attributes && "arpFlood" !in d.attrs;
    assert AttrOr(c.attrs, "arpFlood", Str("no")) != Str("no");
    hide TagObj, StrLess, SortedForest, UniqueForest;
    ApicConverge.UnsettableNeverConverges(BD_ROWS, c, d, n);
  }

  // ----- A name that stays in the index -----

  /** NewFvBD. */
  function BridgeDomain(dn: string, children: seq<Obj>): Obj {
    Obj("fvBD", "", BD_ROWS["fvBD"].attributes["name" := Str("pod")]["dn" := Str(dn)], children)
  }

  /** NewFvRsCtx: the link to a VRF has its name only as a hint. */
  function VrfLink(dn: string): Obj {
    Obj("fvRsCtx", dn + "/rsctx", map["tnFvCtxName" := Str("vrf")], [])
  }

  lemma TagBeforeLink(dn: string, tag: string)
    ensures StrLess(Dn(TagObj(BD_ROWS, true, dn, tag)), dn + "/rsctx")
  {
    var x, y := "/annotationKey-[" + TAG_KEY + "]", "/rsctx";
    assert x[0] == y[0] == '/' && x[1] == 'a' && y[1] == 'r';
    assert x[1..][0] == x[1] && y[1..][0] == y[1];
    assert StrLess(x, y);
    LessAfterPrefix(dn, x, y);
    var t := TagObj(BD_ROWS, true, dn, tag);
    assert AttrStr(t, "dn") == dn + x;
  }

  lemma LinkedKids(dn: string, tag: string)
    requires dn != ""
    ensures var o, c, t := BridgeDomain(dn, [VrfLink(dn)]), VrfLink(dn), TagObj(BD_ROWS, true, dn, tag);
      && Kids(BD_ROWS, true, o, tag) == [c, t] && Sort([c, t]) == [t, c]
      && Kids(BD_ROWS, true, c, tag) == [] && Kids(BD_ROWS, true, t, tag) == []
  {
    TagBeforeLink(dn, tag);
    RetagOne(VrfLink(dn), tag);
    TwoSorted(VrfLink(dn), TagObj(BD_ROWS, true, dn, tag));
  }

  /** Prepared, the tag child comes first, and the link, which has no "dn" attribute, gets no tag. */
  lemma LinkedPrepared(dn: string, tag: string)
    requires dn != ""
    ensures var t := TagObj(BD_ROWS, true, dn, tag);
      PrepareAll(BD_ROWS, true, [BridgeDomain(dn, [VrfLink(dn)])], tag) ==
        [Marked(BridgeDomain(dn, []), [t, Marked(VrfLink(dn), [])])]
  {
    var o, c, t := BridgeDomain(dn, [VrfLink(dn)]), VrfLink(dn), TagObj(BD_ROWS, true, dn, tag);
    LinkedKids(dn, tag);
    OnePrepared(BD_ROWS, true, o, tag);
    TwoPrepared(BD_ROWS, true, t, c, tag);
    PrepareObjIs(BD_ROWS, true, o, tag);
    PrepareObjIs(BD_ROWS, true, c, tag);
    PrepareObjIs(BD_ROWS, true, t, tag);
    NothingToNormalize(o.attrs["annotation" := Str(OWNER)]);
    NothingToNormalize(c.attrs["annotation" := Str(OWNER)]);
    NothingToNormalize(t.attrs);
    hide Kids, Sort, Normalize, PrepareObj, StrLess;
  }

  function BdScheme(dn: string): Scheme {
    x => if x == dn then Place(None, "fvBD")
         else Place(Some(dn), if x == dn + "/rsctx" then "fvRsCtx" else "tagAnnotation")
  }

  lemma LeavesForest(f: seq<Obj>)
    requires SortedSiblings(f) && forall i :: 0 <= i < |f| ==> f[i].children == []
    ensures SortedForest(f) && UniqueForest(f)
    ensures forall x :: x in Dns(f) <==> exists i :: 0 <= i < |f| && x == Dn(f[i])
  {
    hide StrLess, Dn;
    forall i | 0 <= i < |f| ensures DnsOf(f[i]) == {Dn(f[i])} {}
    forall i, j | 0 <= i < j < |f| ensures Dn(f[i]) != Dn(f[j]) { StrLessIrreflexive(Dn(f[i])); }
    forall x | x in Dns(f) ensures exists i :: 0 <= i < |f| && x == Dn(f[i]) { var i := DnsFrom(f, x); }
    forall i | 0 <= i < |f| ensures Dn(f[i]) in Dns(f) { DnsAt(f, i); }
  }

  lemma OneTree(scheme: Scheme, o: Obj)
    requires SortedForest(o.children) && UniqueForest(o.children) && Dn(o) !in Dns(o.children) && "" !in DnsOf(o)
    requires scheme(Dn(o)) == Place(None, o.cls) && WellPlaced(scheme, o.children, Some(Dn(o)))
    ensures WellFormed(scheme, [o]) && Dns([o]) == DnsOf(o)
  {
    hide StrLess, Dn;
    assert [o][1..] == [] && [o][0] == o;
    assert Dns([o]) == DnsOf(o);
  }

  lemma LinkNames(dn: string, tag: string, kids: seq<Obj>)
    requires dn != ""
    ensures var t, link := TagObj(BD_ROWS, true, dn, tag), Marked(VrfLink(dn), []);
      && Dn(Marked(BridgeDomain(dn, []), kids)) == dn && Dn(link) == dn + "/rsctx" && StrLess(Dn(t), Dn(link))
      && dn !in {Dn(t), Dn(link)} && Dn(t) != Dn(link) && "" !in {Dn(t), Dn(link)}
      && t.children == [] && t.cls == "tagAnnotation"
  {
    TagBeforeLink(dn, tag);
    var t := TagObj(BD_ROWS, true, dn, tag);
    StrLessIrreflexive(Dn(t));
    assert |Dn(t)| > |dn|;
  }

  /** A bridge domain, its tag and perhaps its link make a well-formed tree. */
  lemma LinkedWellFormed(dn: string, tag: string, linked: bool)
    requires dn != ""
    ensures var t, link := TagObj(BD_ROWS, true, dn, tag), Marked(VrfLink(dn), []);
      var f := [Marked(BridgeDomain(dn, []), if linked then [t, link] else [t])];
      WellFormed(BdScheme(dn), f) && Dns(f) == if linked then {dn, Dn(t), Dn(link)} else {dn, Dn(t)}
  {
    var t, link := TagObj(BD_ROWS, true, dn, tag), Marked(VrfLink(dn), []);
    var kids := if linked then [t, link] else [t];
    var o := Marked(BridgeDomain(dn, []), kids);
    LinkNames(dn, tag, kids);
    KidsPlaced(dn, t, link, linked);
    hide *;
    assert BdScheme(dn)(dn) == Place(None, o.cls) && o.children == kids by { TopPlaced(dn, kids); }
    OneTree(BdScheme(dn), o);
    DnsOfIs(o);
  }

  lemma TopPlaced(dn: string, kids: seq<Obj>)
    ensures var o := Marked(BridgeDomain(dn, []), kids);
      BdScheme(dn)(dn) == Place(None, o.cls) && o.children == kids
  {
  }

  lemma DnsOfIs(o: Obj)
    ensures DnsOf(o) == {Dn(o)} + Dns(o.children)
  {
  }

  lemma KidsPlaced(dn: string, t: Obj, link: Obj, linked: bool)
    requires t.cls == "tagAnnotation" && link.cls == "fvRsCtx" && t.children == link.children == []
    requires StrLess(Dn(t), Dn(link)) && Dn(t) != dn && Dn(link) == dn + "/rsctx"
    ensures var kids := if linked then [t, link] else [t];
      && SortedForest(kids) && UniqueForest(kids) && WellPlaced(BdScheme(dn), kids, Some(dn))
      && Dns(kids) == if linked then {Dn(t), Dn(link)} else {Dn(t)}
  {
    var kids := if linked then [t, link] else [t];
    StrLessIrreflexive(Dn(t));
    hide StrLess, Dn, SortedForest, UniqueForest, Dns;
    LeavesForest(kids);
    forall x ensures x in Dns(kids) <==> x == Dn(t) || (linked && x == Dn(link)) {
      assert kids[0] == t && (linked ==> kids[1] == link);
    }
  }

  /**
   A bridge domain that is written with its link to a VRF and then without it: links are never deleted
   (apic_metadata.go:341-344), so the link's name stays in the index although no key wants it.
   */
  lemma DroppedLinkStaysIndexed(dn: string, tag: string, key: string)
    requires dn != ""
    ensures var before := PrepareAll(BD_ROWS, true, [BridgeDomain(dn, [VrfLink(dn)])], tag);
      var after := PrepareAll(BD_ROWS, true, [BridgeDomain(dn, [])], tag);
      var store, ix := map[key := before], AddAll(map[], before);
      var ix' := RemoveList(AddAll(ix, after), AllDeletes(ix, ForestDeletes(BD_ROWS, {}, before, after)));
      && CoveredBy(BdScheme(dn), store, ix) && NothingElse(store, ix)
      && MayWrite(BdScheme(dn), store, key, Some(after))
      && dn + "/rsctx" in ix' && dn + "/rsctx" !in Dns(after)
  {
    var before := PrepareAll(BD_ROWS, true, [BridgeDomain(dn, [VrfLink(dn)])], tag);
    var after := PrepareAll(BD_ROWS, true, [BridgeDomain(dn, [])], tag);
    var store, ix := map[key := before], AddAll(map[], before);
    LinkedPrepared(dn, tag);
    BarePrepared(true, BridgeDomain(dn, []), tag);
    LinkedWellFormed(dn, tag, true);
    LinkedWellFormed(dn, tag, false);
    var t, link := TagObj(BD_ROWS, true, dn, tag), Marked(VrfLink(dn), []);
    assert after == [Marked(BridgeDomain(dn, []), [t])];
    LinkNames(dn, tag, [t]);
    LinkNotCleared(t, link, before, after);
    hide *;
    StartIndexed(BdScheme(dn), key, before);
    WrittenIndex(BdScheme(dn), BD_ROWS, {}, store, ix, key, Some(after));
  }

  lemma LinkNotCleared(t: Obj, link: Obj, before: seq<Obj>, after: seq<Obj>)
    requires link.cls == "fvRsCtx" && Dn(t) != Dn(link) && |before| == |after| == 1
    requires before[0].children == [t, link] && after[0].children == [t] && Dn(before[0]) == Dn(after[0])
    ensures !TopClears(BD_ROWS, {}, before, after)
  {
    assert [t, link][1] == link && Lookup([t], Dn(link)).None? && !Deletable(BD_ROWS, "fvRsCtx");
    assert Lookup(after, Dn(before[0])) == Some(after[0]);
    assert !Clears(BD_ROWS, [t, link], [t]);
    assert !TopClearsOf(BD_ROWS, {}, before[0], after);
  }

  /** One key written into an empty connection. */
  lemma StartIndexed(scheme: Scheme, key: string, f: seq<Obj>)
    requires WellFormed(scheme, f)
    ensures CoveredBy(scheme, map[key := f], AddAll(map[], f)) && NothingElse(map[key := f], AddAll(map[], f))
    ensures ObjectsOf(map[key := f], key) == f
  {
    AddAllIndexes(map[], f);
    AddAllFrame(map[], f);
    OneKey(scheme, key, f, AddAll(map[], f));
  }

  lemma OneKey(scheme: Scheme, key: string, f: seq<Obj>, ix: map<string, Obj>)
    requires WellFormed(scheme, f) && Indexed(ix, f) && ix.Keys <= Dns(f)
    ensures CoveredBy(scheme, map[key := f], ix) && NothingElse(map[key := f], ix)
    ensures ObjectsOf(map[key := f], key) == f
  {
    hide WellFormed, Indexed, Dns;
    var store := map[key := f];
    forall x | x in ix ensures exists k :: k in store && x in Dns(store[k]) { assert key in store; }
  }
}
