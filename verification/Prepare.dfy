/**
 PrepareApicSlice (pkg/apicapi/apic_sync.go:285-312): before objects are written they are
 sorted by DN at every depth, tagged with their key's tag, marked with the owner annotation and
 normalized (pkg/apicapi/apic_types.go:208-264, pkg/apicapi/apic_metadata.go:29-147).

 Objects are values here: the in-place updates of the source become new objects.
 */
module Prepare {
  import opened ApicTypes
  import opened ApicDiff
  import ApicConverge

  const TAG_KEY := "aci-containers-controller-tag"
  const OWNER := "orchestrator:aci-containers-controller"

  // ----- Sorting -----

  function Insert(o: Obj, f: seq<Obj>): seq<Obj> {
    if f == [] then [o] else if StrLess(Dn(f[0]), Dn(o)) then [f[0]] + Insert(o, f[1..]) else [o] + f
  }

  /** sort.Sort; objects with equal DNs, whose order the source leaves open, keep their order. */
  function Sort(f: seq<Obj>): seq<Obj> {
    if f == [] then [] else Insert(f[0], Sort(f[1..]))
  }

  ghost predicate Ascending(f: seq<Obj>) {
    forall i, j :: 0 <= i < j < |f| ==> !StrLess(Dn(f[j]), Dn(f[i]))
  }

  lemma NotLessTransitive(a: string, b: string, c: string)
    requires !StrLess(b, a) && !StrLess(c, b)
    ensures !StrLess(c, a)
  {
    StrLessTotal(a, b);
    StrLessTotal(b, c);
    if StrLess(c, a) && StrLess(a, b) { StrLessTransitive(c, a, b); }
  }

  lemma {:induction false} InsertElements(o: Obj, f: seq<Obj>)
    ensures multiset(Insert(o, f)) == multiset(f) + multiset{o}
    ensures forall x :: x in Insert(o, f) ==> x == o || x in f
  {
    if f != [] {
      assert f == [f[0]] + f[1..];
      InsertElements(o, f[1..]);
    }
  }

  lemma {:induction false} InsertAscending(o: Obj, f: seq<Obj>)
    requires Ascending(f)
    ensures Ascending(Insert(o, f))
  {
    hide Dn, StrLess;
    if f == [] {
    } else if StrLess(Dn(f[0]), Dn(o)) {
      InsertAscending(o, f[1..]);
      InsertElements(o, f[1..]);
      var r := Insert(o, f[1..]);
      forall j | 0 <= j < |r| ensures !StrLess(Dn(r[j]), Dn(f[0])) {
        assert r[j] in r;
        if r[j] == o {
          if StrLess(Dn(o), Dn(f[0])) { StrLessTransitive(Dn(f[0]), Dn(o), Dn(f[0])); StrLessIrreflexive(Dn(f[0])); }
        } else {
          var k :| 0 <= k < |f[1..]| && f[1..][k] == r[j];
          assert f[k + 1] == r[j];
        }
      }
    } else {
      forall j | 0 <= j < |f| ensures !StrLess(Dn(f[j]), Dn(o)) {
        if j > 0 { NotLessTransitive(Dn(o), Dn(f[0]), Dn(f[j])); }
      }
    }
  }

  lemma {:induction false} SortAscending(f: seq<Obj>)
    ensures Ascending(Sort(f)) && multiset(Sort(f)) == multiset(f)
  {
    if f != [] {
      SortAscending(f[1..]);
      InsertAscending(f[0], Sort(f[1..]));
      InsertElements(f[0], Sort(f[1..]));
      assert f == [f[0]] + f[1..];
    }
  }

  lemma {:induction false} SortedStays(f: seq<Obj>)
    requires Ascending(f)
    ensures Sort(f) == f
  {
    if f != [] {
      SortedStays(f[1..]);
      assert f == [f[0]] + f[1..];
      if |f| > 1 { assert !StrLess(Dn(f[1]), Dn(f[0])); }
    }
  }

  // ----- Tags -----

  /** The tag child of this controller. */
  predicate IsOurs(o: Obj) {
    o.cls == "tagAnnotation" && AttrStr(o, "key") == TAG_KEY && "key" in o.attrs && o.attrs["key"].Str?
  }

  /** GetTag reads the first tag child with our key. */
  function GetTag(o: Obj): string {
    FirstTag(o.children)
  }

  function FirstTag(cs: seq<Obj>): string {
    if cs == [] then "" else if IsOurs(cs[0]) then AttrStr(cs[0], "value") else FirstTag(cs[1..])
  }

  function WithValue(o: Obj, tag: string): Obj {
    o.(attrs := o.attrs["value" := Str(tag)])
  }

  /**
   SetTag's loop, from the last child down: it sets the first of our tags it meets and drops the foreign
   ones on the way.
   */
  function Retag(cs: seq<Obj>, tag: string): (seq<Obj>, bool) {
    if cs == [] then ([], false)
    else
      var front, last := cs[..|cs| - 1], cs[|cs| - 1];
      if IsOurs(last) then (front + [WithValue(last, tag)], true)
      else
        var (rest, found) := Retag(front, tag);
        if last.cls == "tagAnnotation" then (rest, found) else (rest + [last], found)
  }

  /** How tag DNs are written: with brackets from APIC 4.1 on. */
  function TagObj(md: Schema, brackets: bool, parentDn: string, tag: string): Obj {
    var defaults := if "tagAnnotation" in md then md["tagAnnotation"].attributes else map[];
    var dn := parentDn + (if brackets then "/annotationKey-[" + TAG_KEY + "]" else "/annotationKey-" + TAG_KEY);
    Obj("tagAnnotation", "", defaults["key" := Str(TAG_KEY)]["dn" := Str(dn)]["value" := Str(tag)], [])
  }

  function TaggedChildren(md: Schema, brackets: bool, o: Obj, tag: string): seq<Obj> {
    var (cs, found) := Retag(o.children, tag);
    if found || AttrStr(o, "dn") == "" then cs else cs + [TagObj(md, brackets, AttrStr(o, "dn"), tag)]
  }

  lemma RetagStep(cs: seq<Obj>, j: nat, tag: string)
    requires j < |cs|
    ensures Retag(cs[..j + 1], tag) ==
      if IsOurs(cs[j]) then (cs[..j] + [WithValue(cs[j], tag)], true)
      else
        var (rest, found) := Retag(cs[..j], tag);
        if cs[j].cls == "tagAnnotation" then (rest, found) else (rest + [cs[j]], found)
  {
    assert cs[..j + 1][..j] == cs[..j];
  }

  lemma RetagEmpty(tag: string)
    ensures Retag([], tag) == ([], false)
  {
  }

  /** The loop of SetTag, in place on the child list. */
  method SetTag(md: Schema, brackets: bool, o: Obj, tag: string) returns (r: Obj)
    ensures r == o.(children := TaggedChildren(md, brackets, o, tag))
  {
    hide IsOurs, TagObj, AttrStr, WithValue, Retag;
    var cs := o.children;
    var j := |cs|;
    assert cs[..j] == o.children && Retag(o.children, tag).0 == Retag(cs[..j], tag).0 + cs[j..];
    while j > 0
      invariant 0 <= j <= |cs| && j <= |o.children| && cs[..j] == o.children[..j]
      invariant Retag(o.children, tag).0 == Retag(cs[..j], tag).0 + cs[j..]
      invariant Retag(o.children, tag).1 == Retag(cs[..j], tag).1
    {
      j := j - 1;
      RetagStep(cs, j, tag);
      assert cs[j..] == [cs[j]] + cs[j + 1..];
      if IsOurs(cs[j]) {
        cs := cs[..j] + [WithValue(cs[j], tag)] + cs[j + 1..];
        return o.(children := cs);
      }
      if cs[j].cls == "tagAnnotation" {
        ghost var before := cs;
        cs := cs[..j] + cs[j + 1..];
        assert cs[..j] == before[..j] && cs[j..] == before[j + 1..];
      }
    }
    RetagEmpty(tag);
    assert cs[0..] == cs && cs[..0] == [];
    if AttrStr(o, "dn") != "" { cs := cs + [TagObj(md, brackets, AttrStr(o, "dn"), tag)]; }
    return o.(children := cs);
  }

  function OurCount(cs: seq<Obj>): nat {
    if cs == [] then 0 else OurCount(cs[..|cs| - 1]) + if IsOurs(cs[|cs| - 1]) then 1 else 0
  }

  lemma {:induction false} FirstTagConcat(a: seq<Obj>, b: seq<Obj>)
    ensures FirstTag(a + b) == if OurCount(a) > 0 then FirstTag(a) else FirstTag(b)
  {
    if a == [] {
      assert a + b == b;
    } else {
      assert (a + b)[1..] == a[1..] + b;
      FirstTagConcat(a[1..], b);
      OurCountCons(a);
    }
  }

  lemma {:induction false} OurCountCons(a: seq<Obj>)
    requires a != []
    ensures OurCount(a) == (if IsOurs(a[0]) then 1 else 0) + OurCount(a[1..])
  {
    if |a| > 1 {
      OurCountCons(a[..|a| - 1]);
      assert a[..|a| - 1][1..] == a[1..][..|a[1..]| - 1];
    }
  }

  /** Retagging keeps our earlier tags and sets the last one. */
  lemma {:induction false} RetagEffect(cs: seq<Obj>, tag: string)
    ensures var (r, found) := Retag(cs, tag);
      && (found <==> OurCount(cs) > 0) && OurCount(r) == OurCount(cs)
      && (OurCount(cs) == 1 ==> FirstTag(r) == tag)
      && (OurCount(cs) > 1 ==> FirstTag(r) == FirstTag(cs))
  {
    if cs != [] {
      var front, last := cs[..|cs| - 1], cs[|cs| - 1];
      RetagEffect(front, tag);
      assert cs == front + [last];
      FirstTagConcat(front, [last]);
      var (rest, found) := Retag(front, tag);
      if IsOurs(last) {
        FirstTagConcat(front, [WithValue(last, tag)]);
        assert (front + [WithValue(last, tag)])[..|front|] == front;
      } else if last.cls != "tagAnnotation" {
        FirstTagConcat(rest, [last]);
        assert (rest + [last])[..|rest|] == rest;
      }
    }
  }

  lemma TagObjIsOurs(md: Schema, brackets: bool, parentDn: string, tag: string)
    ensures IsOurs(TagObj(md, brackets, parentDn, tag)) && FirstTag([TagObj(md, brackets, parentDn, tag)]) == tag
  {
  }

  /**
   GetTag returns what SetTag set exactly when the object had one of our tags, or none and a "dn" attribute,
   or a first one with that value.
   */
  lemma SetTagIsReadIff(md: Schema, brackets: bool, o: Obj, tag: string)
    requires tag != ""
    ensures GetTag(o.(children := TaggedChildren(md, brackets, o, tag))) == tag <==>
      || OurCount(o.children) == 1
      || (OurCount(o.children) == 0 && AttrStr(o, "dn") != "")
      || (OurCount(o.children) > 1 && GetTag(o) == tag)
  {
    RetagEffect(o.children, tag);
    var (r, found) := Retag(o.children, tag);
    TagObjIsOurs(md, brackets, AttrStr(o, "dn"), tag);
    FirstTagConcat(r, [TagObj(md, brackets, AttrStr(o, "dn"), tag)]);
    if OurCount(r) == 0 { NoFirstTag(r); }
  }

  /** An object with two own tags: the last one is set, the first one is read. */
  lemma SecondTagIsNotRead(md: Schema, brackets: bool)
    ensures var t := (v: string) => Obj("tagAnnotation", v, map["key" := Str(TAG_KEY), "value" := Str(v)], []);
      var o := Obj("fvBD", "uni/tn-k8s/BD-pod", map["dn" := Str("uni/tn-k8s/BD-pod")], [t("old"), t("older")]);
      GetTag(o.(children := TaggedChildren(md, brackets, o, "new"))) == "old"
  {
    var t := (v: string) => Obj("tagAnnotation", v, map["key" := Str(TAG_KEY), "value" := Str(v)], []);
    var cs := [t("old"), t("older")];
    assert IsOurs(cs[0]) && IsOurs(cs[1]) && cs[..1] == [cs[0]];
    assert Retag(cs, "new") == ([cs[0]] + [WithValue(cs[1], "new")], true);
  }

  lemma {:induction false} NoFirstTag(cs: seq<Obj>)
    requires OurCount(cs) == 0
    ensures FirstTag(cs) == ""
  {
    if cs != [] {
      OurCountCons(cs);
      NoFirstTag(cs[1..]);
    }
  }

  // ----- Normalization -----

  function NormalizePort(port: string): string {
    if port == "0" then "unspecified" else if port == "20" then "ftpData" else if port == "25" then "smtp"
    else if port == "53" then "dns" else if port == "80" then "http" else if port == "110" then "pop3"
    else if port == "443" then "https" else if port == "554" then "rtsp" else port
  }

  function NormalizeProto(proto: string): string {
    if proto == "0" then "unspecified" else if proto == "1" then "icmp" else if proto == "2" then "igmp"
    else if proto == "6" then "tcp" else if proto == "8" then "egp" else if proto == "9" then "igp"
    else if proto == "17" then "udp" else if proto == "58" then "icmpv6" else if proto == "88" then "eigrp"
    else if proto == "89" then "ospfigp" else if proto == "103" then "pim" else if proto == "115" then "l2tp"
    else if proto == "132" then "sctp" else proto
  }

  /** strings.ToUpper on ASCII text. */
  function ToUpper(s: string): string {
    seq(|s|, i requires 0 <= i < |s| => if 'a' <= s[i] <= 'z' then (s[i] as int - 32) as char else s[i])
  }

  function PortAttrs(n: Normalizer): set<string> {
    match n
    case RuleNormalizer => {"toPort", "fromPort"}
    case FilterEntryNormalizer => {"dToPort", "dFromPort", "sToPort", "sFromPort"}
    case SvcPortNormalizer => {"port", "nodePort"}
    case _ => {}
  }

  function ProtoAttr(n: Normalizer): string {
    match n
    case RuleNormalizer => "proto"
    case FilterEntryNormalizer => "prot"
    case SvcPortNormalizer => "protocol"
    case _ => ""
  }

  function NormalizeAttr(n: Normalizer, name: string, v: Value): Value {
    if !v.Str? then v
    else if name in PortAttrs(n) then Str(NormalizePort(v.s))
    else if name == ProtoAttr(n) && name != "" then Str(NormalizeProto(v.s))
    else if n.RedirectDestNormalizer? && name == "mac" then Str(ToUpper(v.s))
    else v
  }

  function NormalizerOf(md: Schema, cls: string): Normalizer {
    if cls in md then md[cls].normalizer else NoNormalizer
  }

  function Normalize(n: Normalizer, attrs: map<string, Value>): map<string, Value> {
    map name | name in attrs :: NormalizeAttr(n, name, attrs[name])
  }

  /** The normalizers: the destination's MAC, or the ports one after another and then the protocol. */
  method NormalizeBody(n: Normalizer, attrs: map<string, Value>) returns (r: map<string, Value>)
    ensures r == Normalize(n, attrs)
  {
    hide NormalizePort, NormalizeProto, ToUpper;
    r := attrs;
    if n.NoNormalizer? {
      assert r == Normalize(n, attrs);
      return;
    }
    if n.RedirectDestNormalizer? {
      if "mac" in r && r["mac"].Str? { r := r["mac" := Str(ToUpper(r["mac"].s))]; }
      assert r == Normalize(n, attrs);
      return;
    }
    assert n.RuleNormalizer? || n.FilterEntryNormalizer? || n.SvcPortNormalizer?;
    var todo := PortAttrs(n);
    while todo != {}
      invariant todo <= PortAttrs(n) && r.Keys == attrs.Keys
      invariant forall p :: p in attrs ==>
        r[p] == if p in PortAttrs(n) - todo then NormalizeAttr(n, p, attrs[p]) else attrs[p]
      decreases todo
    {
      var p :| p in todo;
      if p in r && r[p].Str? { r := r[p := Str(NormalizePort(r[p].s))]; }
      todo := todo - {p};
    }
    var q := ProtoAttr(n);
    if q in r && r[q].Str? { r := r[q := Str(NormalizeProto(r[q].s))]; }
    assert r == Normalize(n, attrs);
  }

  /** The names of ports, and of protocols, that have one. */
  lemma PortNames()
    ensures NormalizePort("0") == "unspecified" && NormalizePort("20") == "ftpData" && NormalizePort("25") == "smtp"
    ensures NormalizePort("53") == "dns" && NormalizePort("80") == "http" && NormalizePort("110") == "pop3"
    ensures NormalizePort("443") == "https" && NormalizePort("554") == "rtsp"
    ensures forall s :: s !in ["0", "20", "25", "53", "80", "110", "443", "554"] ==> NormalizePort(s) == s
  {
  }

  lemma ProtoNames()
    ensures NormalizeProto("0") == "unspecified" && NormalizeProto("1") == "icmp" && NormalizeProto("2") == "igmp"
    ensures NormalizeProto("6") == "tcp" && NormalizeProto("8") == "egp" && NormalizeProto("9") == "igp"
    ensures NormalizeProto("17") == "udp" && NormalizeProto("58") == "icmpv6" && NormalizeProto("88") == "eigrp"
    ensures NormalizeProto("89") == "ospfigp" && NormalizeProto("103") == "pim" && NormalizeProto("115") == "l2tp"
    ensures NormalizeProto("132") == "sctp"
    ensures forall s :: s !in ["0", "1", "2", "6", "8", "9", "17", "58", "88", "89", "103", "115", "132"] ==>
      NormalizeProto(s) == s
  {
  }

  function OnText(f: string -> string, v: Value): Value {
    if v.Str? then Str(f(v.s)) else v
  }

  /** Each class of rules has its own port and protocol attributes; every other attribute stays. */
  lemma NormalizedIs(attrs: map<string, Value>, name: string)
    requires name in attrs
    ensures var v := attrs[name]; var port, proto := OnText(NormalizePort, v), OnText(NormalizeProto, v);
      && Normalize(NoNormalizer, attrs)[name] == v
      && Normalize(RuleNormalizer, attrs)[name] ==
           (if name in {"toPort", "fromPort"} then port else if name == "proto" then proto else v)
      && Normalize(FilterEntryNormalizer, attrs)[name] ==
           (if name in {"sToPort", "sFromPort", "dToPort", "dFromPort"} then port
            else if name == "prot" then proto else v)
      && Normalize(SvcPortNormalizer, attrs)[name] ==
           (if name in {"nodePort", "port"} then port else if name == "protocol" then proto else v)
      && Normalize(RedirectDestNormalizer, attrs)[name] ==
           (if name == "mac" then OnText(ToUpper, v) else v)
  {
    hide NormalizePort, NormalizeProto, ToUpper;
  }

  lemma NormalizePortTwice(p: string)
    ensures NormalizePort(NormalizePort(p)) == NormalizePort(p)
  {
  }

  lemma NormalizeProtoTwice(p: string)
    ensures NormalizeProto(NormalizeProto(p)) == NormalizeProto(p)
  {
  }

  lemma NormalizeTwice(n: Normalizer, attrs: map<string, Value>)
    ensures Normalize(n, Normalize(n, attrs)) == Normalize(n, attrs)
  {
    forall name | name in attrs
      ensures NormalizeAttr(n, name, NormalizeAttr(n, name, attrs[name])) == NormalizeAttr(n, name, attrs[name])
    {
      var v := attrs[name];
      if v.Str? {
        NormalizePortTwice(v.s);
        NormalizeProtoTwice(v.s);
        assert ToUpper(ToUpper(v.s)) == ToUpper(v.s);
      }
    }
  }

  /** Names, tags, keys and the owner mark are not subject to normalization. */
  lemma NormalizeKeeps(n: Normalizer, attrs: map<string, Value>, name: string)
    requires name in {"dn", "annotation", "key", "value"}
    ensures name in Normalize(n, attrs) <==> name in attrs
    ensures name in attrs ==> Normalize(n, attrs)[name] == attrs[name]
  {
  }

  // ----- The recursion -----

  /** Tag objects weigh less than the objects they are added to. */
  ghost function Weight(f: seq<Obj>): nat
    decreases f
  {
    if f == [] then 0 else Weight(f[..|f| - 1]) + WeightOf(f[|f| - 1])
  }

  ghost function WeightOf(o: Obj): nat
    decreases o
  {
    (if IsTagClass(o.cls) then 1 else 2) + Weight(o.children)
  }

  lemma {:induction false} WeightConcat(a: seq<Obj>, b: seq<Obj>)
    ensures Weight(a + b) == Weight(a) + Weight(b)
  {
    if b == [] {
      assert a + b == a;
    } else {
      assert (a + b)[..|a + b| - 1] == a + b[..|b| - 1];
      WeightConcat(a, b[..|b| - 1]);
    }
  }

  lemma WeightCons(f: seq<Obj>)
    requires f != []
    ensures Weight(f) == WeightOf(f[0]) + Weight(f[1..])
  {
    assert f == [f[0]] + f[1..] && [f[0]][..0] == [];
    WeightConcat([f[0]], f[1..]);
  }

  lemma {:induction false} WeightInsert(o: Obj, f: seq<Obj>)
    ensures Weight(Insert(o, f)) == WeightOf(o) + Weight(f)
  {
    WeightCons([o]);
    assert [o][1..] == [];
    if f != [] && StrLess(Dn(f[0]), Dn(o)) {
      WeightInsert(o, f[1..]);
      WeightCons(f);
      WeightCons([f[0]] + Insert(o, f[1..]));
      assert ([f[0]] + Insert(o, f[1..]))[1..] == Insert(o, f[1..]);
    } else {
      WeightConcat([o], f);
    }
  }

  lemma {:induction false} WeightSort(f: seq<Obj>)
    ensures Weight(Sort(f)) == Weight(f)
  {
    if f != [] {
      WeightSort(f[1..]);
      WeightInsert(f[0], Sort(f[1..]));
      WeightCons(f);
    }
  }

  lemma {:induction false} WeightRetag(cs: seq<Obj>, tag: string)
    ensures Weight(Retag(cs, tag).0) <= Weight(cs)
  {
    if cs != [] {
      var front, last := cs[..|cs| - 1], cs[|cs| - 1];
      WeightRetag(front, tag);
      var rest := Retag(front, tag).0;
      assert (front + [WithValue(last, tag)])[..|front|] == front;
      assert (rest + [last])[..|rest|] == rest;
    }
  }

  lemma WeightTagged(md: Schema, brackets: bool, o: Obj, tag: string)
    ensures Weight(TaggedChildren(md, brackets, o, tag)) <= Weight(o.children) + 1
  {
    WeightRetag(o.children, tag);
    var cs := Retag(o.children, tag).0;
    var t := TagObj(md, brackets, AttrStr(o, "dn"), tag);
    assert (cs + [t])[..|cs|] == cs;
    assert t.cls == "tagAnnotation" && t.children == [] && WeightOf(t) == 1;
  }

  /** prepareApicSliceTag. */
  ghost function PrepareAll(md: Schema, brackets: bool, f: seq<Obj>, tag: string): seq<Obj>
    decreases Weight(f), 2, 0
  {
    WeightSort(f);
    PrepareEach(md, brackets, Sort(f), tag)
  }

  ghost function PrepareEach(md: Schema, brackets: bool, f: seq<Obj>, tag: string): (r: seq<Obj>)
    ensures |r| == |f|
    decreases Weight(f), 1, |f|
  {
    if f == [] then []
    else
      WeightCons(f);
      [PrepareObj(md, brackets, f[0], tag)] + PrepareEach(md, brackets, f[1..], tag)
  }

  ghost function PrepareObj(md: Schema, brackets: bool, o: Obj, tag: string): Obj
    decreases WeightOf(o), 0, 0
  {
    var cs := if IsTagClass(o.cls) then o.children else TaggedChildren(md, brackets, o, tag);
    var attrs := if IsTagClass(o.cls) then o.attrs else o.attrs["annotation" := Str(OWNER)];
    WeightTagged(md, brackets, o, tag);
    Obj(o.cls, o.hintDn, Normalize(NormalizerOf(md, o.cls), attrs), PrepareAll(md, brackets, cs, tag))
  }

  lemma {:induction false} PrepareEachSnoc(md: Schema, brackets: bool, f: seq<Obj>, tag: string, i: nat)
    requires i < |f|
    ensures PrepareEach(md, brackets, f[..i + 1], tag) ==
              PrepareEach(md, brackets, f[..i], tag) + [PrepareObj(md, brackets, f[i], tag)]
  {
    hide PrepareObj;
    if i == 0 {
      assert f[..1][1..] == [] && f[..0] == [];
    } else {
      assert f[..i + 1][1..] == f[1..][..i] && f[..i][1..] == f[1..][..i - 1];
      PrepareEachSnoc(md, brackets, f[1..], tag, i - 1);
    }
  }

  /** prepareApicSliceTag as the source runs it: sort, then tag, mark, descend and normalize each object in turn. */
  method PrepareApicSliceTag(md: Schema, brackets: bool, objects: seq<Obj>, tag: string) returns (r: seq<Obj>)
    ensures r == PrepareAll(md, brackets, objects, tag)
    decreases Weight(objects)
  {
    hide Sort, TaggedChildren, Normalize, NormalizerOf, IsTagClass;
    var sorted := Sort(objects);
    WeightSort(objects);
    r := [];
    for i := 0 to |sorted|
      invariant r == PrepareEach(md, brackets, sorted[..i], tag)
    {
      WeightAt(sorted, i);
      WeightTagged(md, brackets, sorted[i], tag);
      WeightIs(sorted[i]);
      PrepareEachSnoc(md, brackets, sorted, tag, i);
      var o := sorted[i];
      if !IsTagClass(o.cls) {
        o := SetTag(md, brackets, o, tag);
        o := o.(attrs := o.attrs["annotation" := Str(OWNER)]);
      }
      var children := PrepareApicSliceTag(md, brackets, o.children, tag);
      var attrs := NormalizeBody(NormalizerOf(md, o.cls), o.attrs);
      r := r + [Obj(o.cls, o.hintDn, attrs, children)];
    }
    assert sorted[..|sorted|] == sorted;
  }

  lemma WeightIs(o: Obj)
    ensures WeightOf(o) == (if IsTagClass(o.cls) then 1 else 2) + Weight(o.children)
  {
  }

  lemma {:induction false} WeightAt(f: seq<Obj>, i: nat)
    requires i < |f|
    ensures WeightOf(f[i]) <= Weight(f)
  {
    if i < |f| - 1 {
      assert f[..|f| - 1][i] == f[i];
      WeightAt(f[..|f| - 1], i);
    }
  }

  lemma {:induction false} PrepareEachAt(md: Schema, brackets: bool, f: seq<Obj>, tag: string, i: nat)
    requires i < |f|
    ensures PrepareEach(md, brackets, f, tag)[i] == PrepareObj(md, brackets, f[i], tag)
  {
    if i > 0 { PrepareEachAt(md, brackets, f[1..], tag, i - 1); }
  }

  lemma PrepareKeepsName(md: Schema, brackets: bool, o: Obj, tag: string)
    ensures var r := PrepareObj(md, brackets, o, tag);
      r.cls == o.cls && Dn(r) == Dn(o) && AttrStr(r, "dn") == AttrStr(o, "dn")
  {
    var attrs := if IsTagClass(o.cls) then o.attrs else o.attrs["annotation" := Str(OWNER)];
    NormalizeKeeps(NormalizerOf(md, o.cls), attrs, "dn");
  }

  /** Sorted at every depth, each non-tag object marked, everything normalized. */
  ghost predicate Ordered(md: Schema, f: seq<Obj>)
    decreases f
  {
    Ascending(f) && forall i :: 0 <= i < |f| ==> OrderedObj(md, f[i])
  }

  ghost predicate OrderedObj(md: Schema, o: Obj)
    decreases o
  {
    && Normalize(NormalizerOf(md, o.cls), o.attrs) == o.attrs
    && (!IsTagClass(o.cls) ==> "annotation" in o.attrs && o.attrs["annotation"] == Str(OWNER))
    && Ascending(o.children) && forall i :: 0 <= i < |o.children| ==> OrderedObj(md, o.children[i])
  }

  /** Each non-tag object with a DN carries the tag, at every depth. */
  ghost predicate Tagged(f: seq<Obj>, tag: string)
    decreases f
  {
    forall i :: 0 <= i < |f| ==> TaggedObj(f[i], tag)
  }

  ghost predicate TaggedObj(o: Obj, tag: string)
    decreases o
  {
    && (!IsTagClass(o.cls) && AttrStr(o, "dn") != "" ==> GetTag(o) == tag)
    && forall i :: 0 <= i < |o.children| ==> TaggedObj(o.children[i], tag)
  }

  /** No object has two of our tags. */
  ghost predicate OneTag(f: seq<Obj>)
    decreases f
  {
    forall i :: 0 <= i < |f| ==> OneTagObj(f[i])
  }

  ghost predicate OneTagObj(o: Obj)
    decreases o, 0
  {
    OurCount(o.children) <= 1 && forall i :: 0 <= i < |o.children| ==> OneTagObj(o.children[i])
  }

  /** After retagging a list with at most one of our tags, our tag carries the new value and the rest is unchanged. */
  lemma {:induction false} RetagParts(cs: seq<Obj>, tag: string, x: Obj)
    requires OurCount(cs) <= 1 && x in Retag(cs, tag).0
    ensures if IsOurs(x) then AttrStr(x, "value") == tag && exists c :: c in cs && x == WithValue(c, tag) else x in cs
  {
    var front, last := cs[..|cs| - 1], cs[|cs| - 1];
    assert cs == front + [last];
    if IsOurs(last) {
      if x in front {
        NoOurs(front, x);
      } else {
        assert x == WithValue(last, tag);
      }
    } else if x in Retag(front, tag).0 {
      RetagParts(front, tag, x);
    }
  }

  lemma {:induction false} NoOurs(cs: seq<Obj>, x: Obj)
    requires OurCount(cs) == 0 && x in cs
    ensures !IsOurs(x)
  {
    if x != cs[|cs| - 1] { NoOurs(cs[..|cs| - 1], x); }
  }

  lemma TaggedParts(md: Schema, brackets: bool, o: Obj, tag: string)
    requires OneTagObj(o)
    ensures forall x :: x in TaggedChildren(md, brackets, o, tag) ==>
      OneTagObj(x) && (IsOurs(x) ==> AttrStr(x, "value") == tag)
    ensures AttrStr(o, "dn") != "" ==> exists x :: x in TaggedChildren(md, brackets, o, tag) && IsOurs(x)
  {
    var (cs, found) := Retag(o.children, tag);
    RetagEffect(o.children, tag);
    var t := TagObj(md, brackets, AttrStr(o, "dn"), tag);
    TagObjIsOurs(md, brackets, AttrStr(o, "dn"), tag);
    forall x | x in cs ensures OneTagObj(x) && (IsOurs(x) ==> AttrStr(x, "value") == tag) {
      RetagParts(o.children, tag, x);
      if IsOurs(x) {
        var c :| c in o.children && x == WithValue(c, tag);
        assert OneTagObj(c);
      }
    }
    if found { var x := SomeOurs(cs); } else if AttrStr(o, "dn") != "" { assert t in cs + [t]; }
  }

  lemma {:induction false} SomeOurs(cs: seq<Obj>) returns (x: Obj)
    requires OurCount(cs) > 0
    ensures x in cs && IsOurs(x)
  {
    if IsOurs(cs[|cs| - 1]) { x := cs[|cs| - 1]; } else { x := SomeOurs(cs[..|cs| - 1]); }
  }

  lemma {:induction false} FirstTagIs(cs: seq<Obj>, tag: string)
    requires (exists x :: x in cs && IsOurs(x)) && forall x :: x in cs && IsOurs(x) ==> AttrStr(x, "value") == tag
    ensures FirstTag(cs) == tag
  {
    assert cs == [cs[0]] + cs[1..];
    if !IsOurs(cs[0]) { FirstTagIs(cs[1..], tag); }
  }

  lemma PrepareKeepsTag(md: Schema, brackets: bool, o: Obj, tag: string)
    ensures var r := PrepareObj(md, brackets, o, tag);
      (IsOurs(r) <==> IsOurs(o)) && (IsOurs(o) ==> AttrStr(r, "value") == AttrStr(o, "value"))
  {
    var attrs := if IsTagClass(o.cls) then o.attrs else o.attrs["annotation" := Str(OWNER)];
    NormalizeKeeps(NormalizerOf(md, o.cls), attrs, "key");
    NormalizeKeeps(NormalizerOf(md, o.cls), attrs, "value");
  }

  lemma SameElements(f: seq<Obj>)
    ensures forall x :: x in Sort(f) <==> x in f
  {
    SortAscending(f);
    forall x ensures x in Sort(f) <==> x in f {
      assert x in Sort(f) <==> x in multiset(Sort(f));
      assert x in f <==> x in multiset(f);
    }
  }

  /** What preparation yields, whatever the input; tags too, as long as no object carried two of ours. */
  lemma {:induction false} PrepareWorks(md: Schema, brackets: bool, f: seq<Obj>, tag: string)
    ensures Ordered(md, PrepareAll(md, brackets, f, tag))
    ensures OneTag(f) ==> Tagged(PrepareAll(md, brackets, f, tag), tag)
    decreases Weight(f), 2
  {
    var s, r := Sort(f), PrepareAll(md, brackets, f, tag);
    WeightSort(f);
    SortAscending(f);
    SameElements(f);
    forall i | 0 <= i < |r|
      ensures OrderedObj(md, r[i]) && Dn(r[i]) == Dn(s[i]) && (OneTag(f) ==> TaggedObj(r[i], tag))
    {
      PrepareEachAt(md, brackets, s, tag, i);
      PrepareKeepsName(md, brackets, s[i], tag);
      assert s[i] in f;
      WeightAt(s, i);
      PrepareObjWorks(md, brackets, s[i], tag);
    }
  }

  lemma {:induction false} PrepareObjWorks(md: Schema, brackets: bool, o: Obj, tag: string)
    ensures OrderedObj(md, PrepareObj(md, brackets, o, tag))
    ensures OneTagObj(o) ==> TaggedObj(PrepareObj(md, brackets, o, tag), tag)
    decreases WeightOf(o), 0
  {
    hide TaggedChildren, Normalize, Sort;
    var cs := if IsTagClass(o.cls) then o.children else TaggedChildren(md, brackets, o, tag);
    var attrs := if IsTagClass(o.cls) then o.attrs else o.attrs["annotation" := Str(OWNER)];
    var r := PrepareObj(md, brackets, o, tag);
    WeightTagged(md, brackets, o, tag);
    PrepareWorks(md, brackets, cs, tag);
    NormalizeTwice(NormalizerOf(md, o.cls), attrs);
    NormalizeKeeps(NormalizerOf(md, o.cls), attrs, "annotation");
    NormalizeKeeps(NormalizerOf(md, o.cls), attrs, "dn");
    if OneTagObj(o) {
      TaggedParts(md, brackets, o, tag);
      assert OneTag(cs);
      if !IsTagClass(o.cls) && AttrStr(o, "dn") != "" { PreparedTag(md, brackets, cs, tag); }
    }
  }

  lemma PreparedTag(md: Schema, brackets: bool, cs: seq<Obj>, tag: string)
    requires (exists x :: x in cs && IsOurs(x)) && forall x :: x in cs && IsOurs(x) ==> AttrStr(x, "value") == tag
    ensures FirstTag(PrepareAll(md, brackets, cs, tag)) == tag
  {
    var s, r := Sort(cs), PrepareAll(md, brackets, cs, tag);
    SameElements(cs);
    forall i | 0 <= i < |s|
      ensures (IsOurs(r[i]) <==> IsOurs(s[i])) && (IsOurs(r[i]) ==> AttrStr(r[i], "value") == tag)
    {
      PrepareEachAt(md, brackets, s, tag, i);
      PrepareKeepsTag(md, brackets, s[i], tag);
      assert s[i] in cs;
    }
    var x :| x in cs && IsOurs(x);
    assert x in s;
    var i :| 0 <= i < |s| && s[i] == x;
    assert r[i] in r;
    FirstTagIs(r, tag);
  }

  // ----- Preparing twice -----

  /** The children that preparation goes on with. */
  function Kids(md: Schema, brackets: bool, o: Obj, tag: string): seq<Obj> {
    if IsTagClass(o.cls) then o.children else TaggedChildren(md, brackets, o, tag)
  }

  lemma KidsWeigh(md: Schema, brackets: bool, f: seq<Obj>, tag: string, i: nat)
    requires i < |f|
    ensures Weight(Kids(md, brackets, f[i], tag)) < WeightOf(f[i]) <= Weight(f)
  {
    WeightAt(f, i);
    WeightTagged(md, brackets, f[i], tag);
  }

  lemma PrepareObjIs(md: Schema, brackets: bool, o: Obj, tag: string)
    ensures var attrs := if IsTagClass(o.cls) then o.attrs else o.attrs["annotation" := Str(OWNER)];
      PrepareObj(md, brackets, o, tag) == Obj(o.cls, o.hintDn, Normalize(NormalizerOf(md, o.cls), attrs),
                                              PrepareAll(md, brackets, Kids(md, brackets, o, tag), tag))
  {
  }

  lemma PrepareAllIs(md: Schema, brackets: bool, f: seq<Obj>, tag: string)
    ensures PrepareAll(md, brackets, f, tag) == PrepareEach(md, brackets, Sort(f), tag)
    ensures |Sort(f)| == |f| == |PrepareAll(md, brackets, f, tag)|
  {
    SortAscending(f);
    assert |multiset(Sort(f))| == |multiset(f)|;
  }

  /** The last tag child, if there is one, is ours and carries `tag`. */
  predicate LastTagIs(cs: seq<Obj>, tag: string) {
    cs == [] ||
    var front, last := cs[..|cs| - 1], cs[|cs| - 1];
    if last.cls == "tagAnnotation" then IsOurs(last) && WithValue(last, tag) == last else LastTagIs(front, tag)
  }

  lemma {:induction false} RetagShrinks(cs: seq<Obj>, tag: string)
    ensures |Retag(cs, tag).0| <= |cs|
  {
    if cs != [] { RetagShrinks(cs[..|cs| - 1], tag); }
  }

  /** Setting the tag changes nothing if and only if the last tag child is ours and has it. */
  lemma {:induction false} RetagStaysIff(cs: seq<Obj>, tag: string)
    ensures Retag(cs, tag).0 == cs <==> LastTagIs(cs, tag)
  {
    if cs != [] {
      var front, last := cs[..|cs| - 1], cs[|cs| - 1];
      hide IsOurs, WithValue;
      RetagStaysIff(front, tag);
      RetagShrinks(front, tag);
      assert cs == front + [last];
      var rest := Retag(front, tag).0;
      if IsOurs(last) {
        assert (front + [WithValue(last, tag)])[|front|] == WithValue(last, tag);
        OursIsTag(last);
      } else if last.cls != "tagAnnotation" {
        assert (rest + [last])[..|rest|] == rest;
      }
    }
  }

  lemma OursIsTag(o: Obj)
    ensures IsOurs(o) ==> o.cls == "tagAnnotation"
  {
  }

  lemma ValueIsSet(o: Obj, tag: string)
    ensures WithValue(WithValue(o, tag), tag) == WithValue(o, tag)
    ensures Dn(WithValue(o, tag)) == Dn(o) && WithValue(o, tag).cls == o.cls
    ensures IsOurs(WithValue(o, tag)) <==> IsOurs(o)
  {
  }

  /** A pass that finds our tag and drops nothing leaves it set as the last one, and every name where it was. */
  lemma {:induction false} RetagSets(cs: seq<Obj>, tag: string)
    requires Retag(cs, tag).1 && |Retag(cs, tag).0| == |cs|
    ensures LastTagIs(Retag(cs, tag).0, tag)
    ensures forall i :: 0 <= i < |cs| ==> Dn(Retag(cs, tag).0[i]) == Dn(cs[i])
  {
    hide IsOurs, WithValue, Dn;
    var front, last := cs[..|cs| - 1], cs[|cs| - 1];
    var rest := Retag(front, tag).0;
    if IsOurs(last) {
      ValueIsSet(last, tag);
      OursIsTag(last);
    } else {
      RetagShrinks(front, tag);
      if last.cls != "tagAnnotation" {
        RetagSets(front, tag);
        assert (rest + [last])[..|rest|] == rest;
      }
    }
  }

  /** Preparing the objects of a list one by one does not change which of them is the last tag, or its value. */
  lemma {:induction false} LastTagPrepared(md: Schema, brackets: bool, f: seq<Obj>, tag: string)
    ensures LastTagIs(PrepareEach(md, brackets, f, tag), tag) <==> LastTagIs(f, tag)
  {
    if f != [] {
      var n := |f| - 1;
      hide *;
      PrepareEachSnoc(md, brackets, f, tag, n);
      assert f[..n + 1] == f;
      LastTagPrepared(md, brackets, f[..n], tag);
      PrepareKeepsValue(md, brackets, f[n], tag);
      LastTagSnoc(f, tag);
      LastTagSnoc(PrepareEach(md, brackets, f, tag), tag);
    }
  }

  lemma LastTagSnoc(cs: seq<Obj>, tag: string)
    requires cs != []
    ensures var front, last := cs[..|cs| - 1], cs[|cs| - 1];
      LastTagIs(cs, tag) <==>
        if last.cls == "tagAnnotation" then IsOurs(last) && WithValue(last, tag) == last else LastTagIs(front, tag)
  {
  }

  lemma PrepareKeepsValue(md: Schema, brackets: bool, o: Obj, tag: string)
    ensures var r := PrepareObj(md, brackets, o, tag);
      r.cls == o.cls && (IsOurs(r) <==> IsOurs(o)) && (WithValue(r, tag) == r <==> WithValue(o, tag) == o)
  {
    var attrs := if IsTagClass(o.cls) then o.attrs else o.attrs["annotation" := Str(OWNER)];
    PrepareKeepsTag(md, brackets, o, tag);
    NormalizeKeeps(NormalizerOf(md, o.cls), attrs, "value");
    SetAlready(o, tag);
    SetAlready(PrepareObj(md, brackets, o, tag), tag);
  }

  lemma SetAlready(o: Obj, tag: string)
    ensures WithValue(o, tag) == o <==> "value" in o.attrs && o.attrs["value"] == Str(tag)
  {
    if "value" in o.attrs && o.attrs["value"] == Str(tag) { assert o.attrs["value" := Str(tag)] == o.attrs; }
  }

  /** Once the objects are tagged and in order, each one's last tag child is ours and up to date, at every depth. */
  ghost predicate Settled(md: Schema, brackets: bool, f: seq<Obj>, tag: string)
    decreases Weight(f)
  {
    forall i :: 0 <= i < |f| ==>
      TagSettled(md, brackets, f[i], tag) &&
      (KidsWeigh(md, brackets, f, tag, i); Settled(md, brackets, Kids(md, brackets, f[i], tag), tag))
  }

  ghost predicate TagSettled(md: Schema, brackets: bool, o: Obj, tag: string) {
    IsTagClass(o.cls) || LastTagIs(Sort(TaggedChildren(md, brackets, o, tag)), tag)
  }

  /** A tagged object without one of our tags has no tag at all, and no DN to give it one. */
  lemma TagsAfterTagging(md: Schema, brackets: bool, o: Obj, tag: string)
    ensures var cs := TaggedChildren(md, brackets, o, tag);
      (forall x :: x in cs ==> !IsOurs(x)) ==>
        AttrStr(o, "dn") == "" && forall x :: x in cs ==> x.cls != "tagAnnotation"
  {
    var cs := TaggedChildren(md, brackets, o, tag);
    RetagEffect(o.children, tag);
    TagObjIsOurs(md, brackets, AttrStr(o, "dn"), tag);
    if forall x :: x in cs ==> !IsOurs(x) {
      hide IsOurs, TagObj;
      var r := Retag(o.children, tag);
      if r.1 {
        var x := SomeOurs(r.0);
      } else {
        RetagNone(o.children, tag);
        assert AttrStr(o, "dn") != "" ==> TagObj(md, brackets, AttrStr(o, "dn"), tag) in cs;
      }
    }
  }

  lemma {:induction false} RetagNone(cs: seq<Obj>, tag: string)
    requires !Retag(cs, tag).1
    ensures forall x :: x in Retag(cs, tag).0 ==> x.cls != "tagAnnotation"
  {
    if cs != [] { RetagNone(cs[..|cs| - 1], tag); }
  }

  /** The prepared children of `o` have one of our tags, or no tag and no DN to get one. */
  lemma TagsAfterPreparing(md: Schema, brackets: bool, o: Obj, tag: string)
    requires !IsTagClass(o.cls)
    ensures var r := PrepareObj(md, brackets, o, tag);
      (Retag(r.children, tag).1 || (AttrStr(r, "dn") == "" && LastTagIs(r.children, tag)))
  {
    hide *;
    var r, cs := PrepareObj(md, brackets, o, tag), TaggedChildren(md, brackets, o, tag);
    PrepareObjIs(md, brackets, o, tag);
    KidsOf(md, brackets, o, tag);
    PrepareAllIs(md, brackets, cs, tag);
    PrepareKeepsName(md, brackets, o, tag);
    TagsAfterTagging(md, brackets, o, tag);
    SameElements(cs);
    var s := Sort(cs);
    forall i | 0 <= i < |s|
      ensures r.children[i].cls == s[i].cls && (IsOurs(r.children[i]) <==> IsOurs(s[i]))
    {
      PrepareEachAt(md, brackets, s, tag, i);
      PrepareKeepsValue(md, brackets, s[i], tag);
    }
    RetagEffect(r.children, tag);
    if OurCount(r.children) == 0 {
      forall x | x in cs ensures !IsOurs(x) {
        assert x in s;
        var i :| 0 <= i < |s| && s[i] == x;
        NoOurs(r.children, r.children[i]);
      }
      forall i | 0 <= i < |s| ensures r.children[i].cls != "tagAnnotation" { assert s[i] in cs; }
      NoTagIsLast(r.children, tag);
    }
  }

  lemma KidsOf(md: Schema, brackets: bool, o: Obj, tag: string)
    ensures Kids(md, brackets, o, tag) == if IsTagClass(o.cls) then o.children else TaggedChildren(md, brackets, o, tag)
  {
  }

  lemma {:induction false} NoTagIsLast(cs: seq<Obj>, tag: string)
    requires forall i :: 0 <= i < |cs| && cs[i].cls == "tagAnnotation" ==>
      IsOurs(cs[i]) && WithValue(cs[i], tag) == cs[i]
    ensures LastTagIs(cs, tag)
  {
    if cs != [] { NoTagIsLast(cs[..|cs| - 1], tag); }
  }

  /** The second pass leaves the children of a prepared object alone if and only if its tag is settled. */
  lemma RetaggedTwice(md: Schema, brackets: bool, o: Obj, tag: string)
    requires !IsTagClass(o.cls)
    ensures var r := PrepareObj(md, brackets, o, tag);
      if TagSettled(md, brackets, o, tag) then TaggedChildren(md, brackets, r, tag) == r.children
      else PrepareAll(md, brackets, TaggedChildren(md, brackets, r, tag), tag) != r.children
  {
    hide *;
    var r, cs := PrepareObj(md, brackets, o, tag), TaggedChildren(md, brackets, o, tag);
    PrepareObjIs(md, brackets, o, tag);
    KidsOf(md, brackets, o, tag);
    PrepareAllIs(md, brackets, cs, tag);
    LastTagPrepared(md, brackets, Sort(cs), tag);
    TagSettledIs(md, brackets, o, tag);
    TagsAfterPreparing(md, brackets, o, tag);
    RetagStaysIff(r.children, tag);
    TaggedIs(md, brackets, r, tag);
    var t := TaggedChildren(md, brackets, r, tag);
    if !LastTagIs(r.children, tag) && PrepareAll(md, brackets, t, tag) == r.children {
      PrepareAllIs(md, brackets, t, tag);
      RetagSets(r.children, tag);
      PrepareWorks(md, brackets, cs, tag);
      StaysAscending(md, r.children, t);
      SortedStays(t);
      LastTagPrepared(md, brackets, t, tag);
    }
  }

  lemma TagSettledIs(md: Schema, brackets: bool, o: Obj, tag: string)
    requires !IsTagClass(o.cls)
    ensures TagSettled(md, brackets, o, tag) <==> LastTagIs(Sort(TaggedChildren(md, brackets, o, tag)), tag)
  {
  }

  lemma TaggedIs(md: Schema, brackets: bool, o: Obj, tag: string)
    ensures Retag(o.children, tag).1 || AttrStr(o, "dn") == "" ==>
      TaggedChildren(md, brackets, o, tag) == Retag(o.children, tag).0
  {
  }

  lemma StaysAscending(md: Schema, f: seq<Obj>, g: seq<Obj>)
    requires Ordered(md, f) && |f| == |g| && forall i :: 0 <= i < |f| ==> Dn(g[i]) == Dn(f[i])
    ensures Ascending(g)
  {
  }

  /** Preparing twice is preparing once if and only if every tag is settled by the first pass. */
  lemma {:induction false} PrepareTwiceIff(md: Schema, brackets: bool, f: seq<Obj>, tag: string)
    ensures PrepareAll(md, brackets, PrepareAll(md, brackets, f, tag), tag) == PrepareAll(md, brackets, f, tag) <==>
      Settled(md, brackets, f, tag)
    decreases Weight(f), 2
  {
    hide *;
    var s, r := Sort(f), PrepareAll(md, brackets, f, tag);
    WeightSort(f);
    PrepareAllIs(md, brackets, f, tag);
    PrepareWorks(md, brackets, f, tag);
    StaysAscending(md, r, r);
    SortedStays(r);
    PrepareAllIs(md, brackets, r, tag);
    var rr := PrepareAll(md, brackets, r, tag);
    forall i | 0 <= i < |s|
      ensures rr[i] == r[i] <==>
        TagSettled(md, brackets, s[i], tag) && Settled(md, brackets, Kids(md, brackets, s[i], tag), tag)
    {
      PrepareEachAt(md, brackets, s, tag, i);
      PrepareEachAt(md, brackets, r, tag, i);
      WeightAt(s, i);
      PrepareObjTwiceIff(md, brackets, s[i], tag);
    }
    SettledAt(md, brackets, s, tag);
    SettledAt(md, brackets, f, tag);
    SameElements(f);
  }

  lemma SettledAt(md: Schema, brackets: bool, f: seq<Obj>, tag: string)
    ensures Settled(md, brackets, f, tag) <==> forall x :: x in f ==>
      TagSettled(md, brackets, x, tag) && Settled(md, brackets, Kids(md, brackets, x, tag), tag)
  {
    hide Kids, TagSettled;
  }

  lemma {:induction false} PrepareObjTwiceIff(md: Schema, brackets: bool, o: Obj, tag: string)
    ensures PrepareObj(md, brackets, PrepareObj(md, brackets, o, tag), tag) == PrepareObj(md, brackets, o, tag) <==>
      TagSettled(md, brackets, o, tag) && Settled(md, brackets, Kids(md, brackets, o, tag), tag)
    decreases WeightOf(o), 0
  {
    hide *;
    var r := PrepareObj(md, brackets, o, tag);
    PrepareObjIs(md, brackets, o, tag);
    PrepareObjIs(md, brackets, r, tag);
    KidsOf(md, brackets, o, tag);
    KidsOf(md, brackets, r, tag);
    var n := NormalizerOf(md, o.cls);
    var attrs := if IsTagClass(o.cls) then o.attrs else o.attrs["annotation" := Str(OWNER)];
    NormalizeTwice(n, attrs);
    NormalizeKeeps(n, attrs, "annotation");
    KidsWeigh(md, brackets, [o], tag, 0);
    PrepareTwiceIff(md, brackets, Kids(md, brackets, o, tag), tag);
    if IsTagClass(o.cls) {
      TagClassSettled(md, brackets, o, tag);
    } else {
      assert r.attrs["annotation" := Str(OWNER)] == r.attrs;
      RetaggedTwice(md, brackets, o, tag);
    }
  }

  lemma TagClassSettled(md: Schema, brackets: bool, o: Obj, tag: string)
    requires IsTagClass(o.cls)
    ensures TagSettled(md, brackets, o, tag)
  {
  }

  // ----- Objects that carry no tag, or only ours -----

  ghost predicate OwnTags(f: seq<Obj>)
    decreases f
  {
    forall i :: 0 <= i < |f| ==> OwnTagsIn(f[i])
  }

  /** At every depth at most one tag child, and it is ours. */
  ghost predicate OwnTagsIn(o: Obj)
    decreases o
  {
    && OurCount(o.children) <= 1
    && (forall i :: 0 <= i < |o.children| && o.children[i].cls == "tagAnnotation" ==> IsOurs(o.children[i]))
    && forall i :: 0 <= i < |o.children| ==> OwnTagsIn(o.children[i])
  }

  lemma TagObjIsSet(md: Schema, brackets: bool, parentDn: string, tag: string)
    ensures var t := TagObj(md, brackets, parentDn, tag); IsOurs(t) && WithValue(t, tag) == t && OwnTagsIn(t)
  {
    SetAlready(TagObj(md, brackets, parentDn, tag), tag);
  }

  lemma KidsOwnTags(md: Schema, brackets: bool, o: Obj, tag: string)
    requires OwnTagsIn(o)
    ensures forall x :: x in Kids(md, brackets, o, tag) ==> OwnTagsIn(x)
    ensures !IsTagClass(o.cls) ==> forall x :: x in Kids(md, brackets, o, tag) && x.cls == "tagAnnotation" ==>
      IsOurs(x) && WithValue(x, tag) == x
  {
    if !IsTagClass(o.cls) {
      var cs := Retag(o.children, tag).0;
      TagObjIsSet(md, brackets, AttrStr(o, "dn"), tag);
      hide TagObj;
      forall x | x in cs
        ensures OwnTagsIn(x) && (x.cls == "tagAnnotation" ==> IsOurs(x) && WithValue(x, tag) == x)
      {
        RetagParts(o.children, tag, x);
        if IsOurs(x) {
          var c :| c in o.children && x == WithValue(c, tag);
          ValueIsSet(c, tag);
          assert OwnTagsIn(c);
        }
      }
    }
  }

  lemma {:induction false} OwnTagsSettle(md: Schema, brackets: bool, f: seq<Obj>, tag: string)
    requires OwnTags(f)
    ensures Settled(md, brackets, f, tag)
    decreases Weight(f)
  {
    forall i | 0 <= i < |f|
      ensures TagSettled(md, brackets, f[i], tag) && Settled(md, brackets, Kids(md, brackets, f[i], tag), tag)
    {
      KidsOwnTags(md, brackets, f[i], tag);
      KidsWeigh(md, brackets, f, tag, i);
      var cs := Kids(md, brackets, f[i], tag);
      OwnTagsSettle(md, brackets, cs, tag);
      SameElements(cs);
      if !IsTagClass(f[i].cls) { NoTagIsLast(Sort(cs), tag); }
    }
  }

  /** Preparing twice is preparing once, for objects that carry no tag or only one of ours. */
  lemma PrepareIsIdempotent(md: Schema, brackets: bool, f: seq<Obj>, tag: string)
    requires OwnTags(f)
    ensures PrepareAll(md, brackets, PrepareAll(md, brackets, f, tag), tag) == PrepareAll(md, brackets, f, tag)
  {
    OwnTagsSettle(md, brackets, f, tag);
    PrepareTwiceIff(md, brackets, f, tag);
  }

  // ----- The diff's precondition -----

  ghost predicate DistinctSiblings(f: seq<Obj>) {
    forall i, j :: 0 <= i < j < |f| ==> Dn(f[i]) != Dn(f[j])
  }

  lemma DistinctCons(f: seq<Obj>)
    requires f != []
    ensures DistinctSiblings(f) <==> DistinctSiblings(f[1..]) && forall x :: x in f[1..] ==> Dn(x) != Dn(f[0])
  {
    if DistinctSiblings(f[1..]) && forall x :: x in f[1..] ==> Dn(x) != Dn(f[0]) {
      forall i, j | 0 <= i < j < |f| ensures Dn(f[i]) != Dn(f[j]) {
        assert f[j] == f[1..][j - 1];
        if i > 0 { assert f[i] == f[1..][i - 1]; }
      }
    }
    if DistinctSiblings(f) {
      forall x | x in f[1..] ensures Dn(x) != Dn(f[0]) {
        var j :| 0 <= j < |f[1..]| && f[1..][j] == x;
        assert f[j + 1] == x;
      }
    }
  }

  lemma AscendingDistinct(f: seq<Obj>)
    requires Ascending(f) && DistinctSiblings(f)
    ensures SortedSiblings(f)
  {
    forall i, j | 0 <= i < j < |f| ensures StrLess(Dn(f[i]), Dn(f[j])) { StrLessTotal(Dn(f[i]), Dn(f[j])); }
  }

  lemma {:induction false} InsertDistinct(o: Obj, f: seq<Obj>)
    requires DistinctSiblings(f) && forall x :: x in f ==> Dn(x) != Dn(o)
    ensures DistinctSiblings(Insert(o, f))
    ensures forall x :: x in Insert(o, f) ==> x == o || x in f
  {
    if f != [] && StrLess(Dn(f[0]), Dn(o)) {
      DistinctCons(f);
      InsertDistinct(o, f[1..]);
      assert Insert(o, f)[1..] == Insert(o, f[1..]);
      DistinctCons(Insert(o, f));
    } else {
      assert ([o] + f)[1..] == f;
      DistinctCons([o] + f);
    }
  }

  lemma {:induction false} SortDistinct(f: seq<Obj>)
    requires DistinctSiblings(f)
    ensures DistinctSiblings(Sort(f))
  {
    if f != [] {
      DistinctCons(f);
      SortDistinct(f[1..]);
      SameElements(f[1..]);
      InsertDistinct(f[0], Sort(f[1..]));
    }
  }

  lemma SortKeepsDistinct(f: seq<Obj>)
    ensures DistinctSiblings(Sort(f)) <==> DistinctSiblings(f)
  {
    if DistinctSiblings(f) { SortDistinct(f); }
    if DistinctSiblings(Sort(f)) { UnsortDistinct(f); }
  }

  lemma {:induction false} UnsortDistinct(f: seq<Obj>)
    requires DistinctSiblings(Sort(f))
    ensures DistinctSiblings(f)
  {
    if f != [] {
      InsertedDistinct(f[0], Sort(f[1..]));
      UnsortDistinct(f[1..]);
      SameElements(f[1..]);
      DistinctCons(f);
    }
  }

  lemma {:induction false} InsertedDistinct(o: Obj, f: seq<Obj>)
    requires DistinctSiblings(Insert(o, f))
    ensures DistinctSiblings(f) && forall x :: x in f ==> Dn(x) != Dn(o)
  {
    if f != [] && StrLess(Dn(f[0]), Dn(o)) {
      assert Insert(o, f)[1..] == Insert(o, f[1..]);
      DistinctCons(Insert(o, f));
      InsertedDistinct(o, f[1..]);
      InsertElements(o, f[1..]);
      assert forall x :: x in f[1..] ==> x in multiset(Insert(o, f[1..]));
      assert o in multiset(Insert(o, f[1..]));
      DistinctCons(f);
      assert f == [f[0]] + f[1..];
    } else {
      assert ([o] + f)[1..] == f;
      DistinctCons([o] + f);
    }
  }

  /** After tagging, siblings have distinct names at every depth. */
  ghost predicate DistinctNames(md: Schema, brackets: bool, f: seq<Obj>, tag: string)
    decreases Weight(f)
  {
    && DistinctSiblings(f)
    && forall i :: 0 <= i < |f| ==>
      (KidsWeigh(md, brackets, f, tag, i); DistinctNames(md, brackets, Kids(md, brackets, f[i], tag), tag))
  }

  /** Prepared objects meet the precondition of the diff if and only if tagging leaves distinct names. */
  lemma {:induction false} PreparedMeetsDiff(md: Schema, brackets: bool, f: seq<Obj>, tag: string)
    ensures SortedForest(PrepareAll(md, brackets, f, tag)) <==> DistinctNames(md, brackets, f, tag)
    decreases Weight(f)
  {
    hide *;
    var s, r := Sort(f), PrepareAll(md, brackets, f, tag);
    WeightSort(f);
    PrepareAllIs(md, brackets, f, tag);
    SortAscending(f);
    SortKeepsDistinct(f);
    forall i | 0 <= i < |s|
      ensures Dn(r[i]) == Dn(s[i])
      ensures SortedForest(r[i].children) <==> DistinctNames(md, brackets, Kids(md, brackets, s[i], tag), tag)
    {
      PrepareEachAt(md, brackets, s, tag, i);
      PrepareKeepsName(md, brackets, s[i], tag);
      PrepareObjIs(md, brackets, s[i], tag);
      KidsWeigh(md, brackets, s, tag, i);
      PreparedMeetsDiff(md, brackets, Kids(md, brackets, s[i], tag), tag);
    }
    SortedIff(s, r);
    NamesAt(md, brackets, f, tag);
    SameElements(f);
  }

  /** Distinct names at every depth, and none that the tag of an untagged parent will get. */
  ghost predicate DistinctIn(md: Schema, brackets: bool, o: Obj)
    decreases o
  {
    && DistinctSiblings(o.children)
    && (!IsTagClass(o.cls) && AttrStr(o, "dn") != "" && OurCount(o.children) == 0 ==>
      forall i :: 0 <= i < |o.children| ==> Dn(o.children[i]) != Dn(TagObj(md, brackets, AttrStr(o, "dn"), "")))
    && forall i :: 0 <= i < |o.children| ==> DistinctIn(md, brackets, o.children[i])
  }

  lemma TagName(md: Schema, brackets: bool, parentDn: string, tag: string)
    ensures var t := TagObj(md, brackets, parentDn, tag);
      Dn(t) == Dn(TagObj(md, brackets, parentDn, "")) && DistinctIn(md, brackets, t)
  {
  }

  /** Without foreign tags a pass keeps every child, up to the value of ours. */
  lemma {:induction false} RetagKeeps(cs: seq<Obj>, tag: string)
    requires forall i :: 0 <= i < |cs| && cs[i].cls == "tagAnnotation" ==> IsOurs(cs[i])
    ensures |Retag(cs, tag).0| == |cs|
    ensures forall i :: 0 <= i < |cs| ==> Retag(cs, tag).0[i] == cs[i] || Retag(cs, tag).0[i] == WithValue(cs[i], tag)
  {
    if cs != [] { RetagKeeps(cs[..|cs| - 1], tag); }
  }

  lemma KidsDistinct(md: Schema, brackets: bool, o: Obj, tag: string)
    requires OwnTagsIn(o) && DistinctIn(md, brackets, o)
    ensures DistinctSiblings(Kids(md, brackets, o, tag))
    ensures forall x :: x in Kids(md, brackets, o, tag) ==> DistinctIn(md, brackets, x)
  {
    if !IsTagClass(o.cls) {
      var r, t := Retag(o.children, tag).0, TagObj(md, brackets, AttrStr(o, "dn"), tag);
      RetagKeeps(o.children, tag);
      RetagEffect(o.children, tag);
      TagName(md, brackets, AttrStr(o, "dn"), tag);
      forall i | 0 <= i < |r| ensures Dn(r[i]) == Dn(o.children[i]) && DistinctIn(md, brackets, r[i]) {
        ValueIsSet(o.children[i], tag);
        SameDistinct(md, brackets, o.children[i], r[i], tag);
      }
      hide TagObj, Retag, Dn, OurCount, OwnTagsIn;
      if !Retag(o.children, tag).1 && AttrStr(o, "dn") != "" { DistinctSnoc(r, t); }
    }
  }

  lemma DistinctSnoc(f: seq<Obj>, o: Obj)
    requires DistinctSiblings(f) && forall i :: 0 <= i < |f| ==> Dn(f[i]) != Dn(o)
    ensures DistinctSiblings(f + [o])
  {
    hide Dn;
  }

  lemma SameDistinct(md: Schema, brackets: bool, o: Obj, r: Obj, tag: string)
    requires DistinctIn(md, brackets, o) && (r == o || r == WithValue(o, tag))
    ensures DistinctIn(md, brackets, r)
  {
  }

  /** Objects with no tag, or one of ours, and with distinct names meet the diff's precondition once prepared. */
  lemma {:induction false} OwnTagsMeetDiff(md: Schema, brackets: bool, f: seq<Obj>, tag: string)
    requires OwnTags(f) && DistinctSiblings(f) && forall i :: 0 <= i < |f| ==> DistinctIn(md, brackets, f[i])
    ensures DistinctNames(md, brackets, f, tag) && SortedForest(PrepareAll(md, brackets, f, tag))
    decreases Weight(f)
  {
    hide Kids, OwnTagsIn, DistinctIn, PrepareAll, SortedForest;
    forall i | 0 <= i < |f| ensures DistinctNames(md, brackets, Kids(md, brackets, f[i], tag), tag) {
      KidsWeigh(md, brackets, f, tag, i);
      KidsOwnTags(md, brackets, f[i], tag);
      KidsDistinct(md, brackets, f[i], tag);
      OwnTagsMeetDiff(md, brackets, Kids(md, brackets, f[i], tag), tag);
    }
    PreparedMeetsDiff(md, brackets, f, tag);
  }

  /** A list in ascending order is strictly sorted if and only if its names are distinct. */
  lemma SortedIff(s: seq<Obj>, r: seq<Obj>)
    requires Ascending(s) && |s| == |r| && forall i :: 0 <= i < |s| ==> Dn(r[i]) == Dn(s[i])
    ensures SortedForest(r) <==> DistinctSiblings(s) && forall i :: 0 <= i < |r| ==> SortedForest(r[i].children)
  {
    if DistinctSiblings(s) { AscendingDistinct(s); }
    if SortedSiblings(r) {
      forall i, j | 0 <= i < j < |s| ensures Dn(s[i]) != Dn(s[j]) { StrLessIrreflexive(Dn(s[i])); }
    }
  }

  lemma NamesAt(md: Schema, brackets: bool, f: seq<Obj>, tag: string)
    ensures DistinctNames(md, brackets, f, tag) <==>
      DistinctSiblings(f) && forall x :: x in f ==> DistinctNames(md, brackets, Kids(md, brackets, x, tag), tag)
  {
    hide Kids, DistinctSiblings;
  }

  // ----- Built objects converge -----

  /** Carries every attribute of its schema entry, as newApicObject makes it, at every depth. */
  ghost predicate Built(md: Schema, o: Obj)
    decreases o
  {
    && (o.cls in md ==> md[o.cls].attributes.Keys <= o.attrs.Keys)
    && forall i :: 0 <= i < |o.children| ==> Built(md, o.children[i])
  }

  /** Tagging a child list keeps children or sets their value. */
  lemma {:induction false} RetagFrom(cs: seq<Obj>, tag: string, x: Obj)
    requires x in Retag(cs, tag).0
    ensures x in cs || exists c :: c in cs && x == WithValue(c, tag)
  {
    var front, last := cs[..|cs| - 1], cs[|cs| - 1];
    assert cs == front + [last];
    if !IsOurs(last) && x in Retag(front, tag).0 { RetagFrom(front, tag, x); }
  }

  lemma KidsBuilt(md: Schema, brackets: bool, o: Obj, tag: string)
    requires Built(md, o)
    ensures forall x :: x in Kids(md, brackets, o, tag) ==> Built(md, x)
  {
    assert Built(md, TagObj(md, brackets, AttrStr(o, "dn"), tag));
    hide TagObj;
    forall x | x in Retag(o.children, tag).0 ensures Built(md, x) {
      RetagFrom(o.children, tag, x);
      if x !in o.children {
        var c :| c in o.children && x == WithValue(c, tag);
        assert Built(md, c);
      }
    }
  }

  lemma {:induction false} PrepareCompletes(md: Schema, brackets: bool, f: seq<Obj>, tag: string)
    requires forall x :: x in f ==> Built(md, x)
    ensures forall x :: x in PrepareAll(md, brackets, f, tag) ==> ApicConverge.Complete(md, x)
    decreases Weight(f)
  {
    var s, r := Sort(f), PrepareAll(md, brackets, f, tag);
    WeightSort(f);
    SameElements(f);
    hide Sort, Kids;
    forall i | 0 <= i < |r| ensures ApicConverge.Complete(md, r[i]) {
      PrepareEachAt(md, brackets, s, tag, i);
      assert s[i] in f;
      KidsWeigh(md, brackets, s, tag, i);
      KidsBuilt(md, brackets, s[i], tag);
      PrepareCompletes(md, brackets, Kids(md, brackets, s[i], tag), tag);
      PrepareObjIs(md, brackets, s[i], tag);
    }
  }

  /** From builder to controller: writing built objects, whatever the controller held, settles in one round. */
  lemma BuiltObjectsConverge(md: Schema, brackets: bool, f: seq<Obj>, tag: string, containers: set<string>,
                             current: seq<Obj>)
    requires DistinctNames(md, brackets, f, tag) && forall i :: 0 <= i < |f| ==> Built(md, f[i])
    requires SortedForest(current) && UniqueForest(current)
    requires ApicConverge.ForestSameClasses(current, PrepareAll(md, brackets, f, tag))
    ensures var desired := PrepareAll(md, brackets, f, tag);
      var after := ApicConverge.Applied(md, containers, current, desired);
      Updates(md, containers, after, desired) == [] && ForestDeletes(md, containers, after, desired) == []
  {
    var desired := PrepareAll(md, brackets, f, tag);
    PreparedMeetsDiff(md, brackets, f, tag);
    PrepareCompletes(md, brackets, f, tag);
    hide *;
    ApicConverge.CompleteConverges(md, containers, current, desired);
  }
}
