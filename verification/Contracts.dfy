/**
 Contract references of an endpoint group in the GBP object database
 (pkg/gbpserver/policy.go:443-491, pkg/gbpserver/gbp.go:140-183).

 An endpoint group refers to a contract through a child object whose URI is built from the
 contract's escaped name. setContracts reconciles the references of one subject with a wanted set.

 Main result, `SetKeeps`: a reconciliation succeeds exactly when every contract it has to add
 exists, and leaves everything else untouched; its references then point at exactly the wanted
 contracts if and only if no two of these have the same escaped name, and that is also exactly when
 the child list stays free of repetitions.
 */
module Contracts {
  import opened ApicTypes
  import EscapeName
  import opened ChildList
  import opened GoStrings

  /** A managed object: subject, forward-reference flag, name and target properties, child URIs. */
  datatype Mo = Mo(subject: string, isRef: bool, name: string, target: Option<string>, children: seq<string>)

  type DB = map<string, Mo>

  const CONSUMED := "GbpEpGroupToConsContractRSrc"
  const PROVIDED := "GbpEpGroupToProvContractRSrc"
  const SPACE := "/PolicyUniverse/PolicySpace/"

  // ----- Names -----

  function ContractAt(tenant: string, name: string): string {
    SPACE + tenant + "/GbpContract/" + name + "/"
  }

  function GroupAt(tenant: string, name: string): string {
    SPACE + tenant + "/GbpEpGroup/" + EscapeName.Escaped(name) + "/"
  }

  ghost predicate IsContract(u: string) {
    exists t, n :: '/' !in t && '/' !in n && u == ContractAt(t, n)
  }

  ghost predicate IsGroup(u: string) {
    exists t, n :: '/' !in t && u == GroupAt(t, n)
  }

  /** A contract's URI fixes its tenant, which has no slash, and its name. */
  lemma ContractAtInjective(t: string, n: string, t2: string, n2: string)
    requires '/' !in t && '/' !in t2 && ContractAt(t, n) == ContractAt(t2, n2)
    ensures t == t2 && n == n2
  {
    var u, p := ContractAt(t, n), |SPACE|;
    SlashAfter(t, "/GbpContract/" + n + "/", t2, "/GbpContract/" + n2 + "/");
    assert u[p..] == t + ("/GbpContract/" + n + "/") && u[p..] == t2 + ("/GbpContract/" + n2 + "/");
    var q := p + |t| + 13;
    assert u[q..|u| - 1] == n && u[q..|u| - 1] == n2;
  }

  /** Texts that start with a slash-free part and a slash agree on that part. */
  lemma SlashAfter(a: string, x: string, b: string, y: string)
    requires '/' !in a && '/' !in b && x != "" && y != "" && x[0] == '/' && y[0] == '/'
    ensures a + x <= b + y ==> a == b && x <= y
  {
    if a + x <= b + y {
      var s, t := a + x, b + y;
      assert s[|a|] == '/' && t[|b|] == '/' && s == t[..|s|];
      assert |a| == |b|;
      assert s[..|a|] == a && t[..|b|] == b && s[..|a|] == t[..|b|];
      assert x == s[|a|..] && y == t[|b|..];
    }
  }

  ghost function NameIn(u: string): string
    requires IsContract(u)
  {
    var t, n :| '/' !in t && '/' !in n && u == ContractAt(t, n);
    n
  }

  lemma NameInIs(t: string, n: string)
    requires '/' !in t && IsContract(ContractAt(t, n))
    ensures NameIn(ContractAt(t, n)) == n
  {
    var t2, n2 :| '/' !in t2 && '/' !in n2 && ContractAt(t, n) == ContractAt(t2, n2) && NameIn(ContractAt(t, n)) == n2;
    ContractAtInjective(t, n, t2, n2);
  }

  /** No contract lies below a group, whatever the names are. */
  lemma ContractsLieOutside(self: string, u: string)
    requires IsGroup(self) && IsContract(u)
    ensures !(self <= u)
  {
    var t, n :| '/' !in t && self == GroupAt(t, n);
    var t2, n2 :| '/' !in t2 && '/' !in n2 && u == ContractAt(t2, n2);
    GroupAtIs(t, n);
    ContractAtIs(t2, n2);
    hide GroupAt, ContractAt, GroupTail, ContractTail;
    SlashAfter(t, GroupTail(n), t2, ContractTail(n2));
    PrefixStrip(SPACE, t + GroupTail(n), t2 + ContractTail(n2));
    TailsDiffer(n, n2);
  }

  function GroupTail(n: string): string { "/GbpEpGroup/" + EscapeName.Escaped(n) + "/" }

  function ContractTail(n: string): string { "/GbpContract/" + n + "/" }

  lemma GroupAtIs(t: string, n: string)
    ensures GroupAt(t, n) == SPACE + (t + GroupTail(n)) && GroupTail(n) != "" && GroupTail(n)[0] == '/'
  {
    hide EscapeName.Escaped;
    var e := EscapeName.Escaped(n);
    assert SPACE + t + "/GbpEpGroup/" + e + "/" == SPACE + (t + ("/GbpEpGroup/" + e + "/"));
  }

  lemma ContractAtIs(t: string, n: string)
    ensures ContractAt(t, n) == SPACE + (t + ContractTail(n)) && ContractTail(n) != "" && ContractTail(n)[0] == '/'
  {
    assert SPACE + t + "/GbpContract/" + n + "/" == SPACE + (t + ("/GbpContract/" + n + "/"));
  }

  lemma TailsDiffer(n: string, m: string)
    ensures !(GroupTail(n) <= ContractTail(m))
  {
    hide EscapeName.Escaped;
    assert GroupTail(n)[4] == 'E' && ContractTail(m)[4] == 'C';
  }

  lemma PrefixStrip(p: string, a: string, b: string)
    ensures p + a <= p + b ==> a <= b
  {
    assert (p + a)[|p|..] == a && (p + b)[|p|..] == b;
    if p + a <= p + b { assert (p + b)[..|p + a|][|p|..] == a; }
  }

  function RefUri(self: string, subj: string, name: string): string {
    self + subj + "/288/" + EscapeName.Escaped(name) + "/"
  }

  /** A URI in the name space of the group's references of a subject. */
  ghost predicate InSpace(self: string, subj: string, u: string) {
    exists n :: u == RefUri(self, subj, n)
  }

  lemma SpaceIsBelow(self: string, subj: string, u: string)
    requires InSpace(self, subj, u)
    ensures self <= u && self != u
  {
    var n :| u == RefUri(self, subj, n);
    assert u[..|self|] == self;
    assert |u| > |self|;
  }

  lemma RefUriInjective(self: string, subj: string, n: string, m: string)
    requires RefUri(self, subj, n) == RefUri(self, subj, m)
    ensures EscapeName.Escaped(n) == EscapeName.Escaped(m)
  {
    var pre := self + subj + "/288/";
    var a, b := EscapeName.Escaped(n), EscapeName.Escaped(m);
    var u := RefUri(self, subj, n);
    assert u == pre + a + "/" && u == pre + b + "/";
    assert |a| == |b|;
    assert a == u[|pre|..|pre| + |a|] && b == u[|pre|..|pre| + |b|];
  }

  lemma SpacesApart(self: string, u: string)
    requires InSpace(self, CONSUMED, u)
    ensures !InSpace(self, PROVIDED, u)
  {
    var n :| u == RefUri(self, CONSUMED, n);
    assert u[|self| + 12] == CONSUMED[12] == 'C';
    forall m ensures u != RefUri(self, PROVIDED, m) {
      assert RefUri(self, PROVIDED, m)[|self| + 12] == PROVIDED[12] == 'P';
    }
  }

  /** The URI of the group's reference to a contract. */
  ghost function RefOf(self: string, subj: string, t: string): string
    requires IsContract(t)
  {
    RefUri(self, subj, NameIn(t))
  }

  /** The children that are not references of the subject, in order. */
  ghost function Others(self: string, subj: string, cs: seq<string>): seq<string> {
    if cs == [] then []
    else (if InSpace(self, subj, cs[0]) then [] else [cs[0]]) + Others(self, subj, cs[1..])
  }

  lemma {:induction false} OthersIs(self: string, subj: string, cs: seq<string>, x: string)
    ensures x in Others(self, subj, cs) <==> x in cs && !InSpace(self, subj, x)
  {
    if cs != [] {
      OthersIs(self, subj, cs[1..], x);
      assert cs == [cs[0]] + cs[1..];
    }
  }

  lemma {:induction false} OthersKept(self: string, subj: string, cs: seq<string>, c: string)
    requires InSpace(self, subj, c)
    ensures Others(self, subj, Kept(cs, c)) == Others(self, subj, cs)
    decreases |cs|
  {
    if cs == [] {
    } else if cs[0] != c {
      OthersKept(self, subj, cs[1..], c);
      assert Kept(cs, c)[1..] == Kept(cs[1..], c);
    } else if |cs| > 1 {
      OthersKept(self, subj, cs[2..], c);
      assert Kept(cs, c)[1..] == Kept(cs[2..], c) && cs[1..][1..] == cs[2..] && cs[1..][0] == cs[1];
    }
  }

  lemma {:induction false} OthersSnoc(self: string, subj: string, cs: seq<string>, c: string)
    requires InSpace(self, subj, c)
    ensures Others(self, subj, cs + [c]) == Others(self, subj, cs)
  {
    if cs == [] {
      assert ([c])[1..] == [] && cs + [c] == [c];
    } else {
      assert (cs + [c])[1..] == cs[1..] + [c];
      OthersSnoc(self, subj, cs[1..], c);
    }
  }

  // ----- The group and its references -----

  predicate IsRefOf(db: DB, subj: string, c: string) {
    c in db && db[c].isRef && db[c].subject == subj
  }

  /** The child refers to a contract and is named after it; the contract itself may be gone. */
  ghost predicate RefOk(db: DB, self: string, subj: string, c: string)
    requires c in db
  {
    db[c].target.Some? && IsContract(db[c].target.value) && c == RefOf(self, subj, db[c].target.value)
  }

  /** References are named after their contracts, and their name space holds nothing else. */
  ghost predicate Named(db: DB, self: string, subj: string) {
    && self in db
    && (forall c :: c in db[self].children && IsRefOf(db, subj, c) ==> RefOk(db, self, subj, c))
    && (forall u :: u in db && InSpace(self, subj, u) ==> u in db[self].children && IsRefOf(db, subj, u))
  }

  ghost predicate Present(db: DB, self: string)
    requires self in db
  {
    forall c :: c in db[self].children ==> c in db
  }

  /** No child is missing or listed twice. */
  ghost predicate Clean(db: DB, self: string)
    requires self in db
  {
    Present(db, self) && NoDuplicates(db[self].children)
  }

  /** Contract objects bear the name that is in their URI. */
  ghost predicate Titled(db: DB) {
    forall u :: u in db && IsContract(u) ==> db[u].name == NameIn(u)
  }

  /** Contract.Make: any name will do, as long as the tenant has no slash. */
  lemma MadeIsTitled(db: DB, tenant: string, mo: Mo)
    requires Titled(db) && '/' !in tenant
    ensures Titled(db[ContractAt(tenant, mo.name) := mo])
  {
    var u := ContractAt(tenant, mo.name);
    if IsContract(u) { NameInIs(tenant, mo.name); }
  }

  ghost predicate AllContracts(ts: seq<string>) {
    forall t :: t in ts ==> IsContract(t)
  }

  /** No two of the contracts have the same escaped name. */
  ghost predicate Distinct(ts: seq<string>)
    requires AllContracts(ts)
  {
    forall t, u :: t in ts && u in ts && EscapeName.Escaped(NameIn(t)) == EscapeName.Escaped(NameIn(u)) ==> t == u
  }

  /** The contracts that the group's references of a subject point at. */
  ghost function Targets(db: DB, self: string, subj: string): set<string>
    requires self in db
  {
    set c | c in db[self].children && IsRefOf(db, subj, c) && db[c].target.Some? :: db[c].target.value
  }

  /** Nothing but the group's child list and its references of the subject has changed. */
  ghost predicate Untouched(db: DB, db': DB, self: string, subj: string) {
    && self in db && self in db'
    && db'[self] == db[self].(children := db'[self].children)
    && Others(self, subj, db'[self].children) == Others(self, subj, db[self].children)
    && (forall u :: u != self && !InSpace(self, subj, u) ==> (u in db <==> u in db') && (u in db ==> db'[u] == db[u]))
  }

  lemma UntouchedTransitive(a: DB, b: DB, c: DB, self: string, subj: string)
    requires Untouched(a, b, self, subj) && Untouched(b, c, self, subj)
    ensures Untouched(a, c, self, subj)
  {
    hide InSpace, Others;
  }

  lemma UntouchedIs(db: DB, self: string, subj: string)
    requires self in db
    ensures Untouched(db, db, self, subj)
  {
  }

  lemma ContractsKept(db: DB, db': DB, self: string, subj: string, t: string)
    requires IsGroup(self) && IsContract(t) && Untouched(db, db', self, subj)
    ensures (t in db <==> t in db') && (t in db ==> db'[t] == db[t])
  {
    ContractsLieOutside(self, t);
    if InSpace(self, subj, t) { SpaceIsBelow(self, subj, t); }
    assert self <= self;
  }

  lemma TitledKept(db: DB, db': DB, self: string, subj: string)
    requires IsGroup(self) && Titled(db) && Untouched(db, db', self, subj)
    ensures Titled(db')
  {
    hide Untouched, IsGroup;
    forall u | u in db' && IsContract(u) ensures db'[u].name == NameIn(u) { ContractsKept(db, db', self, subj, u); }
  }

  /** A referenced contract has one reference, and it is the one named after it. */
  lemma TargetRef(db: DB, self: string, subj: string, t: string)
    requires Named(db, self, subj)
    ensures t in Targets(db, self, subj) <==>
      && IsContract(t) && RefOf(self, subj, t) in db[self].children && IsRefOf(db, subj, RefOf(self, subj, t))
      && db[RefOf(self, subj, t)].target == Some(t)
  {
    if t in Targets(db, self, subj) {
      var c :| c in db[self].children && IsRefOf(db, subj, c) && db[c].target.Some? && db[c].target.value == t;
      assert RefOk(db, self, subj, c);
    }
  }

  lemma RefInSpace(self: string, subj: string, t: string)
    requires IsContract(t)
    ensures var r := RefOf(self, subj, t); InSpace(self, subj, r) && self <= r && r != self
  {
    assert InSpace(self, subj, RefUri(self, subj, NameIn(t)));
    SpaceIsBelow(self, subj, RefOf(self, subj, t));
  }

  /** Contracts with the same escaped name are never referenced together. */
  lemma ReferencedAreDistinct(db: DB, self: string, subj: string, ts: seq<string>)
    requires Named(db, self, subj) && AllContracts(ts) && forall t :: t in ts ==> t in Targets(db, self, subj)
    ensures Distinct(ts)
  {
    forall t, u | t in ts && u in ts && EscapeName.Escaped(NameIn(t)) == EscapeName.Escaped(NameIn(u)) ensures t == u {
      TargetRef(db, self, subj, t);
      TargetRef(db, self, subj, u);
    }
  }

  // ----- One deletion -----

  function DropRef(db: DB, self: string, ref: string): DB
    requires self in db
  {
    db[self := db[self].(children := Kept(db[self].children, ref))] - {ref}
  }

  lemma DroppedIs(db: DB, self: string, ref: string)
    requires self in db && ref != self
    ensures var db' := DropRef(db, self, ref);
      && self in db' && ref !in db'
      && db'[self] == db[self].(children := Kept(db[self].children, ref))
      && (forall u :: u != self && u != ref ==> (u in db' <==> u in db) && (u in db ==> db'[u] == db[u]))
      && (forall x :: x != ref ==> (x in db'[self].children <==> x in db[self].children))
  {
    KeptIs(db[self].children, ref);
  }

  /** A child that is a reference of the subject after the change was the same one before it. */
  lemma SameRef(db: DB, self: string, subj: string, ref: string, c: string)
    requires Named(db, self, subj) && InSpace(self, subj, ref) && ref != self && c != ref
    ensures var db' := DropRef(db, self, ref);
      && (c in db'[self].children && IsRefOf(db', subj, c) <==> c in db[self].children && IsRefOf(db, subj, c))
      && (c in db[self].children && IsRefOf(db, subj, c) ==> c != self && db'[c] == db[c])
  {
    DroppedIs(db, self, ref);
    hide DropRef;
    if c in db[self].children && IsRefOf(db, subj, c) {
      assert RefOk(db, self, subj, c);
      RefInSpace(self, subj, db[c].target.value);
    }
    assert c == self ==> (IsRefOf(DropRef(db, self, ref), subj, c) <==> IsRefOf(db, subj, c));
  }

  lemma DropKeeps(db: DB, self: string, subj: string, t: string)
    requires Named(db, self, subj) && t in Targets(db, self, subj)
    ensures IsContract(t)
    ensures var ref := RefOf(self, subj, t); var db' := DropRef(db, self, ref);
      && Named(db', self, subj) && Untouched(db, db', self, subj)
      && Targets(db', self, subj) == Targets(db, self, subj) - {t}
      && (Clean(db, self) ==> !Crashes(db[self].children, ref) && Clean(db', self))
  {
    TargetRef(db, self, subj, t);
    RefInSpace(self, subj, t);
    var ref := RefOf(self, subj, t);
    DroppedIs(db, self, ref);
    OthersKept(self, subj, db[self].children, ref);
    DropNamed(db, self, subj, ref);
    DropTargets(db, self, subj, t);
    if Clean(db, self) { KeptOnce(db[self].children, ref); }
    hide DropRef, Named, Targets, Kept, RefOf;
  }

  lemma DropNamed(db: DB, self: string, subj: string, ref: string)
    requires Named(db, self, subj) && InSpace(self, subj, ref) && ref != self
    ensures Named(DropRef(db, self, ref), self, subj)
  {
    var db' := DropRef(db, self, ref);
    DroppedIs(db, self, ref);
    hide DropRef, InSpace, RefOf;
    forall c | c in db'[self].children && IsRefOf(db', subj, c) ensures RefOk(db', self, subj, c) {
      SameRef(db, self, subj, ref, c);
      assert RefOk(db, self, subj, c);
    }
    forall u | u in db' && InSpace(self, subj, u) ensures u in db'[self].children && IsRefOf(db', subj, u) {
      SpaceIsBelow(self, subj, u);
      SameRef(db, self, subj, ref, u);
    }
  }

  lemma DropTargets(db: DB, self: string, subj: string, t: string)
    requires Named(db, self, subj) && t in Targets(db, self, subj) && IsContract(t)
    requires self in DropRef(db, self, RefOf(self, subj, t))
    ensures Targets(DropRef(db, self, RefOf(self, subj, t)), self, subj) == Targets(db, self, subj) - {t}
  {
    var ref := RefOf(self, subj, t);
    var db' := DropRef(db, self, ref);
    RefInSpace(self, subj, t);
    DropNamed(db, self, subj, ref);
    DroppedIs(db, self, ref);
    TargetRef(db, self, subj, t);
    forall x ensures x in Targets(db', self, subj) <==> x in Targets(db, self, subj) && x != t {
      TargetRef(db, self, subj, x);
      TargetRef(db', self, subj, x);
      if IsContract(x) && RefOf(self, subj, x) != ref { SameRef(db, self, subj, ref, RefOf(self, subj, x)); }
    }
  }

  // ----- One addition -----

  function AddRef(db: DB, self: string, subj: string, t: string): DB
    requires self in db && t in db
  {
    var ref := RefUri(self, subj, db[t].name);
    var db1 := db[ref := Mo(subj, true, "", Some(t), [])];
    db1[self := db1[self].(children := db1[self].children + [ref])]
  }

  lemma AddedIs(db: DB, self: string, subj: string, t: string)
    requires self in db && t in db && IsContract(t) && Titled(db)
    ensures var ref := RefOf(self, subj, t); var db' := AddRef(db, self, subj, t);
      && InSpace(self, subj, ref) && self <= ref && ref != self
      && ref in db' && db'[ref] == Mo(subj, true, "", Some(t), [])
      && self in db' && db'[self] == db[self].(children := db[self].children + [ref])
      && (forall u :: u != self && u != ref ==> (u in db' <==> u in db) && (u in db ==> db'[u] == db[u]))
  {
    RefInSpace(self, subj, t);
  }

  lemma AddNamed(db: DB, self: string, subj: string, t: string)
    requires Named(db, self, subj) && Titled(db) && t in db && IsContract(t)
    ensures Named(AddRef(db, self, subj, t), self, subj)
  {
    var ref := RefOf(self, subj, t);
    var db' := AddRef(db, self, subj, t);
    AddedIs(db, self, subj, t);
    hide AddRef, InSpace, RefOf, Titled;
    var cs, cs' := db[self].children, db'[self].children;
    assert cs'[|cs|] == ref && forall c :: c in cs' <==> c in cs || c == ref;
    forall c | c in cs' && IsRefOf(db', subj, c) ensures RefOk(db', self, subj, c) {
      if c != ref {
        assert IsRefOf(db, subj, c);
        assert RefOk(db, self, subj, c);
        RefInSpace(self, subj, db[c].target.value);
      }
    }
    forall u | u in db' && InSpace(self, subj, u) ensures u in cs' && IsRefOf(db', subj, u) {
      SpaceIsBelow(self, subj, u);
      if u != ref { assert u in cs && IsRefOf(db, subj, u); }
    }
  }

  /** Adding a reference loses at most the target of a reference with the same URI. */
  lemma AddTargets(db: DB, self: string, subj: string, t: string)
    requires Named(db, self, subj) && Titled(db) && t in db && IsContract(t)
    ensures var was, now := Targets(db, self, subj), Targets(AddRef(db, self, subj, t), self, subj);
      t in now && now <= was + {t} && (RefOf(self, subj, t) !in db ==> now == was + {t})
  {
    var ref := RefOf(self, subj, t);
    var db' := AddRef(db, self, subj, t);
    AddedIs(db, self, subj, t);
    AddNamed(db, self, subj, t);
    TargetRef(db', self, subj, t);
    assert db'[self].children[|db[self].children|] == ref;
    forall x ensures x in Targets(db', self, subj) ==> x in Targets(db, self, subj) || x == t
      ensures x in Targets(db, self, subj) && ref !in db ==> x in Targets(db', self, subj)
    {
      TargetRef(db, self, subj, x);
      TargetRef(db', self, subj, x);
      if IsContract(x) { RefInSpace(self, subj, x); }
    }
  }

  lemma AddKeeps(db: DB, self: string, subj: string, t: string)
    requires IsGroup(self) && Named(db, self, subj) && Titled(db) && t in db && IsContract(t)
    ensures var db' := AddRef(db, self, subj, t);
      && Untouched(db, db', self, subj)
      && (Present(db, self) ==> Present(db', self))
      && (NoDuplicates(db'[self].children) ==> NoDuplicates(db[self].children) && RefOf(self, subj, t) !in db)
      && (Clean(db, self) && RefOf(self, subj, t) !in db ==> Clean(db', self))
  {
    var ref := RefOf(self, subj, t);
    var db' := AddRef(db, self, subj, t);
    AddedIs(db, self, subj, t);
    hide AddRef, RefOf, Titled;
    var cs, cs' := db[self].children, db'[self].children;
    OthersSnoc(self, subj, cs, ref);
    assert cs'[|cs|] == ref && cs'[..|cs|] == cs;
    if NoDuplicates(cs') {
      assert forall i :: 0 <= i < |cs| ==> cs'[i] == cs[i] && cs[i] != ref;
      assert ref !in cs;
    }
  }

  /** With distinct names, the URI of a contract that is not referenced yet is free. */
  lemma FreeUri(db: DB, self: string, subj: string, ts: seq<string>, t: string)
    requires Named(db, self, subj) && AllContracts(ts) && Distinct(ts) && t in ts && t !in Targets(db, self, subj)
    requires forall x :: x in Targets(db, self, subj) ==> x in ts
    ensures RefOf(self, subj, t) !in db
  {
    var ref := RefOf(self, subj, t);
    RefInSpace(self, subj, t);
    if ref in db {
      assert ref in db[self].children && IsRefOf(db, subj, ref) && RefOk(db, self, subj, ref);
      var x := db[ref].target.value;
      assert x in Targets(db, self, subj);
      RefUriInjective(self, subj, NameIn(x), NameIn(t));
    }
  }

  // ----- setContracts, for any order in which its two loops meet the map entries -----

  datatype Outcome = Done | Failed | Panicked

  datatype Result = Result(db: DB, out: Outcome)

  ghost function DropAll(db: DB, self: string, subj: string, order: seq<string>, desired: set<string>): Result
    requires self in db && AllContracts(order)
    ensures self in DropAll(db, self, subj, order, desired).db
  {
    if order == [] then Result(db, Done)
    else
      var r, t := DropAll(db, self, subj, order[..|order| - 1], desired), order[|order| - 1];
      var ref := RefOf(self, subj, t);
      if r.out.Panicked? || t in desired then r
      else if Crashes(r.db[self].children, ref) then Result(r.db, Panicked)
      else RefInSpace(self, subj, t); Result(DropRef(r.db, self, ref), Done)
  }

  ghost function AddAll(db: DB, self: string, subj: string, order: seq<string>, current: set<string>): Result
    requires self in db
    ensures self in AddAll(db, self, subj, order, current).db
  {
    if order == [] then Result(db, Done)
    else
      var r, t := AddAll(db, self, subj, order[..|order| - 1], current), order[|order| - 1];
      if r.out.Failed? || t in current then r
      else if t !in r.db then Result(r.db, Failed)
      else Result(AddRef(r.db, self, subj, t), Done)
  }

  /** GetRefURIs succeeds. */
  predicate Readable(db: DB, self: string, subj: string)
    requires self in db
  {
    forall c :: c in db[self].children ==> c in db && (IsRefOf(db, subj, c) ==> db[c].target.Some?)
  }

  ghost predicate Enumerates(order: seq<string>, s: set<string>) {
    NoDuplicates(order) && forall x :: x in order <==> x in s
  }

  ghost function ToSet(xs: seq<string>): set<string> {
    set x | x in xs
  }

  ghost function Reconciled(db: DB, self: string, subj: string, drops: seq<string>, adds: seq<string>): Result
    requires self in db && AllContracts(drops)
  {
    if !Readable(db, self, subj) then Result(db, Failed)
    else
      var r := DropAll(db, self, subj, drops, ToSet(adds));
      if r.out.Panicked? then r
      else AddAll(r.db, self, subj, adds, Targets(db, self, subj) * ToSet(adds))
  }

  lemma {:induction false} DropAllKeeps(db: DB, self: string, subj: string, order: seq<string>, desired: set<string>)
    requires Named(db, self, subj) && NoDuplicates(order) && AllContracts(order)
    requires forall t :: t in order ==> t in Targets(db, self, subj)
    ensures var r := DropAll(db, self, subj, order, desired);
      && Named(r.db, self, subj) && Untouched(db, r.db, self, subj) && !r.out.Failed?
      && (r.out.Done? ==> Targets(r.db, self, subj) == Targets(db, self, subj) - (ToSet(order) - desired))
      && (Clean(db, self) ==> r.out.Done? && Clean(r.db, self))
  {
    if order == [] {
      UntouchedIs(db, self, subj);
      assert ToSet(order) - desired == {};
    } else {
      var n := |order| - 1;
      var t := order[n];
      assert t !in order[..n] && t in order && AllContracts(order[..n]) && NoDuplicates(order[..n]);
      hide *;
      DropAllKeeps(db, self, subj, order[..n], desired);
      DropStep(db, self, subj, order, desired);
      ToSetSnoc(order);
      InToSet(order[..n], t);
      var r := DropAll(db, self, subj, order[..n], desired);
      SetsMinus(Targets(db, self, subj), ToSet(order[..n]), desired, t);
      if r.out.Done? && t !in desired {
        DropKeeps(r.db, self, subj, t);
        UntouchedTransitive(db, r.db, DropRef(r.db, self, RefOf(self, subj, t)), self, subj);
      }
    }
  }

  lemma ToSetSnoc(xs: seq<string>)
    requires xs != []
    ensures ToSet(xs) == ToSet(xs[..|xs| - 1]) + {xs[|xs| - 1]}
  {
    assert xs == xs[..|xs| - 1] + [xs[|xs| - 1]];
  }

  lemma InToSet(xs: seq<string>, x: string)
    ensures x in ToSet(xs) <==> x in xs
  {
  }

  lemma SetsMinus(all: set<string>, gone: set<string>, kept: set<string>, t: string)
    ensures t !in kept ==> all - (gone - kept) - {t} == all - (gone + {t} - kept)
    ensures t in kept ==> gone + {t} - kept == gone - kept
    ensures t in all && t !in gone ==> t in all - (gone - kept)
  {
  }

  lemma DropStep(db: DB, self: string, subj: string, order: seq<string>, desired: set<string>)
    requires self in db && AllContracts(order) && order != []
    ensures var r, t := DropAll(db, self, subj, order[..|order| - 1], desired), order[|order| - 1];
      DropAll(db, self, subj, order, desired) ==
        if r.out.Panicked? || t in desired then r
        else if Crashes(r.db[self].children, RefOf(self, subj, t)) then Result(r.db, Panicked)
        else Result(DropRef(r.db, self, RefOf(self, subj, t)), Done)
  {
  }

  /** Every wanted contract that is not referenced yet exists. */
  ghost predicate AllFound(db: DB, order: seq<string>, current: set<string>) {
    forall t :: t in order ==> t in current || t in db
  }

  /** What holds after some of the wanted contracts `ts` have been added to `db`. */
  ghost predicate Added(db: DB, r: Result, self: string, subj: string, order: seq<string>, ts: seq<string>,
                        current: set<string>)
    requires self in db && AllContracts(ts)
  {
    && Named(r.db, self, subj) && Untouched(db, r.db, self, subj) && !r.out.Panicked?
    && (r.out.Done? <==> AllFound(db, order, current))
    && Targets(r.db, self, subj) <= current + ToSet(order)
    && (Present(db, self) ==> Present(r.db, self))
    && (r.out.Done? && (Distinct(ts) || NoDuplicates(r.db[self].children)) ==>
          Targets(r.db, self, subj) == current + ToSet(order))
    && (Clean(db, self) && Distinct(ts) ==> Clean(r.db, self))
  }

  lemma {:induction false} AddAllKeeps(db: DB, self: string, subj: string, order: seq<string>, ts: seq<string>,
                                       current: set<string>)
    requires IsGroup(self) && Named(db, self, subj) && Titled(db) && NoDuplicates(order)
    requires AllContracts(ts) && (forall t :: t in order ==> t in ts) && forall t :: t in current ==> t in ts
    requires Targets(db, self, subj) == current
    ensures Added(db, AddAll(db, self, subj, order, current), self, subj, order, ts, current)
  {
    if order == [] {
      AddedNone(db, self, subj, ts, current);
    } else {
      var n := |order| - 1;
      var t := order[n];
      assert t in ts && IsContract(t);
      assert t !in order[..n] && t in order && NoDuplicates(order[..n]);
      var r := AddAll(db, self, subj, order[..n], current);
      hide *;
      AddAllKeeps(db, self, subj, order[..n], ts, current);
      AddAllStep(db, self, subj, order, current);
      AddedUntouched(db, r, self, subj, order[..n], ts, current);
      ContractsKept(db, r.db, self, subj, t);
      if r.out.Failed? || t in current || t !in r.db {
        AddedSkips(db, r, self, subj, order, ts, current);
      } else {
        TitledKept(db, r.db, self, subj);
        AddedMore(db, r, self, subj, order, ts, current);
      }
    }
  }

  lemma AddedNone(db: DB, self: string, subj: string, ts: seq<string>, current: set<string>)
    requires Named(db, self, subj) && AllContracts(ts) && Targets(db, self, subj) == current
    ensures Added(db, AddAll(db, self, subj, [], current), self, subj, [], ts, current)
  {
    UntouchedIs(db, self, subj);
    hide Named, Untouched, Targets, Distinct, NoDuplicates;
    assert current + ToSet([]) == current;
  }

  lemma AddAllStep(db: DB, self: string, subj: string, order: seq<string>, current: set<string>)
    requires self in db && order != []
    ensures var r, t := AddAll(db, self, subj, order[..|order| - 1], current), order[|order| - 1];
      AddAll(db, self, subj, order, current) ==
        if r.out.Failed? || t in current then r
        else if t !in r.db then Result(r.db, Failed)
        else Result(AddRef(r.db, self, subj, t), Done)
  {
  }

  lemma AddedUntouched(db: DB, r: Result, self: string, subj: string, order: seq<string>, ts: seq<string>,
                       current: set<string>)
    requires self in db && AllContracts(ts) && Added(db, r, self, subj, order, ts, current)
    ensures self in r.db && Named(r.db, self, subj) && Untouched(db, r.db, self, subj) && !r.out.Panicked?
  {
  }

  lemma AllFoundStep(db: DB, order: seq<string>, current: set<string>)
    requires order != []
    ensures var n := |order| - 1;
      AllFound(db, order, current) <==> AllFound(db, order[..n], current) && (order[n] in current || order[n] in db)
  {
    var n := |order| - 1;
    assert order == order[..n] + [order[n]];
  }

  lemma AddedSkips(db: DB, r: Result, self: string, subj: string, order: seq<string>, ts: seq<string>,
                   current: set<string>)
    requires order != [] && self in db && AllContracts(ts)
    requires var n := |order| - 1;
      && Added(db, r, self, subj, order[..n], ts, current) && (order[n] in db <==> order[n] in r.db)
      && (r.out.Failed? || order[n] in current || order[n] !in r.db)
    ensures var n := |order| - 1;
      Added(db, if r.out.Failed? || order[n] in current then r else Result(r.db, Failed), self, subj, order, ts,
        current)
  {
    AllFoundStep(db, order, current);
    ToSetSnoc(order);
    hide Named, Untouched, AllFound, Targets, Present, Distinct, NoDuplicates, Clean, ToSet;
  }

  lemma AddedMore(db: DB, r: Result, self: string, subj: string, order: seq<string>, ts: seq<string>,
                  current: set<string>)
    requires order != [] && IsGroup(self) && self in db && AllContracts(ts) && Titled(r.db)
    requires (forall t :: t in order ==> t in ts) && (forall t :: t in current ==> t in ts)
    requires var n := |order| - 1;
      && Added(db, r, self, subj, order[..n], ts, current) && (order[n] in db <==> order[n] in r.db)
      && r.out.Done? && order[n] !in current && order[n] in r.db && order[n] !in order[..n]
    ensures Added(db, Result(AddRef(r.db, self, subj, order[|order| - 1]), Done), self, subj, order, ts, current)
  {
    var n := |order| - 1;
    var t := order[n];
    var db' := AddRef(r.db, self, subj, t);
    assert IsContract(t);
    AllFoundStep(db, order, current);
    ToSetSnoc(order);
    InToSet(order[..n], t);
    AddNamed(r.db, self, subj, t);
    AddTargets(r.db, self, subj, t);
    AddKeeps(r.db, self, subj, t);
    if Distinct(ts) {
      forall x | x in Targets(r.db, self, subj) ensures x in ts { InToSet(order[..n], x); }
      assert t !in Targets(r.db, self, subj);
      FreeUri(r.db, self, subj, ts, t);
    }
    UntouchedTransitive(db, r.db, db', self, subj);
    hide Named, Untouched, AllFound, Targets, Distinct, NoDuplicates, ToSet, AddRef, RefOf, IsGroup, Titled,
      AllContracts;
    assert current + ToSet(order[..n]) + {t} == current + ToSet(order);
  }

  lemma ReadableIff(db: DB, self: string, subj: string)
    requires Named(db, self, subj)
    ensures Readable(db, self, subj) <==> Present(db, self)
  {
    forall c | c in db[self].children && IsRefOf(db, subj, c) ensures db[c].target.Some? {
      assert RefOk(db, self, subj, c);
    }
  }

  /** What one reconciliation does, in whatever order it meets the map entries. */
  lemma SetKeeps(db: DB, self: string, subj: string, drops: seq<string>, adds: seq<string>)
    requires IsGroup(self) && Named(db, self, subj) && Titled(db) && AllContracts(drops) && AllContracts(adds)
    requires Enumerates(drops, Targets(db, self, subj)) && NoDuplicates(adds)
    ensures var r := Reconciled(db, self, subj, drops, adds);
      && Named(r.db, self, subj) && Titled(r.db) && Untouched(db, r.db, self, subj)
      && (!Present(db, self) ==> r == Result(db, Failed))
      && (Clean(db, self) ==> !r.out.Panicked?)
      && (Present(db, self) && !r.out.Panicked? ==>
            && (r.out.Done? <==> AllFound(db, adds, Targets(db, self, subj)))
            && Targets(r.db, self, subj) <= ToSet(adds))
      && (r.out.Done? ==> (Targets(r.db, self, subj) == ToSet(adds) <==> Distinct(adds)))
      && (Clean(db, self) && Distinct(adds) ==> Clean(r.db, self))
      && (Clean(db, self) && r.out.Done? ==> (Clean(r.db, self) <==> Distinct(adds)))
  {
    var was, want := Targets(db, self, subj), ToSet(adds);
    ReadableIff(db, self, subj);
    assert NoDuplicates(drops) && forall t :: t in drops ==> t in was;
    assert ToSet(drops) == was;
    if !Present(db, self) {
      UntouchedIs(db, self, subj);
    } else {
      var r := DropAll(db, self, subj, drops, ToSet(adds));
      var e := AddAll(r.db, self, subj, adds, was * want);
      assert Reconciled(db, self, subj, drops, adds) == if r.out.Panicked? then r else e;
      DropAllKeeps(db, self, subj, drops, ToSet(adds));
      TitledKept(db, r.db, self, subj);
      if r.out.Done? {
        assert was - (was - want) == was * want;
        assert forall t :: t in was * want ==> t in adds;
        AddAllKeeps(r.db, self, subj, adds, adds, was * want);
        hide *;
        AfterDrops(db, r.db, e, self, subj, adds, was);
      }
    }
  }

  lemma AfterDrops(db: DB, mid: DB, e: Result, self: string, subj: string, adds: seq<string>, was: set<string>)
    requires IsGroup(self) && self in db && self in mid && AllContracts(adds)
    requires Titled(mid) && Untouched(db, mid, self, subj)
    requires Clean(db, self) ==> Clean(mid, self)
    requires Added(mid, e, self, subj, adds, adds, was * ToSet(adds))
    ensures Named(e.db, self, subj) && Titled(e.db) && Untouched(db, e.db, self, subj) && !e.out.Panicked?
    ensures e.out.Done? <==> AllFound(db, adds, was)
    ensures Targets(e.db, self, subj) <= ToSet(adds)
    ensures e.out.Done? ==> (Targets(e.db, self, subj) == ToSet(adds) <==> Distinct(adds))
    ensures Clean(db, self) && Distinct(adds) ==> Clean(e.db, self)
    ensures Clean(db, self) && e.out.Done? ==> (Clean(e.db, self) <==> Distinct(adds))
  {
    var kept := was * ToSet(adds);
    AddedUntouched(mid, e, self, subj, adds, adds, kept);
    TitledKept(mid, e.db, self, subj);
    UntouchedTransitive(db, mid, e.db, self, subj);
    assert AllFound(mid, adds, kept) <==> AllFound(db, adds, was) by {
      forall t | t in adds ensures (t in kept || t in mid <==> t in was || t in db) {
        ContractsKept(db, mid, self, subj, t);
      }
    }
    assert kept + ToSet(adds) == ToSet(adds);
    if Targets(e.db, self, subj) == ToSet(adds) {
      forall t | t in adds ensures t in Targets(e.db, self, subj) { InToSet(adds, t); }
      ReferencedAreDistinct(e.db, self, subj, adds);
    }
    hide Named, Untouched, AllFound, Targets, Distinct, NoDuplicates, ToSet, IsGroup, Titled, AllContracts;
  }

  // ----- The methods -----

  /** getContractURIs: a name without a slash belongs to the group's own tenant; a third part is ignored. */
  function ContractUri(tenant: string, contract: string): string {
    var parts := Split(contract, '/');
    if |parts| == 1 then ContractAt(tenant, contract) else ContractAt(parts[0], parts[1])
  }

  /**
   A plain name is a contract of the group's own tenant, a name with a slash one of the tenant before it; what
   follows a second slash is ignored.
   */
  lemma ContractUriIs(tenant: string, a: string, b: string, rest: string)
    requires '/' !in a && '/' !in b
    ensures ContractUri(tenant, a) == "/PolicyUniverse/PolicySpace/" + tenant + "/GbpContract/" + a + "/"
    ensures ContractUri(tenant, a + "/" + b) == "/PolicyUniverse/PolicySpace/" + a + "/GbpContract/" + b + "/"
    ensures ContractUri(tenant, a + "/" + b + "/" + rest) == ContractUri(tenant, a + "/" + b)
  {
    SplitWithout(a, '/');
    SplitWithout(b, '/');
    SplitAt(a, b, '/');
    SplitAt(b, rest, '/');
    SplitAt(a, b + "/" + rest, '/');
    assert a + "/" + b + "/" + rest == a + ['/'] + (b + ['/'] + rest);
    hide Split;
  }

  /** How a group and its reference to a contract are named. */
  lemma GroupUrisAre(tenant: string, name: string)
    ensures var group := GroupAt(tenant, name);
      && group == "/PolicyUniverse/PolicySpace/" + tenant + "/GbpEpGroup/" + EscapeName.Escaped(name) + "/"
      && RefUri(group, PROVIDED, "web") == group + "GbpEpGroupToProvContractRSrc/288/web/"
      && RefUri(group, CONSUMED, "web") == group + "GbpEpGroupToConsContractRSrc/288/web/"
  {
    EscapeName.EscapedPlain("web");
    hide EscapeName.Escaped;
    var group := GroupAt(tenant, name);
    assert RefUri(group, PROVIDED, "web") == group + "GbpEpGroupToProvContractRSrc" + "/288/" + "web" + "/";
    assert RefUri(group, CONSUMED, "web") == group + "GbpEpGroupToConsContractRSrc" + "/288/" + "web" + "/";
  }

  method GetContractUris(tenant: string, contracts: seq<string>) returns (uris: set<string>)
    ensures uris == set i | 0 <= i < |contracts| :: ContractUri(tenant, contracts[i])
    ensures '/' !in tenant ==> forall u :: u in uris ==> IsContract(u)
  {
    uris := {};
    for i := 0 to |contracts|
      invariant uris == set j | 0 <= j < i :: ContractUri(tenant, contracts[j])
    {
      hide ContractUri;
      uris := uris + {ContractUri(tenant, contracts[i])};
    }
    if '/' !in tenant {
      forall u | u in uris ensures IsContract(u) {
        var i :| 0 <= i < |contracts| && u == ContractUri(tenant, contracts[i]);
        UriIsContract(tenant, contracts[i]);
      }
    }
  }

  lemma UriIsContract(tenant: string, contract: string)
    requires '/' !in tenant
    ensures IsContract(ContractUri(tenant, contract))
  {
    var parts := Split(contract, '/');
    if |parts| == 1 {
      SplitOnce(contract, '/');
    } else {
      SplitPieces(contract, '/', 0);
      SplitPieces(contract, '/', 1);
    }
  }

  predicate RefersTo(db: DB, self: string, subj: string, c: string, t: string) {
    self in db && c in db[self].children && IsRefOf(db, subj, c) && db[c].target == Some(t)
  }

  lemma Enumeration(s: set<string>) returns (order: seq<string>)
    ensures Enumerates(order, s)
  {
    order := [];
    var todo := s;
    while todo != {}
      invariant todo <= s && Enumerates(order, s - todo)
      decreases todo
    {
      var x :| x in todo;
      order, todo := order + [x], todo - {x};
    }
    assert s - todo == s;
  }

  lemma EnumerateOne(order: seq<string>, all: set<string>, todo: set<string>, x: string)
    requires Enumerates(order, all - todo) && x in todo && todo <= all
    ensures Enumerates(order + [x], all - (todo - {x}))
  {
  }

  lemma EnumerateRest(order: seq<string>, all: set<string>, todo: set<string>, rest: seq<string>)
    requires Enumerates(order, all - todo) && Enumerates(rest, todo) && todo <= all
    ensures Enumerates(order + rest, all)
  {
    var o := order + rest;
    forall i, j | 0 <= i < j < |o| ensures o[i] != o[j] {
      if i < |order| <= j {
        assert o[i] in order && o[j] == rest[j - |order|] && o[j] in rest;
      } else if i >= |order| {
        assert o[i] == rest[i - |order|] && o[j] == rest[j - |order|];
      }
    }
  }

  lemma {:induction false} PanicStays(db: DB, self: string, subj: string, order: seq<string>, rest: seq<string>,
                                      desired: set<string>)
    requires self in db && AllContracts(order) && AllContracts(rest) && AllContracts(order + rest)
    requires DropAll(db, self, subj, order, desired).out.Panicked?
    ensures DropAll(db, self, subj, order + rest, desired) == DropAll(db, self, subj, order, desired)
    decreases |rest|
  {
    if rest == [] {
      assert order + rest == order;
    } else {
      var n := |rest| - 1;
      assert (order + rest)[..|order + rest| - 1] == order + rest[..n];
      assert AllContracts(rest[..n]) && AllContracts(order + rest[..n]);
      PanicStays(db, self, subj, order, rest[..n], desired);
      DropStep(db, self, subj, order + rest, desired);
    }
  }

  lemma {:induction false} FailureStays(db: DB, self: string, subj: string, order: seq<string>, rest: seq<string>,
                                        current: set<string>)
    requires self in db && AddAll(db, self, subj, order, current).out.Failed?
    ensures AddAll(db, self, subj, order + rest, current) == AddAll(db, self, subj, order, current)
    decreases |rest|
  {
    if rest == [] {
      assert order + rest == order;
    } else {
      var n := |rest| - 1;
      assert (order + rest)[..|order + rest| - 1] == order + rest[..n];
      FailureStays(db, self, subj, order, rest[..n], current);
    }
  }

  class MoDb {
    var db: DB

    /** GetRefURIs: the reference URI of each target; fails on a missing child or a reference without target. */
    method GetRefUris(self: string, subj: string) returns (refs: map<string, string>, ok: bool)
      requires self in db
      ensures ok <==> Readable(db, self, subj)
      ensures ok ==> refs.Keys == Targets(db, self, subj)
      ensures ok ==> forall t :: t in refs ==> RefersTo(db, self, subj, refs[t], t)
    {
      refs, ok := map[], false;
      var cs := db[self].children;
      for i := 0 to |cs|
        invariant forall j :: 0 <= j < i ==>
          cs[j] in db && (IsRefOf(db, subj, cs[j]) ==> db[cs[j]].target.Some? && db[cs[j]].target.value in refs)
        invariant forall t :: t in refs ==> RefersTo(db, self, subj, refs[t], t)
      {
        var c := cs[i];
        if c !in db { return; }
        if IsRefOf(db, subj, c) {
          if db[c].target.None? { return; }
          refs := refs[db[c].target.value := c];
        }
      }
      ok := true;
      forall t ensures t in refs <==> t in Targets(db, self, subj) {
        if t in Targets(db, self, subj) {
          var c :| c in cs && IsRefOf(db, subj, c) && db[c].target.Some? && db[c].target.value == t;
          var j :| 0 <= j < |cs| && cs[j] == c;
        }
      }
    }

    /** DelChild on the group, then the reference leaves the database. */
    method DelRef(self: string, ref: string) returns (panicked: bool)
      requires self in db && ref != self
      modifies this
      ensures panicked <==> Crashes(old(db)[self].children, ref)
      ensures db == if panicked then old(db) else DropRef(old(db), self, ref)
    {
      var cs := db[self].children;
      var back := new string[|cs|](i requires 0 <= i < |cs| => cs[i]);
      assert back[..] == cs;
      var len;
      len, panicked := DelChild(back, ref);
      if !panicked {
        db := db[self := db[self].(children := back[..len])] - {ref};
      }
    }

    /** The first loop of setContracts. */
    method DropRefs(self: string, subj: string, current: map<string, string>, desired: set<string>)
      returns (panicked: bool, ghost drops: seq<string>)
      requires Named(db, self, subj) && current.Keys == Targets(db, self, subj)
      requires forall t :: t in current ==> RefersTo(db, self, subj, current[t], t)
      modifies this
      ensures Enumerates(drops, current.Keys) && AllContracts(drops) && self in old(db)
      ensures Result(db, if panicked then Panicked else Done) == DropAll(old(db), self, subj, drops, desired)
    {
      assert forall t :: t in current ==> IsContract(t) && current[t] == RefOf(self, subj, t) && current[t] != self by {
        forall t | t in current ensures IsContract(t) && current[t] == RefOf(self, subj, t) && current[t] != self {
          assert RefOk(db, self, subj, current[t]);
          RefInSpace(self, subj, t);
        }
      }
      drops := [];
      var todo := current.Keys;
      while todo != {}
        invariant todo <= current.Keys && Enumerates(drops, current.Keys - todo) && AllContracts(drops)
        invariant self in db && Result(db, Done) == DropAll(old(db), self, subj, drops, desired)
        decreases todo
      {
        hide *;
        var t :| t in todo;
        ghost var start := db;
        EnumerateOne(drops, current.Keys, todo, t);
        MoreContracts(drops, t);
        DropStep(old(db), self, subj, drops + [t], desired);
        assert (drops + [t])[..|drops + [t]| - 1] == drops;
        if t !in desired {
          panicked := DelRef(self, current[t]);
          if panicked {
            ghost var rest := Enumeration(todo - {t});
            EnumerateRest(drops + [t], current.Keys, todo - {t}, rest);
            AllAreContracts(rest, current.Keys, todo - {t});
            AllAreContracts(drops + [t] + rest, current.Keys, current.Keys);
            PanicStays(old(db), self, subj, drops + [t], rest, desired);
            drops := drops + [t] + rest;
            return;
          }
        }
        drops, todo := drops + [t], todo - {t};
      }
      panicked := false;
      assert current.Keys - todo == current.Keys;
    }

    /** The second loop of setContracts. */
    method AddRefs(self: string, subj: string, current: set<string>, desired: set<string>)
      returns (ok: bool, ghost adds: seq<string>)
      requires self in db
      modifies this
      ensures Enumerates(adds, desired) && self in old(db)
      ensures Result(db, if ok then Done else Failed) == AddAll(old(db), self, subj, adds, current)
    {
      adds := [];
      var todo := desired;
      assert desired - todo == {};
      while todo != {}
        invariant todo <= desired && Enumerates(adds, desired - todo)
        invariant self in db && Result(db, Done) == AddAll(old(db), self, subj, adds, current)
        decreases todo
      {
        hide *;
        var t :| t in todo;
        EnumerateOne(adds, desired, todo, t);
        AddAllStep(old(db), self, subj, adds + [t], current);
        assert (adds + [t])[..|adds + [t]| - 1] == adds;
        if t !in current {
          if t !in db {
            ghost var rest := Enumeration(todo - {t});
            EnumerateRest(adds + [t], desired, todo - {t}, rest);
            FailureStays(old(db), self, subj, adds + [t], rest, current);
            adds := adds + [t] + rest;
            return false, adds;
          }
          db := AddRef(db, self, subj, t);
        }
        adds, todo := adds + [t], todo - {t};
      }
      ok := true;
      assert desired - todo == desired;
    }

    /** setContracts; what it achieves is `SetKeeps`. */
    method SetContracts(self: string, subj: string, desired: set<string>)
      returns (out: Outcome, ghost drops: seq<string>, ghost adds: seq<string>)
      requires Named(db, self, subj)
      modifies this
      ensures self in old(db) && AllContracts(drops)
      ensures Enumerates(drops, Targets(old(db), self, subj)) && Enumerates(adds, desired)
      ensures Result(db, out) == Reconciled(old(db), self, subj, drops, adds)
    {
      ghost var was := Targets(db, self, subj);
      drops := Enumeration(was);
      adds := Enumeration(desired);
      forall t | t in drops ensures IsContract(t) { TargetRef(db, self, subj, t); }
      var current, found := GetRefUris(self, subj);
      if !found { return Failed, drops, adds; }
      var panicked;
      panicked, drops := DropRefs(self, subj, current, desired);
      if panicked {
        assert ToSet(adds) == desired;
        return Panicked, drops, adds;
      }
      var ok;
      ok, adds := AddRefs(self, subj, current.Keys * desired, desired);
      assert ToSet(adds) == desired;
      out := if ok then Done else Failed;
    }
  }

  lemma MoreContracts(ts: seq<string>, t: string)
    requires AllContracts(ts) && IsContract(t)
    ensures AllContracts(ts + [t])
  {
  }

  lemma AllAreContracts(ts: seq<string>, all: set<string>, some: set<string>)
    requires Enumerates(ts, some) && some <= all && forall t :: t in all ==> IsContract(t)
    ensures AllContracts(ts)
  {
  }
}
