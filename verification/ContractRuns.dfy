/**
 Runs of setContracts calls (`Contracts`) between which contracts and other objects come, change
 and go (pkg/gbpserver/server.go:592-609, pkg/gbpserver/policy.go:365-387).

 Main results: references are named after their contracts in every run, deleted contracts included
 (`RunKeeps`). As long as no call wants two contracts with one escaped name nothing panics, and no
 child is ever missing (`RunIsClean`). Equally named contracts of two tenants break this: the
 second call of `TwoCallRun` panics, that of `SecondCallDangles` leaves a child without object,
 and from then on the group can never be reconciled again (`StuckForever`).
 */
module ContractRuns {
  import opened ApicTypes
  import opened ChildList
  import opened Contracts

  // ----- Runs -----

  datatype Server = Up(db: DB) | Down

  datatype Step =
    | Set(subj: string, drops: seq<string>, adds: seq<string>)   // setContracts
    | Elsewhere(after: DB)                                       // contracts and other objects come, change and go

  /** The group, its children and its references' name spaces are as they were. */
  ghost predicate GroupKept(db: DB, after: DB, self: string) {
    && self in db && self in after && after[self] == db[self]
    && (forall u :: u in db[self].children || InSpace(self, CONSUMED, u) || InSpace(self, PROVIDED, u) ==>
          (u in db <==> u in after) && (u in db ==> after[u] == db[u]))
  }

  ghost predicate Enabled(s: Server, self: string, st: Step) {
    s.Up? && self in s.db &&
    match st
    case Set(subj, drops, adds) =>
      && (subj == CONSUMED || subj == PROVIDED) && AllContracts(drops) && AllContracts(adds)
      && Enumerates(drops, Targets(s.db, self, subj)) && NoDuplicates(adds)
    case Elsewhere(after) => GroupKept(s.db, after, self) && Titled(after)
  }

  ghost function Do(s: Server, self: string, st: Step): Server
    requires Enabled(s, self, st)
  {
    match st
    case Set(subj, drops, adds) =>
      var r := Reconciled(s.db, self, subj, drops, adds);
      if r.out.Panicked? then Down else Up(r.db)
    case Elsewhere(after) => Up(after)
  }

  /** What every reachable database keeps. */
  ghost predicate Good(db: DB, self: string) {
    IsGroup(self) && Titled(db) && Named(db, self, CONSUMED) && Named(db, self, PROVIDED)
  }

  ghost predicate IsRun(states: seq<Server>, steps: seq<Step>, self: string) {
    && |states| == |steps| + 1 && states[0].Up? && Good(states[0].db, self) && Clean(states[0].db, self)
    && forall i :: 0 <= i < |steps| ==>
      Enabled(states[i], self, steps[i]) && states[i + 1] == Do(states[i], self, steps[i])
  }

  /** Reconciling one subject leaves the references of the other as they were. */
  lemma OtherSubject(db: DB, db': DB, self: string, subj: string, other: string)
    requires (subj == CONSUMED && other == PROVIDED) || (subj == PROVIDED && other == CONSUMED)
    requires Named(db, self, other) && Named(db', self, subj) && Untouched(db, db', self, subj)
    ensures Named(db', self, other)
  {
    assert subj != other by { assert CONSUMED[12] == 'C' && PROVIDED[12] == 'P'; }
    var cs, cs' := db[self].children, db'[self].children;
    forall x | !InSpace(self, subj, x) ensures x in cs <==> x in cs' {
      OthersIs(self, subj, cs, x);
      OthersIs(self, subj, cs', x);
    }
    hide Others, RefOf;
    forall c | c in cs' && IsRefOf(db', other, c) ensures RefOk(db', self, other, c) {
      assert InSpace(self, subj, c) ==> IsRefOf(db', subj, c);
      assert !InSpace(self, subj, c);
      assert c in cs && IsRefOf(db, other, c);
      assert RefOk(db, self, other, c);
      RefInSpace(self, other, db[c].target.value);
    }
    forall u | u in db' && InSpace(self, other, u) ensures u in cs' && IsRefOf(db', other, u) {
      SpaceIsBelow(self, other, u);
      if subj == CONSUMED { if InSpace(self, subj, u) { SpacesApart(self, u); } } else { SpacesApart(self, u); }
      assert u in db && u in cs && IsRefOf(db, other, u);
    }
  }

  lemma ElsewhereKeeps(db: DB, after: DB, self: string, subj: string)
    requires subj == CONSUMED || subj == PROVIDED
    requires Named(db, self, subj) && GroupKept(db, after, self)
    ensures Named(after, self, subj) && Targets(after, self, subj) == Targets(db, self, subj)
    ensures Clean(db, self) <==> Clean(after, self)
    ensures Present(db, self) <==> Present(after, self)
  {
    hide InSpace, RefOf;
    forall c | c in db[self].children ensures (c in db <==> c in after) && (c in db ==> after[c] == db[c]) {}
    forall c | c in after[self].children && IsRefOf(after, subj, c) ensures RefOk(after, self, subj, c) {
      assert RefOk(db, self, subj, c);
    }
    forall x ensures x in Targets(after, self, subj) <==> x in Targets(db, self, subj) {
      if x in Targets(db, self, subj) {
        var c :| c in db[self].children && IsRefOf(db, subj, c) && db[c].target.Some? && db[c].target.value == x;
        assert IsRefOf(after, subj, c) && after[c].target == db[c].target;
      }
      if x in Targets(after, self, subj) {
        var c :| && c in after[self].children && IsRefOf(after, subj, c)
                 && after[c].target.Some? && after[c].target.value == x;
        assert IsRefOf(db, subj, c) && after[c].target == db[c].target;
      }
    }
  }

  lemma StepKeeps(s: Server, self: string, st: Step)
    requires s.Up? && Good(s.db, self) && Enabled(s, self, st)
    ensures Do(s, self, st).Up? ==> Good(Do(s, self, st).db, self)
    ensures Clean(s.db, self) && (st.Set? ==> Distinct(st.adds)) ==>
      Do(s, self, st).Up? && Clean(Do(s, self, st).db, self)
    ensures !Present(s.db, self) ==>
      && Do(s, self, st).Up? && Do(s, self, st).db[self] == s.db[self]
      && !Present(Do(s, self, st).db, self)
  {
    match st
    case Set(subj, drops, adds) =>
      var other := if subj == CONSUMED then PROVIDED else CONSUMED;
      var r := Reconciled(s.db, self, subj, drops, adds);
      hide Reconciled, Named, Titled, Untouched, Clean, Present, Targets, Distinct;
      SetKeeps(s.db, self, subj, drops, adds);
      OtherSubject(s.db, r.db, self, subj, other);
    case Elsewhere(after) =>
      hide Named, Titled, Clean, Present, Targets, Distinct;
      ElsewhereKeeps(s.db, after, self, CONSUMED);
      ElsewhereKeeps(s.db, after, self, PROVIDED);
      assert after[self] == s.db[self];
  }

  /** In every state of every run, references are named after their contracts, deleted ones included. */
  lemma {:induction false} RunKeeps(states: seq<Server>, steps: seq<Step>, self: string, i: nat)
    requires IsRun(states, steps, self) && i <= |steps|
    ensures states[i].Up? ==> Good(states[i].db, self)
  {
    if i > 0 {
      RunKeeps(states, steps, self, i - 1);
      assert Enabled(states[i - 1], self, steps[i - 1]);
      hide Good, Enabled, Do;
      StepIs(states, steps, self, i - 1);
      StepKeeps(states[i - 1], self, steps[i - 1]);
    }
  }

  lemma StepIs(states: seq<Server>, steps: seq<Step>, self: string, i: nat)
    requires IsRun(states, steps, self) && i < |steps|
    ensures Enabled(states[i], self, steps[i]) && states[i].Up? && states[i + 1] == Do(states[i], self, steps[i])
  {
  }

  /** When no call wants two contracts with one escaped name, nothing panics and no child is missing or repeated. */
  lemma {:induction false} RunIsClean(states: seq<Server>, steps: seq<Step>, self: string, i: nat)
    requires IsRun(states, steps, self) && i <= |steps|
    requires forall k :: 0 <= k < |steps| && steps[k].Set? ==> AllContracts(steps[k].adds) && Distinct(steps[k].adds)
    ensures states[i].Up? && Good(states[i].db, self) && Clean(states[i].db, self)
  {
    if i > 0 {
      RunIsClean(states, steps, self, i - 1);
      assert steps[i - 1].Set? ==> AllContracts(steps[i - 1].adds) && Distinct(steps[i - 1].adds);
      hide *;
      StepIs(states, steps, self, i - 1);
      StepKeeps(states[i - 1], self, steps[i - 1]);
    }
  }

  /** Once a child is missing, the group stays as it is for ever: every reconciliation fails (`StuckFails`). */
  lemma {:induction false} StuckForever(states: seq<Server>, steps: seq<Step>, self: string, i: nat, j: nat)
    requires IsRun(states, steps, self) && i <= j <= |steps| && |states| == |steps| + 1
    requires states[i].Up? && self in states[i].db && !Present(states[i].db, self)
    ensures states[j].Up? && self in states[j].db && !Present(states[j].db, self)
    ensures states[j].db[self] == states[i].db[self]
    decreases j
  {
    hide *;
    if i < j {
      RunKeeps(states, steps, self, j - 1);
      StuckForever(states, steps, self, i, j - 1);
      StepIs(states, steps, self, j - 1);
      StuckStep(states[j - 1], self, steps[j - 1]);
    }
  }

  lemma StuckStep(s: Server, self: string, st: Step)
    requires s.Up? && Good(s.db, self) && Enabled(s, self, st) && self in s.db && !Present(s.db, self)
    ensures var t := Do(s, self, st); t.Up? && self in t.db && !Present(t.db, self) && t.db[self] == s.db[self]
  {
    StepKeeps(s, self, st);
    hide Do, Present, Enabled;
  }

  /** A call fails and changes nothing while a child is missing. */
  lemma StuckFails(db: DB, self: string, subj: string, drops: seq<string>, adds: seq<string>)
    requires Named(db, self, subj) && !Present(db, self) && AllContracts(drops)
    ensures Reconciled(db, self, subj, drops, adds) == Result(db, Failed)
  {
    ReadableIff(db, self, subj);
  }

  // ----- Two tenants with a contract of the same name -----

  const WEB := Mo("GbpContract", false, "web", None, [])

  function Pods(): string { GroupAt("k8s", "pods") }

  function WebOf(tenant: string): string { ContractAt(tenant, "web") }

  /** A group without references, and the contracts "web" of tenants "a" and "b". */
  function Start(): DB {
    map[Pods() := Mo("GbpEpGroup", false, "pods", None, []), WebOf("a") := WEB, WebOf("b") := WEB]
  }

  lemma WebIs(tenant: string)
    requires '/' !in tenant
    ensures IsContract(WebOf(tenant)) && NameIn(WebOf(tenant)) == "web" && IsGroup(Pods()) && !(Pods() <= WebOf(tenant))
  {
    assert '/' !in "web" && '/' !in "k8s";
    assert IsContract(ContractAt(tenant, "web"));
    assert IsGroup(GroupAt("k8s", "pods"));
    NameInIs(tenant, "web");
    ContractsLieOutside(Pods(), WebOf(tenant));
  }

  lemma StartIs()
    ensures Good(Start(), Pods()) && Clean(Start(), Pods())
    ensures WebOf("a") != WebOf("b") && IsContract(WebOf("a"))
    ensures IsContract(WebOf("b")) && Start()[Pods()].children == []
  {
    var g, a, b, db := Pods(), WebOf("a"), WebOf("b"), Start();
    WebIs("a");
    WebIs("b");
    assert a[|SPACE|] == 'a' && b[|SPACE|] == 'b';
    assert g <= g;
    if IsContract(g) { ContractsLieOutside(g, g); }
    hide ContractAt, GroupAt, IsContract, IsGroup, NameIn;
    forall subj, u | u in db && InSpace(g, subj, u) ensures false {
      SpaceIsBelow(g, subj, u);
    }
  }

  /** The reference of both contracts. */
  function WebRef(subj: string): string { RefUri(Pods(), subj, "web") }

  function Refer(db: DB, subj: string, tenant: string): DB
    requires Pods() in db
  {
    var db1 := db[WebRef(subj) := Mo(subj, true, "", Some(WebOf(tenant)), [])];
    db1[Pods() := db1[Pods()].(children := db1[Pods()].children + [WebRef(subj)])]
  }

  lemma ReferIs(db: DB, subj: string, tenant: string)
    requires '/' !in tenant && Pods() in db && WebOf(tenant) in db && db[WebOf(tenant)] == WEB
    ensures AddRef(db, Pods(), subj, WebOf(tenant)) == Refer(db, subj, tenant)
    ensures RefOf(Pods(), subj, WebOf(tenant)) == WebRef(subj)
    ensures var db' := Refer(db, subj, tenant);
      && WebRef(subj) != Pods() && Pods() in db'
      && db'[Pods()] == db[Pods()].(children := db[Pods()].children + [WebRef(subj)])
      && WebRef(subj) in db' && db'[WebRef(subj)] == Mo(subj, true, "", Some(WebOf(tenant)), [])
      && (forall u :: u != Pods() && u != WebRef(subj) ==> (u in db' <==> u in db) && (u in db ==> db'[u] == db[u]))
      && WebRef(subj) != WebOf("a") && WebRef(subj) != WebOf("b")
  {
    WebIs(tenant);
    WebIs("a");
    WebIs("b");
    assert InSpace(Pods(), subj, RefUri(Pods(), subj, "web"));
    SpaceIsBelow(Pods(), subj, WebRef(subj));
  }

  /** The group lists its reference to one of the two contracts twice. */
  ghost predicate Doubled(db: DB) {
    var g, ref := Pods(), WebRef(CONSUMED);
    && g in db && ref in db && ref != g && db[g].children == [ref, ref]
    && db[ref] == Mo(CONSUMED, true, "", Some(WebOf("b")), [])
    && WebOf("a") in db && db[WebOf("a")] == WEB
  }

  /** Wanting both contracts succeeds, references only one of them, and lists its reference twice. */
  lemma SameNameInTwoTenants()
    ensures var r := Reconciled(Start(), Pods(), CONSUMED, [], [WebOf("a"), WebOf("b")]);
      r.out.Done? && Doubled(r.db) && Targets(r.db, Pods(), CONSUMED) == {WebOf("b")}
  {
    var g, a, b, db := Pods(), WebOf("a"), WebOf("b"), Start();
    var ref := WebRef(CONSUMED);
    StartIs();
    ReferIs(db, CONSUMED, "a");
    var db1 := Refer(db, CONSUMED, "a");
    ReferIs(db1, CONSUMED, "b");
    var db2 := Refer(db1, CONSUMED, "b");
    AddTwo(db, g, CONSUMED, a, b);
    assert Targets(db, g, CONSUMED) == {} && Readable(db, g, CONSUMED);
    NoDrops(db, g, CONSUMED, [a, b]);
    hide *;
    assert db2[g].children == [ref, ref];
    DoubledTargets(db2);
  }

  lemma DoubledTargets(db: DB)
    requires var g, ref := Pods(), WebRef(CONSUMED);
      && g in db && ref in db && ref != g && db[g].children == [ref, ref]
      && db[ref] == Mo(CONSUMED, true, "", Some(WebOf("b")), []) && WebOf("a") in db && db[WebOf("a")] == WEB
    ensures Doubled(db) && Targets(db, Pods(), CONSUMED) == {WebOf("b")} && Targets(db, Pods(), PROVIDED) == {}
    ensures Readable(db, Pods(), CONSUMED) && Readable(db, Pods(), PROVIDED)
  {
    hide Pods, WebOf, WebRef;
    assert CONSUMED != PROVIDED by { assert CONSUMED[12] == 'C' && PROVIDED[12] == 'P'; }
  }

  lemma AddTwo(db: DB, self: string, subj: string, a: string, b: string)
    requires self in db && a in db && b in AddRef(db, self, subj, a)
    ensures AddAll(db, self, subj, [a, b], {}) == Result(AddRef(AddRef(db, self, subj, a), self, subj, b), Done)
  {
    assert [a, b][..1] == [a] && [a][..0] == [];
    assert AddAll(db, self, subj, [], {}) == Result(db, Done);
    AddAllStep(db, self, subj, [a], {});
    AddAllStep(db, self, subj, [a, b], {});
  }

  /** With nothing referenced, a reconciliation is its second loop. */
  lemma NoDrops(db: DB, self: string, subj: string, adds: seq<string>)
    requires self in db && Readable(db, self, subj) && Targets(db, self, subj) == {}
    ensures Reconciled(db, self, subj, [], adds) == AddAll(db, self, subj, adds, {})
  {
    assert {} * ToSet(adds) == {};
  }

  /** Wanting none of them any more then panics. */
  lemma SecondCallPanics(db: DB)
    requires Doubled(db)
    ensures IsContract(WebOf("b")) && Reconciled(db, Pods(), CONSUMED, [WebOf("b")], []).out.Panicked?
  {
    var g, b, ref := Pods(), WebOf("b"), WebRef(CONSUMED);
    WebIs("b");
    assert RefOf(g, CONSUMED, b) == ref;
    DoubledTargets(db);
    hide RefOf, WebOf, Pods, WebRef, IsContract;
    assert AllContracts([b]);
    DropStep(db, g, CONSUMED, [b], ToSet([]));
    assert [b][..0] == [] && DropAll(db, g, CONSUMED, [], ToSet([])) == Result(db, Done);
    assert [ref, ref][..1] == [ref];
  }

  /** With a reference of the other subject behind them, one entry stays in the list and its object is gone. */
  lemma SecondCallDangles(db: DB)
    requires Doubled(db)
    ensures var p := Reconciled(db, Pods(), PROVIDED, [], [WebOf("a")]);
      && IsContract(WebOf("b")) && p.out.Done? && Pods() in p.db
      && var q := Reconciled(p.db, Pods(), CONSUMED, [WebOf("b")], []);
         q.out.Done? && Pods() in q.db && !Present(q.db, Pods())
  {
    var g, a, b, ref, prov := Pods(), WebOf("a"), WebOf("b"), WebRef(CONSUMED), WebRef(PROVIDED);
    DoubledTargets(db);
    ReferIs(db, PROVIDED, "a");
    var db3 := Refer(db, PROVIDED, "a");
    WebIs("b");
    assert RefOf(g, CONSUMED, b) == ref;
    NoDrops(db, g, PROVIDED, [a]);
    AddOne(db, g, PROVIDED, a);
    assert ref != prov by {
      assert InSpace(g, CONSUMED, RefUri(g, CONSUMED, "web")) && InSpace(g, PROVIDED, RefUri(g, PROVIDED, "web"));
      if ref == prov { SpacesApart(g, ref); }
    }
    hide Refer, RefOf, WebOf, Pods, WebRef, AddRef, IsContract, Reconciled, Targets, AddAll;
    assert db3[g].children == [ref, ref, prov];
    DropOne(db3, g, CONSUMED, b, ref);
  }

  lemma AddOne(db: DB, self: string, subj: string, a: string)
    requires self in db && a in db
    ensures AddAll(db, self, subj, [a], {}) == Result(AddRef(db, self, subj, a), Done)
  {
    assert [a][..0] == [];
    assert AddAll(db, self, subj, [], {}) == Result(db, Done);
    AddAllStep(db, self, subj, [a], {});
  }

  lemma DropOne(db: DB, self: string, subj: string, b: string, ref: string)
    requires self in db && IsContract(b) && ref == RefOf(self, subj, b) && ref != self && Readable(db, self, subj)
    requires |db[self].children| == 3 && db[self].children[0] == ref
    requires db[self].children[1] == ref && db[self].children[2] != ref
    ensures var q := Reconciled(db, self, subj, [b], []);
      q.out.Done? && self in q.db && !Present(q.db, self)
  {
    var cs := db[self].children;
    assert AllContracts([b]) && ToSet([]) == {};
    DropStep(db, self, subj, [b], {});
    assert [b][..0] == [] && DropAll(db, self, subj, [], {}) == Result(db, Done);
    assert cs[2..] == [cs[2]] && [cs[2]][1..] == [];
    assert Kept([cs[2]], ref) == [cs[2]];
    assert Kept(cs, ref) == [cs[1]] + [cs[2]] && Kept(cs, ref)[0] == ref;
    var db' := DropRef(db, self, ref);
    assert ref in db'[self].children && ref !in db';
    assert AddAll(db', self, subj, [], Targets(db, self, subj) * {}) == Result(db', Done);
  }

  /** The run of the two calls takes the server down. */
  lemma TwoCallRun(states: seq<Server>, steps: seq<Step>)
    requires steps == [Set(CONSUMED, [], [WebOf("a"), WebOf("b")]), Set(CONSUMED, [WebOf("b")], [])]
    requires states == [Up(Start()), Up(Reconciled(Start(), Pods(), CONSUMED, [], [WebOf("a"), WebOf("b")]).db), Down]
    ensures IsRun(states, steps, Pods())
  {
    var g, a, b, db := Pods(), WebOf("a"), WebOf("b"), Start();
    var r := Reconciled(db, g, CONSUMED, [], [a, b]);
    StartIs();
    assert g in db && Targets(db, g, CONSUMED) == {} && AllContracts([a, b]) && AllContracts([b]) && AllContracts([]);
    hide *;
    SameNameInTwoTenants();
    DoubledIs(r.db);
    SecondCallPanics(r.db);
    EnumerateNone();
    EnumeratePair(a, b);
    SetIs(db, g, CONSUMED, [], [a, b], r);
    SetIs(r.db, g, CONSUMED, [b], [], Reconciled(r.db, g, CONSUMED, [b], []));
    RunOfTwo(states, steps, g);
  }

  lemma DoubledIs(db: DB)
    requires Doubled(db)
    ensures Pods() in db
  {
  }

  lemma EnumerateNone()
    ensures Enumerates([], {}) && NoDuplicates([])
  {
  }

  lemma EnumeratePair(a: string, b: string)
    ensures Enumerates([b], {b}) && (a != b ==> NoDuplicates([a, b]))
  {
  }

  lemma RunOfTwo(states: seq<Server>, steps: seq<Step>, self: string)
    requires |states| == 3 && |steps| == 2 && states[0].Up? && Good(states[0].db, self) && Clean(states[0].db, self)
    requires Enabled(states[0], self, steps[0]) && states[1] == Do(states[0], self, steps[0])
    requires Enabled(states[1], self, steps[1]) && states[2] == Do(states[1], self, steps[1])
    ensures IsRun(states, steps, self)
  {
    hide Enabled, Do, Good, Clean;
  }

  lemma SetIs(db: DB, self: string, subj: string, drops: seq<string>, adds: seq<string>, r: Result)
    requires self in db && subj == CONSUMED && AllContracts(drops) && AllContracts(adds)
    requires Enumerates(drops, Targets(db, self, subj)) && NoDuplicates(adds)
    requires r == Reconciled(db, self, subj, drops, adds)
    ensures Enabled(Up(db), self, Set(subj, drops, adds))
    ensures Do(Up(db), self, Set(subj, drops, adds)) == if r.out.Panicked? then Down else Up(r.db)
  {
  }
}
