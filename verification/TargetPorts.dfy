/**
 The target-port index that ties services to network policies
 (pkg/controller/network_policy.go:475-518, pkg/controller/services.go:1691-1705, 1784-1851).

 Main results: over every run of service events and arbitrary network-policy updates, the
 services at a port key are exactly the live services with that target port, and an entry
 exists exactly when a service or a policy is registered in it (`RunIsExact`). The policies are
 exact as long as every policy update is told the ports the policy leaves, and only so long
 (`PoliciesAreExactIff`); the controller computes them again from the pods that are left, which
 can leave a deleted policy behind (`DeletedPolicyStays`).
 */
module TargetPorts {
  import opened ApicTypes
  import opened GoStrings

  datatype TargetPort = TargetPort(proto: string, ports: seq<int>)

  datatype Entry = Entry(port: TargetPort, serviceKeys: set<string>, networkPolicyKeys: set<string>)

  type Index = map<string, Entry>
  type Ports = map<string, TargetPort>

  // ----- getServiceTargetPorts -----

  /** A service port; `target` is the integer value of its target port, 0 or less when it has none. */
  datatype ServicePort = ServicePort(proto: string, port: int, target: int)

  function PortProto(proto: string): string {
    if proto == "UDP" then "udp" else if proto == "SCTP" then "sctp" else "tcp"
  }

  function PortNumber(p: ServicePort): int {
    if p.target <= 0 then p.port else p.target
  }

  /** strconv.Itoa. */
  function NumberText(n: int): string {
    if n >= 0 then Itoa(n) else "-" + Itoa(-n)
  }

  function KeyOf(p: ServicePort): string {
    PortProto(p.proto) + "-num-" + NumberText(PortNumber(p))
  }

  /** Two ports have the same key exactly when they agree in protocol and number. */
  lemma SameKeyIff(p: ServicePort, q: ServicePort)
    ensures KeyOf(p) == KeyOf(q) <==> PortProto(p.proto) == PortProto(q.proto) && PortNumber(p) == PortNumber(q)
  {
    var x, y := NumberText(PortNumber(p)), NumberText(PortNumber(q));
    NumbersDiffer(PortNumber(p), PortNumber(q));
    var a, b := PortProto(p.proto) + "-num-", PortProto(q.proto) + "-num-";
    assert KeyOf(p) == a + x && KeyOf(q) == b + y;
    if KeyOf(p) == KeyOf(q) {
      assert (a + x)[0] == a[0] && (b + y)[0] == b[0];
      assert a == b;
      assert (a + x)[|a|..] == x && (b + y)[|b|..] == y;
    }
  }

  lemma NumbersDiffer(n: int, m: int)
    ensures NumberText(n) == NumberText(m) ==> n == m
  {
    var a, b := if n >= 0 then n else 0 - n, if m >= 0 then m else 0 - m;
    DigitsItoa(a);
    DigitsItoa(b);
    ItoaInjective(a, b);
    hide Itoa;
    assert IsDigit(Itoa(a)[0]) && IsDigit(Itoa(b)[0]);
    if n < 0 && m < 0 { assert NumberText(n)[1..] == Itoa(a) && NumberText(m)[1..] == Itoa(b); }
  }

  /** The three protocols, and anything else for TCP. */
  lemma ProtoKeys()
    ensures KeyOf(ServicePort("UDP", 53, 0)) == "udp-num-53" && KeyOf(ServicePort("SCTP", 7, 9)) == "sctp-num-9"
    ensures KeyOf(ServicePort("TCP", 80, 8080)) == KeyOf(ServicePort("", 80, 8080)) == "tcp-num-8080"
  {
    assert Itoa(53) == Itoa(5) + "3" == "53";
    assert Itoa(8080) == Itoa(808) + "0" && Itoa(808) == Itoa(80) + "8" && Itoa(80) == Itoa(8) + "0";
  }

  /** The last of the first `n` ports with key `k` is at `i`. */
  predicate LastWith(ports: seq<ServicePort>, n: nat, k: string, i: int) {
    0 <= i < n <= |ports| && KeyOf(ports[i]) == k && forall j :: i < j < n ==> KeyOf(ports[j]) != k
  }

  /**
   The ports of a service, one entry per key; the last port with a key determines its entry, with its target
   port, or its own number where it has no target port.
   */
  method GetServiceTargetPorts(ports: seq<ServicePort>) returns (r: Ports)
    ensures forall p :: p in ports ==> KeyOf(p) in r
    ensures forall k :: k in r ==> exists i ::
      LastWith(ports, |ports|, k, i) && r[k].proto == ports[i].proto &&
      r[k].ports == [if ports[i].target > 0 then ports[i].target else ports[i].port]
  {
    assert forall i :: 0 <= i < |ports| ==>
      PortNumber(ports[i]) == if ports[i].target > 0 then ports[i].target else ports[i].port;
    hide KeyOf, PortNumber;
    r := map[];
    for n := 0 to |ports|
      invariant forall i :: 0 <= i < n ==> KeyOf(ports[i]) in r
      invariant forall k :: k in r ==> exists i ::
        LastWith(ports, n, k, i) && r[k] == TargetPort(ports[i].proto, [PortNumber(ports[i])])
    {
      ghost var before := r;
      r := r[KeyOf(ports[n]) := TargetPort(ports[n].proto, [PortNumber(ports[n])])];
      forall k | k in r
        ensures exists i :: LastWith(ports, n + 1, k, i) && r[k] == TargetPort(ports[i].proto, [PortNumber(ports[i])])
      {
        if k == KeyOf(ports[n]) {
          assert LastWith(ports, n + 1, k, n);
        } else {
          var i :| LastWith(ports, n, k, i) && before[k] == TargetPort(ports[i].proto, [PortNumber(ports[i])]);
          assert LastWith(ports, n + 1, k, i);
        }
      }
    }
  }

  // ----- updateTargetPortIndex -----

  function KeysOf(e: Entry, service: bool): set<string> {
    if service then e.serviceKeys else e.networkPolicyKeys
  }

  function WithKey(e: Entry, service: bool, key: string): Entry {
    if service then e.(serviceKeys := e.serviceKeys + {key}) else e.(networkPolicyKeys := e.networkPolicyKeys + {key})
  }

  function WithoutKey(e: Entry, service: bool, key: string): Entry {
    if service then e.(serviceKeys := e.serviceKeys - {key}) else e.(networkPolicyKeys := e.networkPolicyKeys - {key})
  }

  predicate Unused(e: Entry) {
    e.serviceKeys == {} && e.networkPolicyKeys == {}
  }

  function Withdraw(ix: Index, service: bool, key: string, gone: set<string>): Index {
    map p | p in ix && !(p in gone && Unused(WithoutKey(ix[p], service, key))) ::
      if p in gone then WithoutKey(ix[p], service, key) else ix[p]
  }

  function Register(ix: Index, service: bool, key: string, ports: Ports): Index {
    map p | p in ix.Keys + ports.Keys ::
      if p !in ports then ix[p]
      else if p in ix then WithKey(ix[p].(port := ix[p].port.(ports := ports[p].ports)), service, key)
      else WithKey(Entry(ports[p], {}, {}), service, key)
  }

  /** The index after a change from one set of ports to another; ports in both are left alone. */
  function Updated(ix: Index, service: bool, key: string, before: Ports, after: Ports): Index {
    Register(Withdraw(ix, service, key, before.Keys - after.Keys), service, key, after - before.Keys)
  }

  class Controller {
    var targetPortIndex: Index

    constructor ()
      ensures targetPortIndex == map[]
    {
      targetPortIndex := map[];
    }

    method UpdateTargetPortIndex(service: bool, key: string, before: Ports, after: Ports)
      modifies this
      ensures targetPortIndex == Updated(old(targetPortIndex), service, key, before, after)
    {
      NothingChanged(targetPortIndex, service, key);
      hide Withdraw, Register;
      ghost var ix := targetPortIndex;
      ghost var done := {};
      var todo := before.Keys;
      while todo != {}
        invariant todo <= before.Keys && done == (before.Keys - todo) - after.Keys
        invariant targetPortIndex == Withdraw(ix, service, key, done)
        decreases todo
      {
        var p :| p in todo;
        todo := todo - {p};
        if p in after { continue; }
        WithdrawStep(ix, service, key, done, p);
        done := done + {p};
        if p !in targetPortIndex { continue; }
        var entry := WithoutKey(targetPortIndex[p], service, key);
        targetPortIndex := targetPortIndex[p := entry];
        if Unused(entry) { targetPortIndex := targetPortIndex - {p}; }
      }
      assert done == before.Keys - after.Keys;
      ghost var mid := targetPortIndex;
      ghost var new_: Ports := map[];
      todo := after.Keys;
      NothingChanged(mid, service, key);
      while todo != {}
        invariant todo <= after.Keys && new_ == (after - todo) - before.Keys
        invariant targetPortIndex == Register(mid, service, key, new_)
        decreases todo
      {
        var p :| p in todo;
        todo := todo - {p};
        if p in before {
          assert new_ == (after - todo) - before.Keys;
          continue;
        }
        RegisterStep(mid, service, key, new_, p, after[p]);
        new_ := new_[p := after[p]];
        assert new_ == (after - todo) - before.Keys;
        var entry;
        if p !in targetPortIndex {
          entry := Entry(after[p], {}, {});
        } else {
          entry := targetPortIndex[p].(port := targetPortIndex[p].port.(ports := after[p].ports));
        }
        targetPortIndex := targetPortIndex[p := WithKey(entry, service, key)];
      }
      assert new_ == after - before.Keys;
    }
  }

  lemma NothingChanged(ix: Index, service: bool, key: string)
    ensures Withdraw(ix, service, key, {}) == ix && Register(ix, service, key, map[]) == ix
  {
  }

  lemma WithdrawStep(ix: Index, service: bool, key: string, gone: set<string>, p: string)
    requires p !in gone
    ensures var t := Withdraw(ix, service, key, gone);
      Withdraw(ix, service, key, gone + {p}) ==
        if p !in t then t
        else if Unused(WithoutKey(t[p], service, key)) then t - {p} else t[p := WithoutKey(t[p], service, key)]
  {
  }

  lemma RegisterStep(ix: Index, service: bool, key: string, ports: Ports, p: string, port: TargetPort)
    requires p !in ports
    ensures var t := Register(ix, service, key, ports);
      Register(ix, service, key, ports[p := port]) ==
        var entry := if p in t then t[p].(port := t[p].port.(ports := port.ports)) else Entry(port, {}, {});
        t[p := WithKey(entry, service, key)]
  {
    var t := Register(ix, service, key, ports);
    assert p in t <==> p in ix;
  }

  // ----- What the index means -----

  /** The keys of one kind at each port are exactly the registrants of that port. */
  ghost predicate Exact(ix: Index, service: bool, who: map<string, set<string>>) {
    forall p, k :: (p in ix && k in KeysOf(ix[p], service)) <==> (k in who && p in who[k])
  }

  predicate NoUnused(ix: Index) {
    forall p :: p in ix ==> !Unused(ix[p])
  }

  function PortsOf(who: map<string, set<string>>, key: string): set<string> {
    if key in who then who[key] else {}
  }

  lemma UpdatedKeys(ix: Index, service: bool, key: string, before: Ports, after: Ports, kind: bool, p: string,
                    k: string)
    ensures var t := Updated(ix, service, key, before, after);
      (p in t && k in KeysOf(t[p], kind)) <==>
        if kind == service && k == key && (p in before) != (p in after) then p in after
        else p in ix && k in KeysOf(ix[p], kind)
  {
    var gone := before.Keys - after.Keys;
    var mid := Withdraw(ix, service, key, gone);
    if p in ix && k in KeysOf(ix[p], kind) && !(kind == service && k == key) {
      assert k in KeysOf(WithoutKey(ix[p], service, key), kind);
    }
    assert (p in mid && k in KeysOf(mid[p], kind)) <==>
      p in ix && k in KeysOf(ix[p], kind) && !(p in gone && kind == service && k == key);
  }

  /** One update keeps the other kind, moves the key from its old ports to its new ones, and leaves no unused entry. */
  lemma UpdateKeeps(ix: Index, service: bool, key: string, before: Ports, after: Ports,
                    kind: bool, who: map<string, set<string>>, who': map<string, set<string>>)
    requires NoUnused(ix) && Exact(ix, kind, who)
    requires kind == service ==> PortsOf(who, key) == before.Keys
    requires kind == service ==> PortsOf(who', key) == after.Keys
    requires forall k :: (kind != service || k != key) ==> PortsOf(who', k) == PortsOf(who, k)
    ensures Exact(Updated(ix, service, key, before, after), kind, who')
  {
    hide Updated;
    var t := Updated(ix, service, key, before, after);
    forall p, k ensures (p in t && k in KeysOf(t[p], kind)) <==> (k in who' && p in who'[k]) {
      UpdatedKeys(ix, service, key, before, after, kind, p, k);
      assert (k in who && p in who[k]) <==> p in PortsOf(who, k);
      assert (k in who' && p in who'[k]) <==> p in PortsOf(who', k);
    }
  }

  lemma UpdateLeavesNoneUnused(ix: Index, service: bool, key: string, before: Ports, after: Ports)
    requires NoUnused(ix)
    ensures NoUnused(Updated(ix, service, key, before, after))
  {
    var mid := Withdraw(ix, service, key, before.Keys - after.Keys);
    assert NoUnused(mid);
  }

  // ----- Runs -----

  datatype State = State(index: Index, services: map<string, Ports>)

  datatype Event =
    | ServiceAdded(key: string, ports: Ports)
    | ServiceUpdated(key: string, ports: Ports)
    | ServiceDeleted(key: string)
    | PolicyChanged(key: string, before: Ports, after: Ports)

  /** The informer reports each service as added once before it updates or deletes it. */
  predicate Possible(s: State, e: Event) {
    match e
    case ServiceAdded(key, _) => key !in s.services
    case ServiceUpdated(key, _) => key in s.services
    case ServiceDeleted(key) => key in s.services
    case PolicyChanged(_, _, _) => true
  }

  function Next(s: State, e: Event): State
    requires Possible(s, e)
  {
    match e
    case ServiceAdded(key, ports) =>
      State(Updated(s.index, true, key, map[], ports), s.services[key := ports])
    case ServiceUpdated(key, ports) =>
      if s.services[key] == ports then s
      else State(Updated(s.index, true, key, s.services[key], ports), s.services[key := ports])
    case ServiceDeleted(key) =>
      State(Updated(s.index, true, key, s.services[key], map[]), s.services - {key})
    case PolicyChanged(key, before, after) =>
      s.(index := Updated(s.index, false, key, before, after))
  }

  ghost predicate IsRun(states: seq<State>, events: seq<Event>) {
    && |states| == |events| + 1 && states[0] == State(map[], map[])
    && forall i :: 0 <= i < |events| ==> Possible(states[i], events[i]) && states[i + 1] == Next(states[i], events[i])
  }

  /** The live services with their ports, from the events alone. */
  function Services(events: seq<Event>): map<string, Ports> {
    if events == [] then map[]
    else
      var front, e := Services(events[..|events| - 1]), events[|events| - 1];
      match e
      case ServiceAdded(key, ports) => front[key := ports]
      case ServiceUpdated(key, ports) => front[key := ports]
      case ServiceDeleted(key) => front - {key}
      case PolicyChanged(_, _, _) => front
  }

  lemma Latest(events: seq<Event>, i: nat)
    requires 0 < i <= |events|
    ensures events[..i] != [] && events[..i][..|events[..i]| - 1] == events[..i - 1]
    ensures events[..i][|events[..i]| - 1] == events[i - 1]
  {
  }

  lemma {:induction false} ServicesAre(states: seq<State>, events: seq<Event>, i: nat)
    requires IsRun(states, events) && i <= |events|
    ensures states[i].services == Services(events[..i])
  {
    if i > 0 {
      ServicesAre(states, events, i - 1);
      Latest(events, i);
      hide Updated;
    }
  }

  function Names(services: map<string, Ports>): map<string, set<string>> {
    map k | k in services :: services[k].Keys
  }

  lemma NextKeeps(s: State, e: Event)
    requires Possible(s, e) && NoUnused(s.index) && Exact(s.index, true, Names(s.services))
    ensures NoUnused(Next(s, e).index) && Exact(Next(s, e).index, true, Names(Next(s, e).services))
  {
    var who, who' := Names(s.services), Names(Next(s, e).services);
    hide Updated, Exact, NoUnused;
    match e
    case ServiceAdded(key, ports) =>
      UpdateKeeps(s.index, true, key, map[], ports, true, who, who');
      UpdateLeavesNoneUnused(s.index, true, key, map[], ports);
    case ServiceUpdated(key, ports) =>
      UpdateKeeps(s.index, true, key, s.services[key], ports, true, who, who');
      UpdateLeavesNoneUnused(s.index, true, key, s.services[key], ports);
    case ServiceDeleted(key) =>
      UpdateKeeps(s.index, true, key, s.services[key], map[], true, who, who');
      UpdateLeavesNoneUnused(s.index, true, key, s.services[key], map[]);
    case PolicyChanged(key, before, after) =>
      UpdateKeeps(s.index, false, key, before, after, true, who, who');
      UpdateLeavesNoneUnused(s.index, false, key, before, after);
  }

  lemma {:induction false} RunKeeps(states: seq<State>, events: seq<Event>, i: nat)
    requires IsRun(states, events) && i <= |events|
    ensures NoUnused(states[i].index) && Exact(states[i].index, true, Names(states[i].services))
  {
    if i > 0 {
      RunKeeps(states, events, i - 1);
      NextKeeps(states[i - 1], events[i - 1]);
    }
  }

  /**
   The services at a port are exactly the services that the events leave alive with that port; an entry exists
   exactly when somebody is in it.
   */
  lemma RunIsExact(states: seq<State>, events: seq<Event>, i: nat)
    requires IsRun(states, events) && i <= |events|
    ensures NoUnused(states[i].index) && Exact(states[i].index, true, Names(Services(events[..i])))
  {
    RunKeeps(states, events, i);
    ServicesAre(states, events, i);
  }

  // ----- The port numbers of an entry -----

  /** The event registers its key newly at `p`. */
  predicate Registers(events: seq<Event>, i: nat, p: string)
    requires i < |events|
  {
    match events[i]
    case ServiceAdded(_, ports) => p in ports
    case ServiceUpdated(key, ports) => p in ports && p !in PortsIn(Services(events[..i]), key)
    case ServiceDeleted(_) => false
    case PolicyChanged(_, before, after) => p in after && p !in before
  }

  function PortsIn(services: map<string, Ports>, key: string): Ports {
    if key in services then services[key] else map[]
  }

  function PortsAfter(e: Event): Ports {
    match e
    case ServiceAdded(_, ports) => ports
    case ServiceUpdated(_, ports) => ports
    case ServiceDeleted(_) => map[]
    case PolicyChanged(_, _, after) => after
  }

  /** The numbers that the last registration at `p` brought. */
  ghost predicate LastNumbers(events: seq<Event>, n: nat, p: string, numbers: seq<int>)
    requires n <= |events|
  {
    exists j :: 0 <= j < n && BringsLast(events, n, p, numbers, j)
  }

  ghost predicate BringsLast(events: seq<Event>, n: nat, p: string, numbers: seq<int>, j: nat)
    requires j < n <= |events|
  {
    && Registers(events, j, p) && p in PortsAfter(events[j]) && PortsAfter(events[j])[p].ports == numbers
    && forall k :: j < k < n ==> !Registers(events, k, p)
  }

  lemma UpdatedPorts(ix: Index, service: bool, key: string, before: Ports, after: Ports, p: string)
    requires p in Updated(ix, service, key, before, after)
    ensures var t := Updated(ix, service, key, before, after);
      if p in after && p !in before then t[p].port.ports == after[p].ports
      else p in ix && t[p].port == ix[p].port
  {
    var mid := Withdraw(ix, service, key, before.Keys - after.Keys);
    assert p in mid ==> p in ix && mid[p].port == ix[p].port;
  }

  lemma NumbersStep(s: State, e: Event, p: string, registers: bool)
    requires Possible(s, e) && p in Next(s, e).index
    requires registers <==>
      match e
      case ServiceAdded(_, ports) => p in ports
      case ServiceUpdated(key, ports) => p in ports && p !in PortsIn(s.services, key)
      case ServiceDeleted(_) => false
      case PolicyChanged(_, before, after) => p in after && p !in before
    ensures if registers then p in PortsAfter(e) && Next(s, e).index[p].port.ports == PortsAfter(e)[p].ports
      else p in s.index && Next(s, e).index[p].port == s.index[p].port
  {
    hide Updated;
    match e
    case ServiceAdded(key, ports) => UpdatedPorts(s.index, true, key, map[], ports, p);
    case ServiceUpdated(key, ports) =>
      if s.services[key] != ports { UpdatedPorts(s.index, true, key, s.services[key], ports, p); }
    case ServiceDeleted(key) => UpdatedPorts(s.index, true, key, s.services[key], map[], p);
    case PolicyChanged(key, before, after) => UpdatedPorts(s.index, false, key, before, after, p);
  }

  /** An entry has the port numbers that its last registration brought. */
  lemma {:induction false} NumbersAreLatest(states: seq<State>, events: seq<Event>, i: nat, p: string)
    requires IsRun(states, events) && i <= |events| && p in states[i].index
    ensures LastNumbers(events, i, p, states[i].index[p].port.ports)
  {
    if i > 0 {
      var s, e := states[i - 1], events[i - 1];
      ServicesAre(states, events, i - 1);
      NumbersStep(s, e, p, Registers(events, i - 1, p));
      hide Next;
      var numbers := states[i].index[p].port.ports;
      if Registers(events, i - 1, p) {
        assert BringsLast(events, i, p, numbers, i - 1);
      } else {
        NumbersAreLatest(states, events, i - 1, p);
        hide Registers;
        var j :| 0 <= j < i - 1 && BringsLast(events, i - 1, p, numbers, j);
        assert BringsLast(events, i, p, numbers, j);
      }
    }
  }

  /** The ports each policy registered last. */
  function Policies(events: seq<Event>): map<string, set<string>> {
    if events == [] then map[]
    else
      var front, e := Policies(events[..|events| - 1]), events[|events| - 1];
      if e.PolicyChanged? then front[e.key := e.after.Keys] else front
  }

  /**
   What a policy update must be told for the index to stay exact: every port the policy leaves, and no port
   it keeps without being registered there.
   */
  predicate NamesLeft(was: set<string>, before: set<string>, after: set<string>) {
    was - after <= before && before * after <= was
  }

  /** One policy update keeps the policies exact if and only if the old ports it is given name what they must. */
  lemma PolicyStepIff(ix: Index, key: string, before: Ports, after: Ports, who: map<string, set<string>>)
    requires Exact(ix, false, who)
    ensures Exact(Updated(ix, false, key, before, after), false, who[key := after.Keys]) <==>
      NamesLeft(PortsOf(who, key), before.Keys, after.Keys)
  {
    hide Updated;
    var t, who' := Updated(ix, false, key, before, after), who[key := after.Keys];
    forall p, k
      ensures (p in t && k in KeysOf(t[p], false)) <==>
        if k == key && (p in before) != (p in after) then p in after else p in PortsOf(who, k)
    {
      UpdatedKeys(ix, false, key, before, after, false, p, k);
      assert (p in ix && k in KeysOf(ix[p], false)) <==> (k in who && p in who[k]);
    }
    forall p, k ensures (k in who' && p in who'[k]) <==> if k == key then p in after else p in PortsOf(who, k) {
      assert k == key ==> who'[k] == after.Keys;
    }
    if Exact(t, false, who') {
      forall p ensures p in PortsOf(who, key) - after.Keys ==> p in before.Keys
        ensures p in before.Keys * after.Keys ==> p in PortsOf(who, key)
      {
        assert (p in t && key in KeysOf(t[p], false)) <==> (key in who' && p in who'[key]);
      }
    }
    if NamesLeft(PortsOf(who, key), before.Keys, after.Keys) {
      forall p, k ensures (p in t && k in KeysOf(t[p], false)) <==> (k in who' && p in who'[k]) {
        assert p in PortsOf(who, key) - after.Keys ==> p in before.Keys;
        assert p in before.Keys * after.Keys ==> p in PortsOf(who, key);
      }
    }
  }

  /** A service event, and a policy update seen from another policy, leaves the policies as they are. */
  lemma PolicyStep(s: State, e: Event, who: map<string, set<string>>)
    requires Possible(s, e) && NoUnused(s.index) && Exact(s.index, false, who)
    ensures !e.PolicyChanged? ==> Exact(Next(s, e).index, false, who)
    ensures e.PolicyChanged? ==>
      (Exact(Next(s, e).index, false, who[e.key := e.after.Keys]) <==>
       NamesLeft(PortsOf(who, e.key), e.before.Keys, e.after.Keys))
  {
    hide Updated, Exact, NoUnused, NamesLeft;
    match e
    case ServiceAdded(key, ports) => UpdateKeeps(s.index, true, key, map[], ports, false, who, who);
    case ServiceUpdated(key, ports) => UpdateKeeps(s.index, true, key, s.services[key], ports, false, who, who);
    case ServiceDeleted(key) => UpdateKeeps(s.index, true, key, s.services[key], map[], false, who, who);
    case PolicyChanged(key, before, after) => PolicyStepIff(s.index, key, before, after, who);
  }

  /** The policy update at `j`, if it is one, is told the ports it must know. */
  ghost predicate WellInformed(events: seq<Event>, j: nat)
    requires j < |events|
  {
    events[j].PolicyChanged? ==>
      NamesLeft(PortsOf(Policies(events[..j]), events[j].key), events[j].before.Keys, events[j].after.Keys)
  }

  /** In the state after `i` events, the policies at a port are exactly those that registered it last. */
  ghost predicate PoliciesExactAt(states: seq<State>, events: seq<Event>, i: nat)
    requires i < |states| && i <= |events|
  {
    Exact(states[i].index, false, Policies(events[..i]))
  }

  lemma PoliciesExactStep(states: seq<State>, events: seq<Event>, i: nat)
    requires IsRun(states, events) && i < |events| && PoliciesExactAt(states, events, i)
    ensures PoliciesExactAt(states, events, i + 1) <==> WellInformed(events, i)
  {
    hide Exact, NoUnused, NamesLeft, Next;
    RunIsExact(states, events, i);
    PolicyStep(states[i], events[i], Policies(events[..i]));
    assert events[..i + 1][..i] == events[..i];
  }

  ghost predicate PoliciesExactUpTo(states: seq<State>, events: seq<Event>, n: nat)
    requires n < |states| && n <= |events|
  {
    forall i :: 0 <= i <= n ==> PoliciesExactAt(states, events, i)
  }

  ghost predicate WellInformedUpTo(events: seq<Event>, n: nat)
    requires n <= |events|
  {
    forall j :: 0 <= j < n ==> WellInformed(events, j)
  }

  lemma OneMore(states: seq<State>, events: seq<Event>, n: nat)
    requires n + 1 < |states| && n + 1 <= |events|
    ensures PoliciesExactUpTo(states, events, n + 1) <==>
      PoliciesExactUpTo(states, events, n) && PoliciesExactAt(states, events, n + 1)
    ensures WellInformedUpTo(events, n + 1) <==> WellInformedUpTo(events, n) && WellInformed(events, n)
  {
    hide PoliciesExactAt, WellInformed;
  }

  /** Policies are exact in every state up to `n` if and only if every policy update before `n` is well informed. */
  lemma {:induction false} PoliciesAreExactIff(states: seq<State>, events: seq<Event>, n: nat)
    requires IsRun(states, events) && n <= |events|
    ensures PoliciesExactUpTo(states, events, n) <==> WellInformedUpTo(events, n)
  {
    if n == 0 {
      NobodyRegistered(states, events);
    } else {
      PoliciesAreExactIff(states, events, n - 1);
      OneMore(states, events, n - 1);
      if PoliciesExactUpTo(states, events, n - 1) { PoliciesExactStep(states, events, n - 1); }
    }
  }

  /** When every policy update names the ports it registered before, the policies are exact. */
  lemma PoliciesAreExact(states: seq<State>, events: seq<Event>, i: nat)
    requires IsRun(states, events) && i <= |events|
    requires forall j :: 0 <= j < i && events[j].PolicyChanged? ==>
      PortsOf(Policies(events[..j]), events[j].key) == events[j].before.Keys
    ensures Exact(states[i].index, false, Policies(events[..i]))
  {
    PoliciesAreExactIff(states, events, i);
    assert PoliciesExactAt(states, events, i);
  }

  lemma NobodyRegistered(states: seq<State>, events: seq<Event>)
    requires IsRun(states, events)
    ensures PoliciesExactAt(states, events, 0)
  {
  }

  /** A policy stays at a port until an update of that policy names the port as old and not as new. */
  lemma {:induction false} RegisteredUntilNamed(states: seq<State>, events: seq<Event>, i: nat, j: nat, key: string,
                                                p: string)
    requires IsRun(states, events) && i <= j <= |events|
    requires p in states[i].index && key in states[i].index[p].networkPolicyKeys
    requires forall k :: i <= k < j && events[k].PolicyChanged? && events[k].key == key ==>
      p !in events[k].before || p in events[k].after
    ensures p in states[j].index && key in states[j].index[p].networkPolicyKeys
    decreases j
  {
    if i < j {
      RegisteredUntilNamed(states, events, i, j - 1, key, p);
      var s, e := states[j - 1], events[j - 1];
      hide Updated;
      match e
      case ServiceAdded(k, ports) => UpdatedKeys(s.index, true, k, map[], ports, false, p, key);
      case ServiceUpdated(k, ports) => UpdatedKeys(s.index, true, k, s.services[k], ports, false, p, key);
      case ServiceDeleted(k) => UpdatedKeys(s.index, true, k, s.services[k], map[], false, p, key);
      case PolicyChanged(k, before, after) => UpdatedKeys(s.index, false, k, before, after, false, p, key);
    }
  }

  /**
   A policy with a named port, deleted after the last pod with that port has gone: its ports are computed
   again from the pods, come out empty, and the registration is not withdrawn.
   */
  lemma DeletedPolicyStays() returns (states: seq<State>, events: seq<Event>)
    ensures IsRun(states, events) && |events| == 2
    ensures events[0] == PolicyChanged("ns/np", map[], map["tcp-name-http" := TargetPort("TCP", [8080])])
    ensures events[1] == PolicyChanged("ns/np", map[], map[])
    ensures PortsOf(Policies(events), "ns/np") == {}
    ensures "tcp-name-http" in states[2].index
    ensures states[2].index["tcp-name-http"].networkPolicyKeys == {"ns/np"}
    ensures !WellInformed(events, 1)
  {
    var ports := map["tcp-name-http" := TargetPort("TCP", [8080])];
    events := [PolicyChanged("ns/np", map[], ports), PolicyChanged("ns/np", map[], map[])];
    var s1 := Next(State(map[], map[]), PolicyChanged("ns/np", map[], ports));
    states := [State(map[], map[]), s1, Next(s1, PolicyChanged("ns/np", map[], map[]))];
    assert events[..1] == [events[0]] && events[..1][..0] == events[..0] == [] && events[..2] == events;
    assert Policies(events[..0]) == map[];
    assert Policies(events[..1]) == map["ns/np" := ports.Keys];
    var none: Ports := map[];
    assert none.Keys == {};
    assert Policies(events) == Policies(events[..1])["ns/np" := {}];
    assert "tcp-name-http" in ports.Keys - {};
  }
}
