/**
 Shared-VLAN bookkeeping in global-scope mode (pkg/controller/nodefabricnetworkattachments.go):
 each network attachment lists VLANs, and `sharedEncapCache` keeps the inverse relation, from a
 VLAN to the networks that list it.

 Main results: the inverse is exact in every run of attachment updates and deletes that does not
 panic, whatever the lists (`RunIsExact`), and what it holds is given by the operations alone: the
 networks some node still uses, each with its last readable list (`NetsAre`, `SharedAre`). A run
 panics exactly when it reaches an operation that releases a VLAN listed twice by its only network
 (`RunPanicsIff`), which a run with duplicate-free lists never does (`DuplicateFreeRuns`).
 */
module SharedEncap {
  import opened ApicTypes
  import GoStrings
  import VlanList

  /** AdditionalNetworkMeta: the VLAN list as text, and the nodes in NodeCache. */
  datatype Net = Net(encapVlan: string, nodes: set<string>)

  type Nets = map<string, Net>            // additionalNetworkCache
  type Shared = map<int, set<string>>     // sharedEncapCache: VLAN -> keys of NetRef

  function VlansOf(net: Net): seq<int> {
    VlanList.Parse(net.encapVlan).vlans
  }

  predicate NoDuplicates(vlans: seq<int>) {
    forall i, j :: 0 <= i < j < |vlans| ==> vlans[i] != vlans[j]
  }

  /** A VLAN has an entry exactly when some network lists it, and its references are exactly those networks. */
  ghost predicate Exact(nets: Nets, shared: Shared) {
    && (forall v :: v in shared ==> shared[v] != {})
    && (forall v, k :: (v in shared && k in shared[v]) <==> (k in nets && v in VlansOf(nets[k])))
  }

  ghost predicate Admitted(nets: Nets) {
    forall k :: k in nets ==> VlanList.Parse(nets[k].encapVlan).ok && nets[k].nodes != {}
  }

  /** Drops the network's reference to each VLAN in `gone`, and entries left without references. */
  function Without(shared: Shared, gone: set<int>, key: string): Shared {
    map v | v in shared && !(v in gone && shared[v] - {key} == {}) :: if v in gone then shared[v] - {key} else shared[v]
  }

  function With(shared: Shared, vlans: set<int>, key: string): Shared {
    map v | v in shared.Keys + vlans ::
      if v !in vlans then shared[v] else if v in shared then shared[v] + {key} else {key}
  }

  function Elements(vlans: seq<int>): set<int> {
    set v | v in vlans
  }

  /** deleteNodeFabNetAttGlobalEncapVlanLocked dereferences the entry: None is the nil-pointer panic. */
  function ReleaseOne(shared: Shared, vlan: int, key: string): Option<Shared> {
    if vlan !in shared then None
    else if shared[vlan] - {key} == {} then Some(shared - {vlan})
    else Some(shared[vlan := shared[vlan] - {key}])
  }

  /** Releases, in order, the listed VLANs that are not kept. */
  function Release(shared: Shared, vlans: seq<int>, kept: set<int>, key: string): Option<Shared> {
    if vlans == [] then Some(shared)
    else
      var front, last := Release(shared, vlans[..|vlans| - 1], kept, key), vlans[|vlans| - 1];
      if front.None? || last in kept then front else ReleaseOne(front.value, last, key)
  }

  /** A VLAN to be released has no entry, or it occurred before and had no other network. */
  ghost predicate Clash(shared: Shared, vlans: seq<int>, kept: set<int>, key: string) {
    exists j :: 0 <= j < |vlans| && ClashAt(shared, vlans, kept, key, j)
  }

  predicate ClashAt(shared: Shared, vlans: seq<int>, kept: set<int>, key: string, j: nat)
    requires j < |vlans|
  {
    vlans[j] !in kept &&
    (vlans[j] !in shared || (vlans[j] in vlans[..j] && shared[vlans[j]] <= {key}))
  }

  /** Releasing VLANs panics exactly on a clash, and otherwise drops the network's references. */
  lemma {:induction false} ReleasePanicsIff(shared: Shared, vlans: seq<int>, kept: set<int>, key: string)
    ensures Release(shared, vlans, kept, key).None? <==> Clash(shared, vlans, kept, key)
    ensures Release(shared, vlans, kept, key).Some? ==>
              Release(shared, vlans, kept, key).value == Without(shared, Elements(vlans) - kept, key)
  {
    if vlans == [] {
      assert Elements(vlans) - kept == {};
      assert Without(shared, {}, key) == shared;
    } else {
      var n := |vlans| - 1;
      var front, last := vlans[..n], vlans[n];
      ReleasePanicsIff(shared, front, kept, key);
      ClashStep(shared, vlans, kept, key);
      assert vlans == front + [last];
      assert Elements(vlans) == Elements(front) + {last};
      hide Clash;
      if Release(shared, front, kept, key).Some? {
        var mid := Without(shared, Elements(front) - kept, key);
        if last in kept {
          assert Elements(front) - kept == Elements(vlans) - kept;
        } else {
          if last in shared { OnlyKey(shared[last], key); }
          assert last !in mid <==> ClashAt(shared, vlans, kept, key, n);
          if last in mid { WithoutStep(shared, Elements(front) - kept, last, key); }
          assert (Elements(front) - kept) + {last} == Elements(vlans) - kept;
        }
      }
    }
  }

  lemma OnlyKey(refs: set<string>, key: string)
    ensures refs - {key} == {} <==> refs <= {key}
  {
    if refs - {key} == {} {
      forall r | r in refs ensures r == key { assert r !in refs - {key}; }
    }
  }

  lemma ClashStep(shared: Shared, vlans: seq<int>, kept: set<int>, key: string)
    requires vlans != []
    ensures var n := |vlans| - 1;
      Clash(shared, vlans, kept, key) <==> Clash(shared, vlans[..n], kept, key) || ClashAt(shared, vlans, kept, key, n)
  {
    var n := |vlans| - 1;
    var front := vlans[..n];
    forall j | 0 <= j < n ensures ClashAt(shared, front, kept, key, j) <==> ClashAt(shared, vlans, kept, key, j) {
      assert front[..j] == vlans[..j];
    }
  }

  lemma WithoutStep(shared: Shared, gone: set<int>, v: int, key: string)
    requires v in Without(shared, gone, key)
    ensures ReleaseOne(Without(shared, gone, key), v, key) == Some(Without(shared, gone + {v}, key))
  {
    var mid := Without(shared, gone, key);
    var end := Without(shared, gone + {v}, key);
    assert mid[v] - {key} == shared[v] - {key};
    if mid[v] - {key} == {} {
      assert mid - {v} == end;
    } else {
      assert mid[v := mid[v] - {key}] == end;
    }
  }

  lemma WithOne(shared: Shared, v: int, key: string)
    ensures var first := if v in shared then shared else shared[v := {}];
      first[v := first[v] + {key}] == With(shared, {v}, key)
  {
    var first := if v in shared then shared else shared[v := {}];
    assert {} + {key} == {key};
    assert With(shared, {v}, key).Keys == shared.Keys + {v};
  }

  lemma WithStep(shared: Shared, vlans: set<int>, v: int, key: string)
    ensures With(With(shared, vlans, key), {v}, key) == With(shared, vlans + {v}, key)
  {
    var a, b := With(With(shared, vlans, key), {v}, key), With(shared, vlans + {v}, key);
    assert a.Keys == b.Keys;
    forall u | u in a ensures a[u] == b[u] {}
  }

  /** Who references a VLAN after a network has moved from one set of VLANs to another. */
  lemma Moved(shared: Shared, gone: set<int>, vlans: set<int>, key: string, v: int, k: string)
    ensures var t := With(Without(shared, gone, key), vlans, key);
      && ((v in t && k in t[v]) <==>
            (v in vlans && k == key) || (v in shared && k in shared[v] && !(v in gone && k == key)))
      && ((forall u :: u in shared ==> shared[u] != {}) ==> (v in t ==> t[v] != {}))
  {
    var mid := Without(shared, gone, key);
    if v in shared {
      assert k in shared[v] && k != key ==> k in shared[v] - {key};
      assert (v in mid && k in mid[v]) <==> k in shared[v] && !(v in gone && k == key);
    }
  }

  // ----- The two operations -----

  datatype State = State(nets: Nets, shared: Shared)

  datatype Op =
    | Update(key: string, node: string, vlanList: string)   // updateNodeFabNetAttObj
    | Delete(key: string, node: string)                     // deleteNodeFabNetAttObj

  /** The state after an operation; None when it panics. */
  function Apply(s: State, op: Op): Option<State> {
    match op
    case Update(key, node, list) =>
      var p := VlanList.Parse(list);
      if !p.ok then Some(s)
      else
        var released :=
          if key in s.nets && s.nets[key].encapVlan != list
          then Release(s.shared, VlansOf(s.nets[key]), Elements(p.vlans), key)
          else Some(s.shared);
        if released.None? then None
        else
          var nodes := (if key in s.nets then s.nets[key].nodes else {}) + {node};
          Some(State(s.nets[key := Net(list, nodes)], With(released.value, Elements(p.vlans), key)))
    case Delete(key, node) =>
      if key !in s.nets || node !in s.nets[key].nodes then Some(s)
      else
        var nodes := s.nets[key].nodes - {node};
        if nodes != {} then Some(s.(nets := s.nets[key := s.nets[key].(nodes := nodes)]))
        else
          var released := Release(s.shared, VlansOf(s.nets[key]), {}, key);
          if released.None? then None else Some(State(s.nets - {key}, released.value))
  }

  ghost predicate Good(s: State) {
    Admitted(s.nets) && Exact(s.nets, s.shared)
  }

  /** The operation releases a list on which the release clashes. */
  ghost predicate Fatal(s: State, op: Op) {
    match op
    case Update(key, node, list) =>
      var p := VlanList.Parse(list);
      && p.ok && key in s.nets && s.nets[key].encapVlan != list
      && Clash(s.shared, VlansOf(s.nets[key]), Elements(p.vlans), key)
    case Delete(key, node) =>
      && key in s.nets && s.nets[key].nodes == {node}
      && Clash(s.shared, VlansOf(s.nets[key]), {}, key)
  }

  /** An operation panics exactly when it is fatal. */
  lemma PanicsIff(s: State, op: Op)
    ensures Apply(s, op).None? <==> Fatal(s, op)
  {
    hide VlanList.Parse, Release, Clash;
    match op
    case Update(key, node, list) =>
      if key in s.nets {
        ReleasePanicsIff(s.shared, VlansOf(s.nets[key]), Elements(VlanList.Parse(list).vlans), key);
      }
    case Delete(key, node) =>
      if key in s.nets {
        ReleasePanicsIff(s.shared, VlansOf(s.nets[key]), {}, key);
        OneNode(s.nets[key].nodes, node);
      }
  }

  lemma OneNode(nodes: set<string>, node: string)
    ensures node in nodes && nodes - {node} == {} <==> nodes == {node}
  {
    if node in nodes && nodes - {node} == {} {
      forall n | n in nodes ensures n == node { assert n !in nodes - {node}; }
    }
  }

  /** Every operation that returns keeps the inverse exact, whatever the lists. */
  lemma StepKeeps(s: State, op: Op)
    requires Good(s) && Apply(s, op).Some?
    ensures Good(Apply(s, op).value)
  {
    hide VlanList.Parse, Release;
    match op
    case Update(key, node, list) =>
      var p := VlanList.Parse(list);
      if p.ok {
        if key in s.nets { ReleasePanicsIff(s.shared, VlansOf(s.nets[key]), Elements(p.vlans), key); }
        UpdateExact(s, key, node, list);
      }
    case Delete(key, node) =>
      if key in s.nets && node in s.nets[key].nodes {
        ReleasePanicsIff(s.shared, VlansOf(s.nets[key]), {}, key);
        if s.nets[key].nodes - {node} == {} { DeleteExact(s, key); }
      }
  }

  lemma UpdateExact(s: State, key: string, node: string, list: string)
    requires Good(s) && VlanList.Parse(list).ok
    requires Apply(s, Update(key, node, list)).Some?
    requires key in s.nets && s.nets[key].encapVlan != list ==>
      Release(s.shared, VlansOf(s.nets[key]), Elements(VlanList.Parse(list).vlans), key) ==
        Some(Without(s.shared, Elements(VlansOf(s.nets[key])) - Elements(VlanList.Parse(list).vlans), key))
    ensures Good(Apply(s, Update(key, node, list)).value)
  {
    hide VlanList.Parse, Release;
    var t := Apply(s, Update(key, node, list)).value;
    var vlans := VlanList.Parse(list).vlans;
    var gone := if key in s.nets && s.nets[key].encapVlan != list
      then Elements(VlansOf(s.nets[key])) - Elements(vlans) else {};
    assert Without(s.shared, {}, key) == s.shared;
    assert t.shared == With(Without(s.shared, gone, key), Elements(vlans), key);
    assert t.nets == s.nets[key := t.nets[key]] && VlansOf(t.nets[key]) == vlans;
    assert forall v :: v in gone ==> v !in vlans;
    assert key in s.nets ==> forall v :: v in VlansOf(s.nets[key]) ==> v in vlans || v in gone;
    UpdatedIsGood(s, t, key, vlans, gone);
  }

  lemma UpdatedIsGood(s: State, t: State, key: string, vlans: seq<int>, gone: set<int>)
    requires Good(s) && key in t.nets && t.nets == s.nets[key := t.nets[key]] && VlansOf(t.nets[key]) == vlans
    requires VlanList.Parse(t.nets[key].encapVlan).ok && t.nets[key].nodes != {}
    requires t.shared == With(Without(s.shared, gone, key), Elements(vlans), key)
    requires forall v :: v in gone ==> v !in vlans
    requires key in s.nets ==> forall v :: v in VlansOf(s.nets[key]) ==> v in vlans || v in gone
    ensures Good(t)
  {
    hide With, Without, VlansOf, VlanList.Parse;
    forall v, k ensures (v in t.shared && k in t.shared[v]) <==> (k in t.nets && v in VlansOf(t.nets[k])) {
      Moved(s.shared, gone, Elements(vlans), key, v, k);
      assert (v in s.shared && k in s.shared[v]) <==> (k in s.nets && v in VlansOf(s.nets[k]));
    }
    forall v | v in t.shared ensures t.shared[v] != {} { Moved(s.shared, gone, Elements(vlans), key, v, key); }
  }

  lemma DeleteExact(s: State, key: string)
    requires Good(s) && key in s.nets
    ensures Good(State(s.nets - {key}, Without(s.shared, Elements(VlansOf(s.nets[key])) - {}, key)))
  {
    hide VlanList.Parse;
    var t := State(s.nets - {key}, Without(s.shared, Elements(VlansOf(s.nets[key])) - {}, key));
    forall v, k ensures (v in t.shared && k in t.shared[v]) <==> (k in t.nets && v in VlansOf(t.nets[k])) {
      assert (v in s.shared && k in s.shared[v]) <==> (k in s.nets && v in VlansOf(s.nets[k]));
    }
  }

  function Run(ops: seq<Op>): Option<State> {
    if ops == [] then Some(State(map[], map[]))
    else
      var front := Run(ops[..|ops| - 1]);
      if front.None? then None else Apply(front.value, ops[|ops| - 1])
  }

  /** Whatever a run does without panicking, the cache is exact after it. */
  lemma {:induction false} RunIsExact(ops: seq<Op>)
    requires Run(ops).Some?
    ensures Exact(Run(ops).value.nets, Run(ops).value.shared) && Admitted(Run(ops).value.nets)
  {
    if ops != [] {
      RunIsExact(ops[..|ops| - 1]);
      StepKeeps(Run(ops[..|ops| - 1]).value, ops[|ops| - 1]);
    }
  }

  // ----- What is cached, from the operations alone -----

  /** The update's list can be read; an update whose list cannot changes nothing. */
  predicate Accepted(op: Op) {
    op.Update? ==> VlanList.Parse(op.vlanList).ok
  }

  /** The last accepted operation that names the network and the node is an update. */
  predicate Uses(ops: seq<Op>, key: string, node: string) {
    ops != [] &&
    var front, op := ops[..|ops| - 1], ops[|ops| - 1];
    if Accepted(op) && op.key == key && op.node == node then op.Update? else Uses(front, key, node)
  }

  /** The list of the last accepted update of the network. */
  function ListOf(ops: seq<Op>, key: string): string {
    if ops == [] then ""
    else
      var front, op := ops[..|ops| - 1], ops[|ops| - 1];
      if op.Update? && Accepted(op) && op.key == key then op.vlanList else ListOf(front, key)
  }

  ghost predicate InUse(ops: seq<Op>, key: string) {
    exists node :: Uses(ops, key, node)
  }

  predicate HasNode(nets: Nets, key: string, node: string) {
    key in nets && node in nets[key].nodes
  }

  lemma NodesStep(s: State, op: Op, key: string, node: string)
    requires Apply(s, op).Some?
    ensures HasNode(Apply(s, op).value.nets, key, node) <==>
      if Accepted(op) && op.key == key && op.node == node then op.Update? else HasNode(s.nets, key, node)
  {
    hide VlanList.Parse, Release, With;
    if op.Delete? && key in s.nets && node in s.nets[key].nodes && op.node != node {
      assert node in s.nets[key].nodes - {op.node};
    }
  }

  lemma ListStep(s: State, op: Op, key: string)
    requires Apply(s, op).Some? && key in Apply(s, op).value.nets
    ensures var list := Apply(s, op).value.nets[key].encapVlan;
      if op.Update? && Accepted(op) && op.key == key then list == op.vlanList
      else key in s.nets && list == s.nets[key].encapVlan
  {
    hide VlanList.Parse, Release, With;
  }

  /** The nodes of a network are those whose last accepted operation on it is an update. */
  lemma {:induction false} NodesAre(ops: seq<Op>, key: string, node: string)
    requires Run(ops).Some?
    ensures HasNode(Run(ops).value.nets, key, node) <==> Uses(ops, key, node)
  {
    if ops != [] {
      var front, op := ops[..|ops| - 1], ops[|ops| - 1];
      NodesAre(front, key, node);
      NodesStep(Run(front).value, op, key, node);
      hide Apply, Accepted;
    }
  }

  lemma {:induction false} ListIs(ops: seq<Op>, key: string)
    requires Run(ops).Some? && key in Run(ops).value.nets
    ensures Run(ops).value.nets[key].encapVlan == ListOf(ops, key)
  {
    if ops != [] {
      var front, op := ops[..|ops| - 1], ops[|ops| - 1];
      ListStep(Run(front).value, op, key);
      if key in Run(front).value.nets { ListIs(front, key); }
      hide Apply, Accepted;
    }
  }

  /** A network is cached exactly while some node uses it, with the list of its last accepted update. */
  lemma NetsAre(ops: seq<Op>, key: string)
    requires Run(ops).Some?
    ensures key in Run(ops).value.nets <==> InUse(ops, key)
    ensures InUse(ops, key) ==> Run(ops).value.nets[key].encapVlan == ListOf(ops, key)
  {
    RunIsExact(ops);
    var nets := Run(ops).value.nets;
    hide Run, Uses, ListOf, VlanList.Parse, Exact;
    if key in nets {
      assert nets[key].nodes != {};
      var node :| node in nets[key].nodes;
      NodesAre(ops, key, node);
      ListIs(ops, key);
    }
    if node :| Uses(ops, key, node) { NodesAre(ops, key, node); }
  }

  /** A VLAN is cached with a network exactly when some node uses the network and its last accepted list names it. */
  lemma SharedAre(ops: seq<Op>, v: int, key: string)
    requires Run(ops).Some?
    ensures var shared := Run(ops).value.shared;
      (v in shared && key in shared[v]) <==> InUse(ops, key) && v in VlanList.Parse(ListOf(ops, key)).vlans
  {
    RunIsExact(ops);
    NetsAre(ops, key);
    var s := Run(ops).value;
    hide Run, Uses, ListOf, VlanList.Parse, Exact, InUse;
    ExactAt(s.nets, s.shared, v, key);
  }

  lemma ExactAt(nets: Nets, shared: Shared, v: int, key: string)
    requires Exact(nets, shared)
    ensures (v in shared && key in shared[v]) <==> key in nets && v in VlanList.Parse(nets[key].encapVlan).vlans
  {
    hide VlanList.Parse;
    assert key in nets ==> VlansOf(nets[key]) == VlanList.Parse(nets[key].encapVlan).vlans;
  }

  /** The run gets to operation `n`, which is fatal. */
  ghost predicate FatalAt(ops: seq<Op>, n: nat)
    requires n < |ops|
  {
    Run(ops[..n]).Some? && Fatal(Run(ops[..n]).value, ops[n])
  }

  /** A run panics exactly when it reaches a fatal operation. */
  lemma {:induction false} RunPanicsIff(ops: seq<Op>)
    ensures Run(ops).None? <==> exists n :: 0 <= n < |ops| && FatalAt(ops, n)
  {
    if ops != [] {
      hide *;
      var n := |ops| - 1;
      var front := ops[..n];
      RunPanicsIff(front);
      FatalLast(ops);
      forall i | 0 <= i < n ensures FatalAt(front, i) <==> FatalAt(ops, i) { FatalEarlier(ops, n, i); }
    }
  }

  lemma FatalEarlier(ops: seq<Op>, n: nat, i: nat)
    requires i < n <= |ops|
    ensures FatalAt(ops[..n], i) <==> FatalAt(ops, i)
  {
    hide Run, Fatal;
    assert ops[..n][..i] == ops[..i];
  }

  lemma FatalLast(ops: seq<Op>)
    requires ops != []
    ensures var n := |ops| - 1; Run(ops).None? <==> Run(ops[..n]).None? || FatalAt(ops, n)
  {
    var front := Run(ops[..|ops| - 1]);
    hide Apply, Fatal;
    if front.Some? { PanicsIff(front.value, ops[|ops| - 1]); }
  }

  // ----- Duplicate-free lists -----

  predicate DuplicateFree(op: Op) {
    op.Update? ==> NoDuplicates(VlanList.Parse(op.vlanList).vlans)
  }

  ghost predicate ListsDuplicateFree(nets: Nets) {
    forall k :: k in nets ==> NoDuplicates(VlansOf(nets[k]))
  }

  lemma NoClash(s: State, key: string, kept: set<int>)
    requires Good(s) && ListsDuplicateFree(s.nets) && key in s.nets
    ensures !Clash(s.shared, VlansOf(s.nets[key]), kept, key)
  {
    hide VlanList.Parse;
    var vlans := VlansOf(s.nets[key]);
    forall j | 0 <= j < |vlans| ensures !ClashAt(s.shared, vlans, kept, key, j) {
      assert vlans[j] in vlans && vlans[j] in s.shared && vlans[j] !in vlans[..j];
    }
  }

  lemma DuplicateFreeStep(s: State, op: Op)
    requires Good(s) && ListsDuplicateFree(s.nets) && DuplicateFree(op)
    ensures Apply(s, op).Some? && ListsDuplicateFree(Apply(s, op).value.nets)
  {
    hide VlanList.Parse, Release, Clash, NoDuplicates, With, Elements, Good;
    PanicsIff(s, op);
    match op
    case Update(key, node, list) =>
      if key in s.nets { NoClash(s, key, Elements(VlanList.Parse(list).vlans)); }
    case Delete(key, node) =>
      if key in s.nets { NoClash(s, key, {}); }
  }

  /** No run whose lists name each VLAN once panics. */
  lemma {:induction false} DuplicateFreeRuns(ops: seq<Op>)
    requires forall op :: op in ops ==> DuplicateFree(op)
    ensures Run(ops).Some? && ListsDuplicateFree(Run(ops).value.nets)
  {
    if ops != [] {
      var n := |ops| - 1;
      DuplicateFreeRuns(ops[..n]);
      RunIsExact(ops[..n]);
      DuplicateFreeStep(Run(ops[..n]).value, ops[n]);
      hide Apply, DuplicateFree, ListsDuplicateFree;
    }
  }

  /** The controller's shared-VLAN state. */
  class Controller {
    var nets: Nets
    var shared: Shared

    constructor ()
      ensures Good(State(nets, shared)) && State(nets, shared) == Run([]).value
    {
      nets, shared := map[], map[];
    }

    /** The release loops of updateNodeFabNetAttVlans and deleteNodeFabNetAttObj. */
    method ReleaseVlans(vlans: seq<int>, kept: set<int>, key: string) returns (panicked: bool)
      modifies this`shared
      ensures panicked <==> Release(old(shared), vlans, kept, key).None?
      ensures !panicked ==> Release(old(shared), vlans, kept, key) == Some(shared)
    {
      assert vlans[..|vlans|] == vlans;
      for i := 0 to |vlans|
        invariant Release(old(shared), vlans[..i], kept, key) == Some(shared)
      {
        assert vlans[..i + 1][..i] == vlans[..i];
        if vlans[i] !in kept {
          if vlans[i] !in shared {
            ReleaseStops(old(shared), vlans, kept, key, i + 1);
            return true;
          }
          var refs := shared[vlans[i]] - {key};
          shared := if refs == {} then shared - {vlans[i]} else shared[vlans[i] := refs];
        }
      }
      return false;
    }

    method Reference(vlans: seq<int>, key: string)
      modifies this`shared
      ensures shared == With(old(shared), Elements(vlans), key)
    {
      assert With(shared, {}, key) == shared;
      for i := 0 to |vlans|
        invariant shared == With(old(shared), Elements(vlans[..i]), key)
      {
        assert Elements(vlans[..i + 1]) == Elements(vlans[..i]) + {vlans[i]};
        WithOne(shared, vlans[i], key);
        WithStep(old(shared), Elements(vlans[..i]), vlans[i], key);
        hide With, Elements;
        if vlans[i] !in shared { shared := shared[vlans[i] := {}]; }
        shared := shared[vlans[i] := shared[vlans[i]] + {key}];
      }
      assert vlans[..|vlans|] == vlans;
    }

    method UpdateNodeFabNetAttObj(key: string, node: string, vlanList: string) returns (panicked: bool)
      modifies this
      ensures panicked <==> Apply(old(State(nets, shared)), Update(key, node, vlanList)).None?
      ensures !panicked ==> Apply(old(State(nets, shared)), Update(key, node, vlanList)) == Some(State(nets, shared))
    {
      hide VlanList.Parse, Release, With;
      var vlans, _, ok := VlanList.ParseNodeFabNetAttVlanList(vlanList);
      assert vlans == VlanList.Parse(vlanList).vlans && ok == VlanList.Parse(vlanList).ok;
      if !ok { return false; }
      if key !in nets {
        nets := nets[key := Net(vlanList, {})];
      } else if nets[key].encapVlan != vlanList {
        var oldVlans, _, _ := VlanList.ParseNodeFabNetAttVlanList(nets[key].encapVlan);
        assert oldVlans == VlansOf(nets[key]);
        var failed := ReleaseVlans(oldVlans, Elements(vlans), key);
        if failed { return true; }
      }
      nets := nets[key := Net(vlanList, nets[key].nodes + {node})];
      assert nets == old(nets)[key := Net(vlanList, (if key in old(nets) then old(nets)[key].nodes else {}) + {node})];
      Reference(vlans, key);
      return false;
    }

    method DeleteNodeFabNetAttObj(key: string, node: string) returns (panicked: bool)
      modifies this
      ensures panicked <==> Apply(old(State(nets, shared)), Delete(key, node)).None?
      ensures !panicked ==> Apply(old(State(nets, shared)), Delete(key, node)) == Some(State(nets, shared))
    {
      hide VlanList.Parse, Release;
      if key !in nets || node !in nets[key].nodes { return false; }
      var vlans, _, _ := VlanList.ParseNodeFabNetAttVlanList(nets[key].encapVlan);
      assert vlans == VlansOf(nets[key]);
      var nodes := nets[key].nodes - {node};
      nets := nets[key := nets[key].(nodes := nodes)];
      if nodes == {} {
        nets := nets - {key};
        assert nets == old(nets) - {key};
        panicked := ReleaseVlans(vlans, {}, key);
        return;
      }
      return false;
    }
  }

  lemma {:induction false} ReleaseStops(shared: Shared, vlans: seq<int>, kept: set<int>, key: string, n: nat)
    requires n <= |vlans| && Release(shared, vlans[..n], kept, key).None?
    ensures Release(shared, vlans, kept, key).None?
    decreases |vlans| - n
  {
    if n < |vlans| {
      assert vlans[..n + 1][..n] == vlans[..n];
      ReleaseStops(shared, vlans, kept, key, n + 1);
    } else {
      assert vlans[..n] == vlans;
    }
  }

  /** The list "5,5" is admitted, and removing the network's only node then dereferences a missing entry. */
  lemma RepeatedVlanPanics(key: string, node: string)
    ensures Run([Update(key, node, "5,5"), Delete(key, node)]).None?
  {
    ParseFiveFive();
    hide VlanList.Parse;
    var up, del := Update(key, node, "5,5"), Delete(key, node);
    assert [up, del][..1] == [up] && [up][..0] == [];
    var s := Apply(State(map[], map[]), up).value;
    assert Run([up]) == Some(s);
    assert s.nets[key].nodes - {node} == {};
    assert Elements([5, 5]) == {5};
    assert s.shared == map[5 := {key}];
    assert [5, 5][..1] == [5] && [5][..0] == [];
    assert Release(s.shared, [], {}, key) == Some(s.shared);
    assert Release(s.shared, [5], {}, key) == Some(s.shared - {5});
    assert Release(s.shared, [5, 5], {}, key).None?;
  }

  lemma ParseFiveFive()
    ensures VlanList.Parse("5,5") == VlanList.Parsed([5, 5], ["5", "5"], true)
  {
    SplitFiveFive();
    ParseFive();
    hide GoStrings.Split, VlanList.ParseElem, VlanList.Contents;
    assert ["5", "5"][..1] == ["5"] && ["5"][..0] == [];
    assert VlanList.ParseElems(["5"]) == VlanList.Parsed([5], ["5"], true);
  }

  lemma SplitFiveFive()
    ensures VlanList.Contents("5,5") == Some("5,5") && GoStrings.Split("5,5", ',') == ["5", "5"]
  {
    assert "5,5"[1..] == ",5" && ",5"[1..] == "5" && "5"[1..] == "";
    assert GoStrings.Cut("", '[') == None && GoStrings.Cut("5", '[') == None && GoStrings.Cut(",5", '[') == None;
    assert GoStrings.Split("", ',') == [""] && ['5'] + "" == "5";
    assert GoStrings.Split("5", ',') == ["5"];
    assert GoStrings.Split(",5", ',') == ["", "5"];
    assert GoStrings.Split("5,5", ',') == [['5'] + ""] + ["", "5"][1..];
  }

  lemma ParseFive()
    ensures VlanList.ParseElem("5") == Some(VlanList.Elem("5", 5, 5)) && VlanList.Ids(5, 5) == [5]
  {
    assert GoStrings.TrimSpace("5") == "5";
    assert "5"[..0] == "";
    assert GoStrings.Digits("5") == Some(5);
  }
}
