/**
 The synchronization protocol of one APIC connection (pkg/apicapi/apicapi.go and
 apic_sync.go) as a state machine whose steps are the sections run under the index lock and
 the remote requests made outside it. Objects are childless; a value is what the comparison
 sees of an object (`ApicDiff.Projection`).

 Threads that interleave here: writers (index under the lock, queueing after it), the single
 worker (take, read under the lock, request, reconcile, clean up), the socket reader, the
 connection loop (close, connect, full sync) and other administrators who edit the controller.

 Main result, `DrainedIsSynced`: in every run, a drained connection has the controller equal
 to the wanted state on every DN that was undisturbed since the last connect: no entry about it
 was left over from before, the worker read it only after the full sync, and no POST of it was
 refused. `LostBeforeFullSync`, `LostByLeftover` and `LostByRefusedPost` are runs that do lose an
 object in each of those ways. The marks `leftover` and `exposed` carry the proof; they are
 bounded by the steps (`MarkerIsHeld`, `UndisturbedIsUnexposed`).
 */
module SyncProtocol {
  import opened ApicTypes
  import ApicDiff
  import DnIndex

  type DnName = string
  type Key = string
  type Val = ApicDiff.Projection

  /** Notification kinds; pendingChangeDelete is the zero value. */
  datatype Kind = Deleted | Updated

  /** An entry of pendingSubDnUpdate: a notification, or the worker's `isDirty` marker. */
  datatype Pend = Change(kind: Kind) | Dirty

  datatype Note = Note(dn: DnName, kind: Kind)

  datatype Worker =
    | Idle
    | Got(dn: DnName)                                                  // dequeued, index not read yet
    | Took(dn: DnName, want: Option<Val>, seen: Option<Kind>)         // read under the lock
    | Fetched(dn: DnName, got: Option<Val>)                           // subtree fetched, not reconciled yet
    | Cleaning(dn: DnName)                                             // request done, clean-up ahead

  datatype State = State(
    desired: map<Key, map<DnName, Val>>,   // desiredState
    index: map<DnName, Val>,               // desiredStateDn
    remote: map<DnName, Val>,              // the controller's objects that carry our tags
    queue: set<DnName>,                    // deltaQueue: the work queue de-duplicates
    toQueue: multiset<DnName>,             // computed by applyDiff callers, not yet passed to queueDn
    worker: Worker,
    open: bool,                            // deltaQueue != nil
    sync: bool,                            // syncEnabled
    restarting: bool,                      // restartCh closed
    cached: Option<map<DnName, Val>>,      // cachedState
    pending: map<DnName, Pend>,            // pendingSubDnUpdate
    wire: seq<Note>,                       // notifications sent, not yet read from the socket
    leftover: set<DnName>,                 // pending entries older than this connection
    exposed: set<DnName>)                  // DNs read before the full sync or on a stale entry

  datatype Step =
    | Write(key: Key, objects: Option<map<DnName, Val>>)   // doWriteApicObjects; None clears the key
    | QueueDn(dn: DnName)
    | Get(dn: DnName)                                      // queue.Get
    | Read                                                 // first locked section of handleQueuedDn
    | Act(noticed: bool)                                   // postDn, DeleteDn, getSubtreeDn's GET, or nothing
    | Fail                                                 // the request failed: conn.restart()
    | Refused                                              // POST answered 400: AddRateLimited
    | Reconcile                                            // reconcileApicObject
    | CleanUp
    | Notify                                               // handleSocketUpdate
    | Edit(edn: DnName, value: Option<Val>, noticed: bool) // somebody else changes the controller
    | Signal                                               // conn.restart() from elsewhere
    | CloseConn
    | Connect                                              // new queue, subscriptions and snapshot
    | FullSync

  function Find<V>(m: map<DnName, V>, x: DnName): Option<V> {
    if x in m then Some(m[x]) else None
  }

  function Put<V>(m: map<DnName, V>, x: DnName, v: Option<V>): map<DnName, V> {
    match v
    case Some(u) => m[x := u]
    case None => m - {x}
  }

  function ObjectsOf(s: State, key: Key): map<DnName, Val> {
    if key in s.desired then s.desired[key] else map[]
  }

  predicate Owns(desired: map<Key, map<DnName, Val>>, k: Key, x: DnName) {
    k in desired && x in desired[k]
  }

  /** The DNs that the diff of two sets of childless objects updates or deletes. */
  function Touched(old_: map<DnName, Val>, new_: map<DnName, Val>): set<DnName> {
    set x | x in old_.Keys + new_.Keys && Find(old_, x) != Find(new_, x)
  }

  /** updateDnIndex with the new objects, then removeFromDnIndex for those that went. */
  function Reindexed(index: map<DnName, Val>, old_: map<DnName, Val>, new_: map<DnName, Val>): map<DnName, Val> {
    (index + new_) - (old_.Keys - new_.Keys)
  }

  /** A remote change reaches the subscriptions; the controller sends nothing when nothing changes. */
  function ChangeRemote(s: State, x: DnName, v: Option<Val>, noticed: bool): State {
    if Find(s.remote, x) == v then s
    else s.(remote := Put(s.remote, x, v),
            wire := if noticed then s.wire + [Note(x, if v.None? then Deleted else Updated)] else s.wire)
  }

  predicate Enabled(s: State, st: Step) {
    match st
    case Write(key, objects) =>
      // different keys own different DNs
      objects.Some? ==> forall k, x :: k in s.desired && x in objects.value && Owns(s.desired, k, x) ==> k == key
    case QueueDn(dn) => dn in s.toQueue
    case Get(dn) => s.worker.Idle? && dn in s.queue
    case Read => s.worker.Got?
    case Act(noticed) => s.worker.Took? && (s.open ==> noticed)
    case Fail => s.worker.Took?
    case Refused => s.worker.Took? && s.worker.want.Some? && s.worker.seen != Some(Updated)
    case Reconcile => s.worker.Fetched?
    case CleanUp => s.worker.Cleaning?
    case Notify => s.wire != []
    case Edit(_, _, noticed) => s.open ==> noticed
    case Signal => true
    case CloseConn => s.open && s.restarting
    // the old queue is drained and its worker has finished before the next snapshot
    case Connect => !s.open && s.worker.Idle? && s.queue == {}
    case FullSync => s.open && !s.sync && s.cached.Some?
  }

  function Do(s: State, st: Step): State
    requires Enabled(s, st)
  {
    match st
    case Write(key, objects) =>
      var old_ := ObjectsOf(s, key);
      var new_ := if objects.Some? then objects.value else map[];
      s.(desired := if objects.Some? then s.desired[key := new_] else s.desired - {key},
         index := Reindexed(s.index, old_, new_),
         toQueue := if s.sync then s.toQueue + multiset(Touched(old_, new_)) else s.toQueue)
    case QueueDn(dn) =>
      s.(toQueue := s.toQueue - multiset{dn}, queue := if s.open then s.queue + {dn} else s.queue)
    case Get(dn) =>
      s.(queue := s.queue - {dn}, worker := Got(dn))
    case Read =>
      var x := s.worker.dn;
      var entry: Option<Pend> := Find(s.pending, x);
      // the marker has the zero kind, which is the delete kind
      var seen := if entry.None? then None else if entry.value.Change? then Some(entry.value.kind) else Some(Deleted);
      var stale := !s.sync || x in s.leftover || entry == Some(Dirty);
      s.(pending := s.pending[x := Dirty], worker := Took(x, Find(s.index, x), seen),
         leftover := s.leftover - {x},
         exposed := if stale then s.exposed + {x} else s.exposed - {x})
    case Act(noticed) =>
      var x := s.worker.dn;
      if s.worker.seen == Some(Updated) then s.(worker := Fetched(x, Find(s.remote, x)))
      else if s.worker.want.None? && s.worker.seen == Some(Deleted) then s.(worker := Cleaning(x))
      else ChangeRemote(s, x, s.worker.want, noticed).(worker := Cleaning(x))
    case Fail =>
      s.(worker := Cleaning(s.worker.dn), restarting := true)
    case Refused =>
      s.(worker := Idle, queue := if s.open then s.queue + {s.worker.dn} else s.queue)
    case Reconcile =>
      var x := s.worker.dn;
      var differs := s.sync && s.worker.got.Some? && Find(s.index, x) != s.worker.got;
      s.(worker := Cleaning(x), toQueue := if differs then s.toQueue + multiset{x} else s.toQueue)
    case CleanUp =>
      var x := s.worker.dn;
      s.(worker := Idle, pending := if Find(s.pending, x) == Some(Dirty) then s.pending - {x} else s.pending)
    case Notify =>
      var n := s.wire[0];
      s.(wire := s.wire[1..], pending := s.pending[n.dn := Change(n.kind)],
         queue := if s.open then s.queue + {n.dn} else s.queue,
         leftover := if s.open then s.leftover - {n.dn} else s.leftover)
    case Edit(x, v, noticed) => ChangeRemote(s, x, v, noticed)
    case Signal => s.(restarting := true)
    case CloseConn => s.(open := false, sync := false, cached := None)
    case Connect =>
      s.(open := true, restarting := false, cached := Some(s.remote), wire := [],
         leftover := s.pending.Keys, exposed := {})
    case FullSync =>
      s.(sync := true, toQueue := s.toQueue + multiset(Touched(s.cached.value, s.index)))
  }

  // ----- Runs -----

  /** The process starts disconnected, whatever the controller holds. */
  predicate Init(s: State) {
    s == State(map[], map[], s.remote, {}, multiset{}, Idle, false, false, false, None, map[], [], {}, {})
  }

  ghost predicate IsRun(states: seq<State>, steps: seq<Step>) {
    && |states| == |steps| + 1
    && Init(states[0])
    && forall i :: 0 <= i < |steps| ==> Enabled(states[i], steps[i]) && states[i + 1] == Do(states[i], steps[i])
  }

  lemma RunAt(states: seq<State>, steps: seq<Step>, i: nat)
    requires IsRun(states, steps)
    ensures |states| == |steps| + 1
    ensures i < |steps| ==> Enabled(states[i], steps[i]) && states[i + 1] == Do(states[i], steps[i])
  {
    hide Enabled, Do;
  }

  // ----- The invariant, one DN at a time -----

  /** The kind of the newest notification about `x` on the wire. */
  function Last(wire: seq<Note>, x: DnName): Option<Kind> {
    if wire == [] then None
    else if Last(wire[1..], x).Some? then Last(wire[1..], x)
    else if wire[0].dn == x then Some(wire[0].kind)
    else None
  }

  lemma {:induction false} LastAppend(wire: seq<Note>, n: Note, x: DnName)
    ensures Last(wire + [n], x) == if n.dn == x then Some(n.kind) else Last(wire, x)
  {
    if wire == [] {
      assert (wire + [n])[1..] == [];
    } else {
      assert (wire + [n])[1..] == wire[1..] + [n];
      LastAppend(wire[1..], n, x);
    }
  }

  predicate Truthful(s: State, x: DnName, k: Kind) {
    k == Deleted <==> x !in s.remote
  }

  /** The worker will look at `x` again. */
  predicate Alerted(s: State, x: DnName) {
    Last(s.wire, x).Some? || x in s.queue || s.worker == Got(x)
  }

  /** The worker is about to give `x` its current wanted value, or to compare it. */
  predicate Underway(s: State, x: DnName) {
    match s.worker
    case Took(y, want, seen) =>
      x == y && (seen == Some(Updated) || (want == Find(s.index, x) && !(want.None? && seen == Some(Deleted))))
    case Fetched(y, _) => x == y
    case _ => false
  }

  predicate Scheduled(s: State, x: DnName) {
    x in s.toQueue || Alerted(s, x) || Underway(s, x)
  }

  /** A notification taken in this connection is still queued, and tells the truth unless a newer one is on the wire. */
  predicate EntryOk(s: State, x: DnName) {
    s.open ==>
      && (Last(s.wire, x).Some? ==> Truthful(s, x, Last(s.wire, x).value))
      && (x in s.pending && s.pending[x].Change? && x !in s.leftover ==>
            && (x in s.queue || s.worker == Got(x))
            && (Last(s.wire, x).None? ==> Truthful(s, x, s.pending[x].kind)))
  }

  /** What the worker holds about `x` is current, or something newer is queued. */
  predicate InHandOk(s: State, x: DnName) {
    match s.worker
    case Took(y, want, seen) =>
      x == y ==>
        && (want == Find(s.index, x) || x in s.toQueue || x in s.queue)
        && (seen == Some(Updated) ==> x in s.remote || Alerted(s, x))
        && (seen == Some(Deleted) && want.None? ==> x !in s.remote || Alerted(s, x))
    case Fetched(y, got) =>
      x == y ==> Alerted(s, x) || (got.Some? && got == Find(s.remote, x))
    case _ => true
  }

  predicate InHand(s: State, x: DnName) {
    (s.worker.Took? || s.worker.Fetched?) && s.worker.dn == x
  }

  predicate InvAt(s: State, x: DnName) {
    && (s.open <==> s.cached.Some?) && (s.sync ==> s.open)
    && EntryOk(s, x)
    && (s.open && !s.sync ==>
          && (InHand(s, x) ==> x in s.exposed)
          && (x !in s.exposed ==> Find(s.remote, x) == Find(s.cached.value, x) || Alerted(s, x)))
    && (s.sync && x !in s.exposed ==>
          && InHandOk(s, x)
          && (!s.restarting && Find(s.remote, x) != Find(s.index, x) ==> Scheduled(s, x)))
  }

  /** The flat index is the union of the wanted objects of all keys, which are disjoint. */
  ghost predicate IsUnion(desired: map<Key, map<DnName, Val>>, index: map<DnName, Val>) {
    && (forall k, l, x :: Owns(desired, k, x) && Owns(desired, l, x) ==> k == l)
    && (forall k, x :: Owns(desired, k, x) ==> x in index && index[x] == desired[k][x])
    && (forall x :: x in index ==> exists k :: Owns(desired, k, x))
  }

  ghost predicate IndexExact(s: State) {
    IsUnion(s.desired, s.index)
  }

  lemma ChangeKeeps(s: State, y: DnName, v: Option<Val>, noticed: bool, x: DnName)
    requires s.open ==> noticed
    requires InvAt(s, x)
    ensures var s' := ChangeRemote(s, y, v, noticed);
      EntryOk(s', x) && (Alerted(s, x) ==> Alerted(s', x)) &&
      (s.open && Find(s'.remote, x) != Find(s.remote, x) ==> Alerted(s', x))
  {
    LastAppend(s.wire, Note(y, if v.None? then Deleted else Updated), x);
  }

  lemma PutUnion(desired: map<Key, map<DnName, Val>>, index: map<DnName, Val>, key: Key, new_: map<DnName, Val>)
    requires IsUnion(desired, index) && forall k, x :: Owns(desired, k, x) && x in new_ ==> k == key
    ensures var old_ := if key in desired then desired[key] else map[];
      IsUnion(desired[key := new_], Reindexed(index, old_, new_))
  {
    var old_ := if key in desired then desired[key] else map[];
    var d, ix := desired[key := new_], Reindexed(index, old_, new_);
    assert forall x :: x in old_ <==> Owns(desired, key, x);
    assert forall k, x :: Owns(d, k, x) <==> if k == key then x in new_ else Owns(desired, k, x);
    forall k, x | Owns(d, k, x) ensures x in ix && ix[x] == d[k][x] {
      if k != key { assert x !in old_ && x !in new_; }
    }
    forall x | x in ix ensures exists k :: Owns(d, k, x) {
      if x in new_ {
        assert Owns(d, key, x);
      } else {
        var k :| Owns(desired, k, x);
        assert Owns(d, k, x);
      }
    }
  }

  lemma DropUnion(desired: map<Key, map<DnName, Val>>, index: map<DnName, Val>, key: Key)
    requires IsUnion(desired, index)
    ensures var old_ := if key in desired then desired[key] else map[];
      IsUnion(desired - {key}, Reindexed(index, old_, map[]))
  {
    var old_ := if key in desired then desired[key] else map[];
    var d, ix := desired - {key}, Reindexed(index, old_, map[]);
    assert forall x :: x in old_ <==> Owns(desired, key, x);
    assert forall k, x :: Owns(d, k, x) <==> k != key && Owns(desired, k, x);
    forall x | x in ix ensures exists k :: Owns(d, k, x) {
      var k :| Owns(desired, k, x);
      assert Owns(d, k, x);
    }
  }

  /** Only the DNs that the diff reports change in the index. */
  lemma WriteMoves(desired: map<Key, map<DnName, Val>>, index: map<DnName, Val>, key: Key, new_: map<DnName, Val>,
                   x: DnName)
    requires IsUnion(desired, index)
    ensures var old_ := if key in desired then desired[key] else map[];
      Find(Reindexed(index, old_, new_), x) != Find(index, x) ==> x in Touched(old_, new_)
  {
    if key in desired && x in desired[key] { assert Owns(desired, key, x); }
  }

  lemma WriteIs(s: State, key: Key, objects: Option<map<DnName, Val>>)
    requires Enabled(s, Write(key, objects))
    ensures var s' := Do(s, Write(key, objects)); var old_ := ObjectsOf(s, key);
      var new_ := if objects.Some? then objects.value else map[];
      && s'.desired == (if objects.Some? then s.desired[key := new_] else s.desired - {key})
      && s'.index == Reindexed(s.index, old_, new_)
  {
  }

  lemma WriteIndex(s: State, key: Key, objects: Option<map<DnName, Val>>)
    requires IndexExact(s) && Enabled(s, Write(key, objects))
    ensures IndexExact(Do(s, Write(key, objects)))
    ensures forall x :: Find(Do(s, Write(key, objects)).index, x) != Find(s.index, x) ==>
              x in Touched(ObjectsOf(s, key), if objects.Some? then objects.value else map[])
  {
    var new_ := if objects.Some? then objects.value else map[];
    WriteIs(s, key, objects);
    hide Do, IsUnion, Touched, Find, Reindexed;
    if objects.Some? {
      PutUnion(s.desired, s.index, key, new_);
    } else {
      DropUnion(s.desired, s.index, key);
    }
    forall x
      ensures Find(Do(s, Write(key, objects)).index, x) != Find(s.index, x) ==> x in Touched(ObjectsOf(s, key), new_)
    {
      WriteMoves(s.desired, s.index, key, new_, x);
    }
  }

  lemma OnlyWritesMove(s: State, st: Step)
    requires Enabled(s, st) && !st.Write?
    ensures Do(s, st).desired == s.desired && Do(s, st).index == s.index
  {
    hide Find, Touched, Put;
    if st.Get? || st.Read? || st.Act? || st.Fail? || st.Refused? || st.Reconcile? || st.CleanUp? {
      WorkerMovesNothing(s, st);
    } else {
      assert st.QueueDn? || st.Notify? || st.Edit? || st.Signal? || st.CloseConn? || st.Connect? || st.FullSync?;
    }
  }

  lemma WorkerMovesNothing(s: State, st: Step)
    requires Enabled(s, st)
    requires (st.Get? || st.Read? || st.Act? || st.Fail? || st.Refused? || st.Reconcile? || st.CleanUp?)
    ensures Do(s, st).desired == s.desired && Do(s, st).index == s.index
  {
    hide Find, Put;
    if st.Act? {
      ActMovesNothing(s, st.noticed);
    } else {
      assert st.Get? || st.Read? || st.Fail? || st.Refused? || st.Reconcile? || st.CleanUp?;
    }
  }

  lemma ChangeIs(s: State, x: DnName, v: Option<Val>, noticed: bool)
    ensures var t := ChangeRemote(s, x, v, noticed);
      t == s.(remote := t.remote, wire := t.wire) && Find(t.remote, x) == v
  {
  }

  lemma ActIs(s: State, noticed: bool)
    requires Enabled(s, Act(noticed))
    ensures var x, t := s.worker.dn, Do(s, Act(noticed));
      if s.worker.seen == Some(Updated) then t == s.(worker := Fetched(x, Find(s.remote, x)))
      else if s.worker.want.None? && s.worker.seen == Some(Deleted) then t == s.(worker := Cleaning(x))
      else t == ChangeRemote(s, x, s.worker.want, noticed).(worker := Cleaning(x))
  {
    hide Find, Put, ChangeRemote;
  }

  /** A request changes the controller and the worker's hand. */
  lemma ActMovesNothing(s: State, noticed: bool)
    requires Enabled(s, Act(noticed))
    ensures var t := Do(s, Act(noticed));
      && t == s.(remote := t.remote, wire := t.wire, worker := t.worker)
      && (t.worker.Fetched? || t.worker.Cleaning?) && t.worker.dn == s.worker.dn
  {
    ActIs(s, noticed);
    ChangeIs(s, s.worker.dn, s.worker.want, noticed);
    hide *;
  }

  lemma StepKeepsIndex(s: State, st: Step)
    requires IndexExact(s) && Enabled(s, st)
    ensures IndexExact(Do(s, st))
  {
    if st.Write? {
      WriteIndex(s, st.key, st.objects);
    } else {
      hide Do;
      OnlyWritesMove(s, st);
    }
  }

  lemma IndexMoved(s: State, desired: map<Key, map<DnName, Val>>, index: map<DnName, Val>, touched: set<DnName>,
                   x: DnName)
    requires InvAt(s, x) && (Find(index, x) != Find(s.index, x) ==> x in touched)
    ensures InvAt(s.(desired := desired, index := index,
                     toQueue := if s.sync then s.toQueue + multiset(touched) else s.toQueue), x)
  {
  }

  lemma WriterKeeps(s: State, st: Step, x: DnName)
    requires IndexExact(s) && InvAt(s, x) && Enabled(s, st) && (st.Write? || st.QueueDn?)
    ensures InvAt(Do(s, st), x)
  {
    if st.Write? {
      hide InvAt, IndexExact;
      WriteIndex(s, st.key, st.objects);
      var s' := Do(s, st);
      var new_ := if st.objects.Some? then st.objects.value else map[];
      IndexMoved(s, s'.desired, s'.index, Touched(ObjectsOf(s, st.key), new_), x);
    } else {
      QueueDnKeeps(s, st.dn, x);
    }
  }

  lemma QueueDnKeeps(s: State, dn: DnName, x: DnName)
    requires InvAt(s, x) && Enabled(s, QueueDn(dn))
    ensures InvAt(Do(s, QueueDn(dn)), x)
  {
  }

  lemma DequeueKeeps(s: State, st: Step, x: DnName)
    requires InvAt(s, x) && Enabled(s, st) && (st.Get? || st.Read? || st.CleanUp?)
    ensures InvAt(Do(s, st), x)
  {
  }

  lemma ActKeeps(s: State, noticed: bool, x: DnName)
    requires InvAt(s, x) && Enabled(s, Act(noticed))
    ensures InvAt(Do(s, Act(noticed)), x)
  {
    var Took(y, want, seen) := s.worker;
    if seen == Some(Updated) {
      FetchKeeps(s, x);
    } else if want.None? && seen == Some(Deleted) {
      NoActKeeps(s, x);
    } else {
      ChangeKeeps(s, y, want, noticed, x);
      ChangedKeeps(s, noticed, x);
    }
  }

  lemma FetchKeeps(s: State, x: DnName)
    requires InvAt(s, x) && s.worker.Took? && s.worker.seen == Some(Updated)
    ensures InvAt(s.(worker := Fetched(s.worker.dn, Find(s.remote, s.worker.dn))), x)
  {
    hide Last;
  }

  lemma NoActKeeps(s: State, x: DnName)
    requires InvAt(s, x) && s.worker.Took? && s.worker.want.None? && s.worker.seen == Some(Deleted)
    ensures InvAt(s.(worker := Cleaning(s.worker.dn)), x)
  {
    hide Last;
  }

  lemma ChangedKeeps(s: State, noticed: bool, x: DnName)
    requires InvAt(s, x) && s.worker.Took? && s.worker.seen != Some(Updated)
    requires !(s.worker.want.None? && s.worker.seen == Some(Deleted))
    requires var t := ChangeRemote(s, s.worker.dn, s.worker.want, noticed);
      && EntryOk(t, x) && (Alerted(s, x) ==> Alerted(t, x))
      && (s.open && Find(t.remote, x) != Find(s.remote, x) ==> Alerted(t, x))
    ensures InvAt(ChangeRemote(s, s.worker.dn, s.worker.want, noticed).(worker := Cleaning(s.worker.dn)), x)
  {
    hide Last;
  }

  lemma RequestKeeps(s: State, st: Step, x: DnName)
    requires InvAt(s, x) && Enabled(s, st) && (st.Fail? || st.Refused? || st.Reconcile?)
    ensures InvAt(Do(s, st), x)
  {
  }

  lemma SocketKeeps(s: State, st: Step, x: DnName)
    requires InvAt(s, x) && Enabled(s, st) && (st.Notify? || st.Edit?)
    ensures InvAt(Do(s, st), x)
  {
    if st.Edit? { ChangeKeeps(s, st.edn, st.value, st.noticed, x); }
  }

  lemma ConnectionKeeps(s: State, st: Step, x: DnName)
    requires InvAt(s, x) && Enabled(s, st) && (st.Signal? || st.CloseConn? || st.Connect? || st.FullSync?)
    ensures InvAt(Do(s, st), x)
  {
  }

  /** Every step of every thread keeps the invariant at every DN. */
  lemma StepKeeps(s: State, st: Step, x: DnName)
    requires IndexExact(s) && InvAt(s, x) && Enabled(s, st)
    ensures InvAt(Do(s, st), x)
  {
    hide InvAt, IndexExact, Do;
    if st.Write? || st.QueueDn? { WriterKeeps(s, st, x); }
    else if st.Get? || st.Read? || st.CleanUp? { DequeueKeeps(s, st, x); }
    else if st.Act? { ActKeeps(s, st.noticed, x); }
    else if st.Fail? || st.Refused? || st.Reconcile? { RequestKeeps(s, st, x); }
    else if st.Notify? || st.Edit? { SocketKeeps(s, st, x); }
    else { ConnectionKeeps(s, st, x); }
  }

  lemma {:induction false} RunKeeps(states: seq<State>, steps: seq<Step>, i: nat)
    requires IsRun(states, steps) && i <= |steps|
    ensures IndexExact(states[i])
    ensures forall x :: InvAt(states[i], x)
  {
    if i > 0 {
      RunKeeps(states, steps, i - 1);
      StepKeepsIndex(states[i - 1], steps[i - 1]);
      forall x ensures InvAt(states[i], x) { StepKeeps(states[i - 1], steps[i - 1], x); }
    }
  }

  // ----- What the invariant means -----

  /** The value a key wants at `x`, if any does. */
  ghost predicate Wanted(s: State, x: DnName, v: Option<Val>) {
    if v.Some? then exists k :: Owns(s.desired, k, x) && s.desired[k][x] == v.value
    else forall k :: !Owns(s.desired, k, x)
  }

  predicate Drained(s: State) {
    && s.sync && !s.restarting
    && s.worker.Idle? && s.queue == {} && s.toQueue == multiset{} && s.wire == []
  }

  /** Out of date implies still scheduled, off the exposed DNs. */
  lemma UnexposedIsScheduled(states: seq<State>, steps: seq<Step>, i: nat, x: DnName)
    requires IsRun(states, steps) && i <= |steps|
    requires states[i].sync && !states[i].restarting && x !in states[i].exposed
    requires !Wanted(states[i], x, Find(states[i].remote, x))
    ensures Scheduled(states[i], x)
  {
    RunKeeps(states, steps, i);
    assert InvAt(states[i], x);
    WantedIsIndexed(states[i], x);
  }

  /** A drained connection has the controller equal to the wanted state, off the exposed DNs. */
  lemma UnexposedIsSynced(states: seq<State>, steps: seq<Step>, i: nat, x: DnName)
    requires IsRun(states, steps) && i <= |steps|
    requires Drained(states[i]) && x !in states[i].exposed
    ensures Wanted(states[i], x, Find(states[i].remote, x))
  {
    if !Wanted(states[i], x, Find(states[i].remote, x)) { UnexposedIsScheduled(states, steps, i, x); }
  }

  lemma WantedIsIndexed(s: State, x: DnName)
    requires IndexExact(s)
    ensures forall v :: Wanted(s, x, v) <==> v == Find(s.index, x)
  {
  }

  // ----- The history of a DN, from the steps -----

  /** The DN the worker took last. */
  function LastGot(steps: seq<Step>): Option<DnName> {
    if steps == [] then None
    else
      var front, st := steps[..|steps| - 1], steps[|steps| - 1];
      if st.Get? then Some(st.dn) else LastGot(front)
  }

  /** A POST of `x` has been refused since the last clean-up after `x`. */
  predicate RefusedSince(steps: seq<Step>, x: DnName) {
    steps != [] &&
    var front, st := steps[..|steps| - 1], steps[|steps| - 1];
    if (st.Refused? || st.CleanUp?) && LastGot(front) == Some(x) then st.Refused? else RefusedSince(front, x)
  }

  /** The position of the last connect, -1 before the first. */
  function LastConnect(steps: seq<Step>): (c: int)
    ensures -1 <= c < |steps| && (c >= 0 ==> steps[c].Connect?)
    ensures forall j :: c < j < |steps| ==> !steps[j].Connect?
  {
    if steps == [] then -1
    else if steps[|steps| - 1].Connect? then |steps| - 1
    else LastConnect(steps[..|steps| - 1])
  }

  ghost predicate FullSyncIn(steps: seq<Step>, c: int, j: int)
    requires 0 <= c && j <= |steps|
  {
    exists f :: c < f < j && steps[f].FullSync?
  }

  /** The step at `j` is the worker's business with `x`. */
  predicate IsAbout(steps: seq<Step>, j: nat, x: DnName)
    requires j < |steps|
  {
    LastGot(steps[..j]) == Some(x)
  }

  /**
   Since the connect at `c` no POST of `x` was refused and the worker read `x` only after the full sync; at
   the connect there was no entry about `x` from before.
   */
  ghost predicate Undisturbed(states: seq<State>, steps: seq<Step>, c: nat, i: nat, x: DnName)
    requires c < i <= |steps| < |states|
  {
    && x !in states[c].pending
    && forall j :: c < j < i && IsAbout(steps, j, x) ==>
      !steps[j].Refused? && (steps[j].Read? ==> FullSyncIn(steps, c, j))
  }

  /** The worker has read `x` and not cleaned up yet. */
  predicate Holds(s: State, x: DnName) {
    (s.worker.Took? || s.worker.Fetched? || s.worker.Cleaning?) && s.worker.dn == x
  }

  predicate Marked(s: State, x: DnName) {
    Find(s.pending, x) == Some(Dirty)
  }

  /** The marker is set by a read, and taken away by the clean-up if nothing newer has replaced it. */
  lemma MarkerStep(s: State, st: Step, x: DnName)
    requires Enabled(s, st) && Marked(Do(s, st), x)
    ensures (st.Read? && s.worker == Got(x)) || (Marked(s, x) && !(st.CleanUp? && s.worker.dn == x))
  {
    hide Touched, Reindexed, Put;
    if IsWorkers(st) {
      MarkerWorkerStep(s, st, x);
    } else {
      assert st.Write? || st.QueueDn? || st.Notify? || st.Edit? || st.Signal? || st.CloseConn? || st.Connect? ||
        st.FullSync?;
    }
  }

  predicate IsWorkers(st: Step) {
    st.Get? || st.Read? || st.Act? || st.Fail? || st.Refused? || st.Reconcile? || st.CleanUp?
  }

  lemma MarkerWorkerStep(s: State, st: Step, x: DnName)
    requires Enabled(s, st) && IsWorkers(st) && Marked(Do(s, st), x)
    ensures (st.Read? && s.worker == Got(x)) || (Marked(s, x) && !(st.CleanUp? && s.worker.dn == x))
  {
    hide Put;
    if st.Act? {
      ActMovesNothing(s, st.noticed);
    } else {
      assert st.Get? || st.Read? || st.Fail? || st.Refused? || st.Reconcile? || st.CleanUp?;
    }
  }

  /** How the worker's hand changes. */
  lemma HandStep(s: State, st: Step)
    requires Enabled(s, st)
    ensures var t := Do(s, st);
      if st.Get? then t.worker == Got(st.dn)
      else if st.Refused? || st.CleanUp? then t.worker.Idle? && !s.worker.Idle?
      else if IsWorkers(st) then Holds(t, s.worker.dn) && !s.worker.Idle?
      else t.worker == s.worker
  {
    hide Touched, Reindexed, Put, Find;
    if st.Act? {
      ActMovesNothing(s, st.noticed);
    } else {
      assert IsWorkers(st) || st.Write? || st.QueueDn? || st.Notify? || st.Edit? || st.Signal? || st.CloseConn? ||
        st.Connect? || st.FullSync?;
    }
  }

  lemma Front(steps: seq<Step>, i: nat)
    requires 0 < i <= |steps|
    ensures steps[..i] != [] && steps[..i][..|steps[..i]| - 1] == steps[..i - 1]
    ensures steps[..i][|steps[..i]| - 1] == steps[i - 1]
  {
  }

  /** What the worker holds is what it took last. */
  lemma {:induction false} HandIsLastGot(states: seq<State>, steps: seq<Step>, i: nat)
    requires IsRun(states, steps) && i <= |steps|
    ensures !states[i].worker.Idle? ==> LastGot(steps[..i]) == Some(states[i].worker.dn)
  {
    if i > 0 {
      HandIsLastGot(states, steps, i - 1);
      Front(steps, i);
      HandStep(states[i - 1], steps[i - 1]);
      hide Do, Enabled;
    }
  }

  /** A marker outlives the worker's hold on its DN only after a refused POST. */
  lemma {:induction false} MarkerIsHeld(states: seq<State>, steps: seq<Step>, i: nat, x: DnName)
    requires IsRun(states, steps) && i <= |steps| && Marked(states[i], x)
    ensures Holds(states[i], x) || RefusedSince(steps[..i], x)
  {
    hide *;
    RunAt(states, steps, i);
    if i == 0 {
      StartUnmarked(states, steps, x);
    } else {
      RunAt(states, steps, i - 1);
      var s, st := states[i - 1], steps[i - 1];
      MarkerStep(s, st, x);
      HandStep(s, st);
      HandIsLastGot(states, steps, i - 1);
      RefusedSinceStep(steps, i, x);
      if Marked(s, x) {
        MarkerIsHeld(states, steps, i - 1, x);
        if Holds(s, x) { HeldStep(s, st, x); }
      }
      HoldsIs(s, x);
      HoldsIs(Do(s, st), x);
      WorkersAre(st);
    }
  }

  lemma StartUnmarked(states: seq<State>, steps: seq<Step>, x: DnName)
    requires IsRun(states, steps)
    ensures !Marked(states[0], x)
  {
  }

  lemma RefusedSinceStep(steps: seq<Step>, i: nat, x: DnName)
    requires 0 < i <= |steps|
    ensures RefusedSince(steps[..i], x) <==>
      var st := steps[i - 1];
      if (st.Refused? || st.CleanUp?) && LastGot(steps[..i - 1]) == Some(x) then st.Refused?
      else RefusedSince(steps[..i - 1], x)
  {
    Front(steps, i);
    hide LastGot;
  }

  lemma HoldsIs(s: State, x: DnName)
    ensures Holds(s, x) <==> (s.worker.Took? || s.worker.Fetched? || s.worker.Cleaning?) && s.worker.dn == x
  {
  }

  lemma WorkersAre(st: Step)
    ensures IsWorkers(st) <==>
      st.Get? || st.Read? || st.Act? || st.Fail? || st.Refused? || st.Reconcile? || st.CleanUp?
  {
  }

  /** A step that ends the hold on `x` is a refusal or the clean-up. */
  lemma HeldStep(s: State, st: Step, x: DnName)
    requires Enabled(s, st) && Holds(s, x)
    ensures Holds(Do(s, st), x) || ((st.Refused? || st.CleanUp?) && s.worker.dn == x)
  {
    HandStep(s, st);
    BusyAt(s, st);
    hide Do, Enabled;
  }

  /** Nothing about `x` can mislead the worker. */
  predicate Quiet(s: State, x: DnName) {
    x !in s.leftover && x !in s.exposed && (Marked(s, x) ==> Holds(s, x))
  }

  /** How the two marks of the model grow: at a connect, and when the worker reads on what may be stale. */
  lemma MarksStep(s: State, st: Step, x: DnName)
    requires Enabled(s, st) && !st.Connect? && x !in s.leftover && x !in s.exposed
    requires st.Read? && s.worker.dn == x ==> s.sync && !Marked(s, x)
    ensures x !in Do(s, st).leftover && x !in Do(s, st).exposed
  {
    hide Touched, Reindexed, Put;
    if st.Act? {
      ActMovesNothing(s, st.noticed);
    } else {
      assert st.Write? || st.QueueDn? || st.Get? || st.Read? || st.Fail? || st.Refused? || st.Reconcile? ||
        st.CleanUp? || st.Notify? || st.Edit? || st.Signal? || st.CloseConn? || st.FullSync?;
    }
  }

  lemma QuietStep(s: State, st: Step, x: DnName)
    requires Enabled(s, st) && Quiet(s, x) && !st.Connect?
    requires !(st.Refused? && s.worker.dn == x)
    requires st.Read? && s.worker.dn == x ==> s.sync
    ensures Quiet(Do(s, st), x)
  {
    MarksStep(s, st, x);
    HandStep(s, st);
    if Marked(Do(s, st), x) { MarkerStep(s, st, x); }
    hide Do, Enabled;
  }

  lemma ConnectIsQuiet(s: State, x: DnName)
    requires Enabled(s, Connect) && x !in s.pending
    ensures Quiet(Do(s, Connect), x) && Do(s, Connect).open
  {
  }

  /** The connection is open from a connect to the next close, and synchronizes once the full sync has run. */
  lemma PhaseStep(s: State, st: Step)
    requires Enabled(s, st) && !st.Connect?
    ensures Do(s, st).open ==> s.open
    ensures Do(s, st).open ==> (Do(s, st).sync <==> s.sync || st.FullSync?)
  {
    hide Touched, Reindexed, Put, Find;
    if st.Act? {
      ActMovesNothing(s, st.noticed);
    } else {
      assert st.Write? || st.QueueDn? || st.Get? || st.Read? || st.Fail? || st.Refused? || st.Reconcile? ||
        st.CleanUp? || st.Notify? || st.Edit? || st.Signal? || st.CloseConn? || st.FullSync?;
    }
  }

  lemma ClosedIsUnsynced(states: seq<State>, steps: seq<Step>, i: nat)
    requires IsRun(states, steps) && i <= |steps|
    ensures states[i].sync ==> states[i].open
  {
    RunKeeps(states, steps, i);
    assert InvAt(states[i], "");
  }

  /** While the connection is open, it synchronizes exactly when its full sync has run. */
  lemma {:induction false} SyncIsFullSync(states: seq<State>, steps: seq<Step>, c: nat, i: nat)
    requires IsRun(states, steps) && c < i <= |steps| && steps[c].Connect? && states[i].open
    requires forall j :: c < j < i ==> !steps[j].Connect?
    ensures states[i].sync <==> FullSyncIn(steps, c, i)
    decreases i
  {
    hide *;
    RunAt(states, steps, i - 1);
    if i == c + 1 {
      ClosedIsUnsynced(states, steps, c);
      ConnectKeepsSync(states[c]);
      NoFullSyncYet(steps, c);
    } else {
      PhaseStep(states[i - 1], steps[i - 1]);
      SyncIsFullSync(states, steps, c, i - 1);
      FullSyncGrows(steps, c, i - 1);
    }
  }

  lemma NoFullSyncYet(steps: seq<Step>, c: nat)
    requires c < |steps|
    ensures !FullSyncIn(steps, c, c + 1)
  {
  }

  lemma FullSyncGrows(steps: seq<Step>, c: nat, j: nat)
    requires c < j < |steps|
    ensures FullSyncIn(steps, c, j + 1) <==> FullSyncIn(steps, c, j) || steps[j].FullSync?
  {
  }

  lemma ConnectKeepsSync(s: State)
    requires Enabled(s, Connect)
    ensures Do(s, Connect).sync == s.sync && !s.open
  {
  }

  /** An undisturbed DN is not exposed, in any state of the connection. */
  lemma {:induction false} UndisturbedIsQuiet(states: seq<State>, steps: seq<Step>, c: nat, i: nat, x: DnName)
    requires IsRun(states, steps) && c < i <= |steps| && steps[c].Connect? && states[i].open
    requires forall j :: c < j < i ==> !steps[j].Connect?
    requires Undisturbed(states, steps, c, i, x)
    ensures Quiet(states[i], x)
    decreases i
  {
    hide *;
    RunAt(states, steps, i - 1);
    UndisturbedAt(states, steps, c, i, x);
    if i == c + 1 {
      ConnectIsQuiet(states[c], x);
    } else {
      var s, st := states[i - 1], steps[i - 1];
      PhaseStep(s, st);
      HandIsLastGot(states, steps, i - 1);
      SyncIsFullSync(states, steps, c, i - 1);
      BusyAt(s, st);
      UndisturbedIsQuiet(states, steps, c, i - 1, x);
      QuietStep(s, st, x);
    }
  }

  lemma UndisturbedAt(states: seq<State>, steps: seq<Step>, c: nat, i: nat, x: DnName)
    requires c < i <= |steps| < |states| && Undisturbed(states, steps, c, i, x)
    ensures x !in states[c].pending
    ensures c < i - 1 ==>
      && Undisturbed(states, steps, c, i - 1, x)
      && (LastGot(steps[..i - 1]) == Some(x) ==>
        !steps[i - 1].Refused? && (steps[i - 1].Read? ==> FullSyncIn(steps, c, i - 1)))
  {
    if c < i - 1 { assert IsAbout(steps, i - 1, x) <==> LastGot(steps[..i - 1]) == Some(x); }
    hide LastGot, FullSyncIn;
  }

  lemma BusyAt(s: State, st: Step)
    requires Enabled(s, st)
    ensures (st.Refused? || st.Read? ==> !s.worker.Idle?) && (st.Get? ==> s.worker.Idle?)
  {
  }

  /** A connection that is open was connected. */
  lemma {:induction false} OpenIsConnected(states: seq<State>, steps: seq<Step>, i: nat)
    requires IsRun(states, steps) && i <= |steps| && states[i].open
    ensures 0 <= LastConnect(steps[..i]) < i
  {
    hide *;
    RunAt(states, steps, i);
    if i == 0 {
      StartClosed(states, steps);
    } else {
      RunAt(states, steps, i - 1);
      LastConnectStep(steps, i);
      if !steps[i - 1].Connect? {
        PhaseStep(states[i - 1], steps[i - 1]);
        OpenIsConnected(states, steps, i - 1);
      }
    }
  }

  lemma StartClosed(states: seq<State>, steps: seq<Step>)
    requires IsRun(states, steps)
    ensures !states[0].open
  {
  }

  lemma LastConnectStep(steps: seq<Step>, i: nat)
    requires 0 < i <= |steps|
    ensures LastConnect(steps[..i]) == if steps[i - 1].Connect? then i - 1 else LastConnect(steps[..i - 1])
  {
    Front(steps, i);
  }

  /** The DN has been undisturbed since the last connect. */
  ghost predicate UndisturbedNow(states: seq<State>, steps: seq<Step>, i: nat, x: DnName)
    requires i <= |steps| < |states|
  {
    var c := LastConnect(steps[..i]);
    c >= 0 && Undisturbed(states, steps, c, i, x)
  }

  lemma UndisturbedIsUnexposed(states: seq<State>, steps: seq<Step>, i: nat, x: DnName)
    requires IsRun(states, steps) && i <= |steps| && states[i].open && UndisturbedNow(states, steps, i, x)
    ensures x !in states[i].exposed
  {
    var c := LastConnect(steps[..i]);
    assert steps[..i][c] == steps[c];
    assert forall j :: c < j < i ==> steps[..i][j] == steps[j];
    UndisturbedIsQuiet(states, steps, c, i, x);
  }

  /** In every state of every run, an out-of-date DN that was undisturbed since the last connect is scheduled. */
  lemma OutOfDateIsScheduled(states: seq<State>, steps: seq<Step>, i: nat, x: DnName)
    requires IsRun(states, steps) && i <= |steps|
    requires states[i].sync && !states[i].restarting && UndisturbedNow(states, steps, i, x)
    requires !Wanted(states[i], x, Find(states[i].remote, x))
    ensures Scheduled(states[i], x)
  {
    ClosedIsUnsynced(states, steps, i);
    UndisturbedIsUnexposed(states, steps, i, x);
    UnexposedIsScheduled(states, steps, i, x);
  }

  /**
   A drained connection has the controller equal to the wanted state at every DN that was undisturbed since the
   last connect.
   */
  lemma DrainedIsSynced(states: seq<State>, steps: seq<Step>, i: nat, x: DnName)
    requires IsRun(states, steps) && i <= |steps|
    requires Drained(states[i]) && UndisturbedNow(states, steps, i, x)
    ensures Wanted(states[i], x, Find(states[i].remote, x))
  {
    ClosedIsUnsynced(states, steps, i);
    UndisturbedIsUnexposed(states, steps, i, x);
    UnexposedIsSynced(states, steps, i, x);
  }

  /** No notification is lost within a connection: its DN is queued, or in the worker's hand and unread. */
  lemma NotificationIsQueued(states: seq<State>, steps: seq<Step>, i: nat, x: DnName)
    requires IsRun(states, steps) && i <= |steps|
    requires states[i].open && x in states[i].pending && states[i].pending[x].Change? && x !in states[i].leftover
    ensures x in states[i].queue || states[i].worker == Got(x)
  {
    RunKeeps(states, steps, i);
    assert InvAt(states[i], x);
  }

  /**
   Only a newer notification or the worker's read replaces a notification; the clean-up after processing
   never does.
   */
  lemma NotificationSurvives(s: State, st: Step, x: DnName)
    requires Enabled(s, st) && x in s.pending && s.pending[x].Change?
    ensures || Find(Do(s, st).pending, x) == Some(s.pending[x])
            || (st.Read? && s.worker == Got(x))
            || (st.Notify? && s.wire[0].dn == x && Find(Do(s, st).pending, x) == Some(Change(s.wire[0].kind)))
  {
    hide Touched, Reindexed, Put;
    if st.Get? || st.Read? || st.Act? || st.Fail? || st.Refused? || st.Reconcile? || st.CleanUp? {
      WorkerKeepsNotification(s, st, x);
    } else {
      assert st.Write? || st.QueueDn? || st.Notify? || st.Edit? || st.Signal? || st.CloseConn? || st.Connect? ||
        st.FullSync?;
    }
  }

  lemma WorkerKeepsNotification(s: State, st: Step, x: DnName)
    requires Enabled(s, st)
    requires (st.Get? || st.Read? || st.Act? || st.Fail? || st.Refused? || st.Reconcile? || st.CleanUp?)
    requires x in s.pending && s.pending[x].Change?
    ensures Find(Do(s, st).pending, x) == Some(s.pending[x]) || (st.Read? && s.worker == Got(x))
  {
    hide Put;
    if st.Act? {
      ActMovesNothing(s, st.noticed);
    } else {
      assert st.Get? || st.Read? || st.Fail? || st.Refused? || st.Reconcile? || st.CleanUp?;
    }
  }

  // ----- The diff of childless objects, seen from here -----

  ghost predicate Childless(f: seq<Obj>) {
    forall i :: 0 <= i < |f| ==> f[i].children == []
  }

  ghost function Values(md: Schema, f: seq<Obj>): map<DnName, Val> {
    map x | x in (set i | 0 <= i < |f| :: Dn(f[i])) ::
      var o := Lookup(f, x).value; ApicDiff.Project(md, o.cls, o.attrs)
  }

  /** `Touched` is what the diff returns: a DN is updated or deleted exactly when its value changes. */
  lemma TouchedIsDiff(md: Schema, current: seq<Obj>, desired: seq<Obj>, x: DnName)
    requires SortedForest(current) && SortedForest(desired) && Childless(current) && Childless(desired)
    requires forall o :: o in current ==> ApicDiff.Deletable(md, o.cls)
    requires forall c, d :: c in current && d in desired && Dn(c) == Dn(d) ==> c.cls == d.cls
    ensures x in Touched(Values(md, current), Values(md, desired)) <==>
      || x in ApicDiff.ForestDeletes(md, {}, current, desired)
      || exists d :: d in ApicDiff.Updates(md, {}, current, desired) && Dn(d) == x
  {
    hide *;
    ApicDiff.ForestDeletesExact(md, {}, current, desired, x);
    DeletedTop(md, current, desired, x);
    UpdatedTop(md, current, desired, x);
    TouchedValues(md, current, desired, x);
    var c, d := Lookup(current, x), Lookup(desired, x);
    if c.Some? && d.Some? { assert c.value.cls == d.value.cls; }
  }

  lemma ValueIs(md: Schema, f: seq<Obj>, x: DnName)
    ensures var o := Lookup(f, x);
      Find(Values(md, f), x) == if o.Some? then Some(ApicDiff.Project(md, o.value.cls, o.value.attrs)) else None
  {
    hide ApicDiff.Project;
    var o := Lookup(f, x);
    if o.Some? { var i :| 0 <= i < |f| && f[i] == o.value; }
  }

  lemma TouchedValues(md: Schema, current: seq<Obj>, desired: seq<Obj>, x: DnName)
    ensures var c, d := Lookup(current, x), Lookup(desired, x);
      x in Touched(Values(md, current), Values(md, desired)) <==>
        || c.Some? != d.Some?
        || (c.Some? && d.Some? &&
            ApicDiff.Project(md, c.value.cls, c.value.attrs) != ApicDiff.Project(md, d.value.cls, d.value.attrs))
  {
    hide Values, ApicDiff.Project, Lookup;
    ValueIs(md, current, x);
    ValueIs(md, desired, x);
  }

  lemma UpdatedTop(md: Schema, current: seq<Obj>, desired: seq<Obj>, x: DnName)
    requires SortedForest(current) && SortedForest(desired) && Childless(current) && Childless(desired)
    requires forall c, d :: c in current && d in desired && Dn(c) == Dn(d) ==> c.cls == d.cls
    ensures var c, d := Lookup(current, x), Lookup(desired, x);
      (exists u :: u in ApicDiff.Updates(md, {}, current, desired) && Dn(u) == x) <==>
        && d.Some?
        && (c.Some? ==>
              ApicDiff.Project(md, c.value.cls, c.value.attrs) != ApicDiff.Project(md, c.value.cls, d.value.attrs))
  {
    var c, d := Lookup(current, x), Lookup(desired, x);
    forall u | u in desired && Dn(u) == x ensures d == Some(u) {
      var j :| 0 <= j < |desired| && desired[j] == u;
      LookupAt(desired, j);
    }
    forall u
      ensures u in ApicDiff.Updates(md, {}, current, desired) <==>
        u in desired && ApicDiff.NeedsUpdate(md, {}, current, u)
    {
      ApicDiff.UpdatesExact(md, {}, current, desired, u);
    }
    hide ApicDiff.Updates;
    if d.Some? && c.Some? { ApicDiff.AgreeIsSameProjection(md, c.value.cls, c.value.attrs, d.value.attrs); }
  }

  lemma DeletedTop(md: Schema, current: seq<Obj>, desired: seq<Obj>, x: DnName)
    requires SortedForest(current) && SortedForest(desired) && Childless(current)
    requires forall o :: o in current ==> ApicDiff.Deletable(md, o.cls)
    ensures ApicDiff.ForestDelete(md, {}, current, desired, x) <==> Lookup(current, x).Some? && Lookup(desired, x).None?
  {
    if ApicDiff.ForestDelete(md, {}, current, desired, x) {
      var i :| 0 <= i < |current| && ApicDiff.TopDelete(md, {}, current[i], desired, x);
      LookupAt(current, i);
    }
    if Lookup(current, x).Some? && Lookup(desired, x).None? {
      var i :| 0 <= i < |current| && current[i] == Lookup(current, x).value;
      assert ApicDiff.TopDelete(md, {}, current[i], desired, x);
    }
  }

  // ----- The index update of childless objects, seen from here -----

  function IndexValues(md: Schema, ix: map<DnName, Obj>): map<DnName, Val> {
    map x | x in ix :: ApicDiff.Project(md, ix[x].cls, ix[x].attrs)
  }

  lemma ChildlessDns(f: seq<Obj>, x: DnName)
    requires Childless(f)
    ensures x in Dns(f) <==> Lookup(f, x).Some?
  {
    if x in Dns(f) {
      var i := DnsFrom(f, x);
      assert Dns(f[i].children) == {};
    }
    if Lookup(f, x).Some? {
      var i :| 0 <= i < |f| && f[i] == Lookup(f, x).value;
      DnsAt(f, i);
    }
  }

  /** `Reindexed` is what a write does to the DN index: adding the new objects and removing what the diff deletes. */
  lemma WriteIsReindexed(scheme: DnIndex.Scheme, md: Schema, store: DnIndex.Store, ix: map<DnName, Obj>,
                         key: Key, objects: Option<seq<Obj>>)
    requires DnIndex.CoveredBy(scheme, store, ix) && DnIndex.MayWrite(scheme, store, key, objects)
    requires Childless(DnIndex.ObjectsOf(store, key)) && DnIndex.AllDeletable(md, DnIndex.ObjectsOf(store, key))
    requires objects.Some? ==> Childless(objects.value)
    ensures var before := DnIndex.ObjectsOf(store, key);
      var after := DnIndex.ObjectsOf(DnIndex.Written(store, key, objects), key);
      var deletes := DnIndex.AllDeletes(ix, ApicDiff.ForestDeletes(md, {}, before, after));
      IndexValues(md, DnIndex.RemoveList(DnIndex.AddAll(ix, after), deletes)) ==
        Reindexed(IndexValues(md, ix), Values(md, before), Values(md, after))
  {
    var before := DnIndex.ObjectsOf(store, key);
    var after := DnIndex.ObjectsOf(DnIndex.Written(store, key, objects), key);
    var deletes := DnIndex.AllDeletes(ix, ApicDiff.ForestDeletes(md, {}, before, after));
    var ix' := DnIndex.RemoveList(DnIndex.AddAll(ix, after), deletes);
    DnIndex.WrittenIndex(scheme, md, {}, store, ix, key, objects);
    DnIndex.DeletableTopClears(md, before, after);
    DnIndex.StoreParts(scheme, store, ix, key, objects);
    var now, then_ := IndexValues(md, ix'), Reindexed(IndexValues(md, ix), Values(md, before), Values(md, after));
    forall x ensures Find(now, x) == Find(then_, x) {
      ReindexedAt(md, ix, ix', before, after, x);
    }
    SameMaps(now, then_);
  }

  lemma SameMaps(a: map<DnName, Val>, b: map<DnName, Val>)
    requires forall x :: Find(a, x) == Find(b, x)
    ensures a == b
  {
    forall x ensures x in a <==> x in b { assert Find(a, x) == Find(b, x); }
    forall x | x in a ensures a[x] == b[x] { assert Find(a, x) == Find(b, x); }
  }

  lemma ReindexedAt(md: Schema, ix: map<DnName, Obj>, ix': map<DnName, Obj>, before: seq<Obj>, after: seq<Obj>,
                    x: DnName)
    requires Childless(before) && Childless(after) && DnIndex.Indexed(ix', after)
    requires forall y :: y in ix && y !in Dns(before) && y !in Dns(after) ==> y in ix' && ix'[y] == ix[y]
    requires ix'.Keys <= ix.Keys + Dns(after) && ix'.Keys !! Dns(before) - Dns(after)
    ensures Find(IndexValues(md, ix'), x) ==
      Find(Reindexed(IndexValues(md, ix), Values(md, before), Values(md, after)), x)
  {
    ValueIs(md, before, x);
    ValueIs(md, after, x);
    ChildlessDns(before, x);
    ChildlessDns(after, x);
    hide ApicDiff.Project, Values, Dns, Childless, Dn;
    var o := Lookup(after, x);
    if o.Some? {
      var i :| 0 <= i < |after| && after[i] == o.value;
      assert x in ix' && ix'[x] == after[i];
    } else if x in Dns(before) {
      assert x in Dns(before) - Dns(after) && x !in ix';
    } else {
      assert x in ix' ==> x in ix.Keys + Dns(after);
      assert x in ix' <==> x in ix;
    }
    hide DnIndex.Indexed, Lookup;
    ReindexedIs(IndexValues(md, ix), Values(md, before), Values(md, after), x);
  }

  lemma ReindexedIs(index: map<DnName, Val>, old_: map<DnName, Val>, new_: map<DnName, Val>, x: DnName)
    ensures Find(Reindexed(index, old_, new_), x) ==
      if x in new_ then Some(new_[x]) else if x in old_ then None else Find(index, x)
  {
  }

  // ----- Exactly when one pass over a DN misses -----

  /** The worker takes `x`, reads, acts and reconciles with nobody else in between. */
  /** The step finds `x` other than it should be. */
  ghost predicate Reports(s: State, st: Step, x: DnName)
    requires Enabled(s, st)
  {
    match st
    case Write(key, objects) =>
      s.sync && Find(ObjectsOf(s, key), x) != (if objects.Some? then Find(objects.value, x) else None)
    case Reconcile => s.sync && x == s.worker.dn && s.worker.got.Some? && Find(s.index, x) != s.worker.got
    case FullSync => Find(s.cached.value, x) != Find(s.index, x)
    case _ => false
  }

  /**
   Nothing is done without a reason: a DN is marked for the queue exactly when a step reports it; it is queued by
   that mark, by a notification or by a refused POST of it; and only an edit, or the worker's request, changes the
   controller.
   */
  lemma NothingWithoutReason(s: State, st: Step, x: DnName)
    requires Enabled(s, st)
    ensures !st.QueueDn? ==> (x in Do(s, st).toQueue <==> x in s.toQueue || Reports(s, st, x))
    ensures x in Do(s, st).queue && x !in s.queue ==>
      s.open &&
      ((st.QueueDn? && st.dn == x) || (st.Notify? && s.wire[0].dn == x) || (st.Refused? && s.worker.dn == x))
    ensures Find(Do(s, st).remote, x) != Find(s.remote, x) ==>
      (st.Edit? && st.edn == x) || (st.Act? && s.worker.dn == x && Find(Do(s, st).remote, x) == s.worker.want)
  {
    if IsWorkers(st) {
      WorkersReason(s, st, x);
    } else if st.Edit? {
      ChangeIs(s, st.edn, st.value, st.noticed);
      ChangeElsewhere(s, st.edn, st.value, st.noticed, x);
      hide ChangeRemote;
    } else {
      hide ChangeRemote, Reindexed;
      assert st.Write? || st.QueueDn? || st.Notify? || st.Signal? || st.CloseConn? || st.Connect? || st.FullSync?;
    }
  }

  lemma ChangeElsewhere(s: State, y: DnName, v: Option<Val>, noticed: bool, x: DnName)
    ensures x != y ==> Find(ChangeRemote(s, y, v, noticed).remote, x) == Find(s.remote, x)
  {
  }

  lemma WorkersReason(s: State, st: Step, x: DnName)
    requires Enabled(s, st) && IsWorkers(st)
    ensures x in Do(s, st).toQueue <==> x in s.toQueue || Reports(s, st, x)
    ensures x in Do(s, st).queue && x !in s.queue ==> s.open && st.Refused? && s.worker.dn == x
    ensures Find(Do(s, st).remote, x) != Find(s.remote, x) ==>
      st.Act? && s.worker.dn == x && Find(Do(s, st).remote, x) == s.worker.want
  {
    hide Put;
    if st.Act? {
      ActIs(s, st.noticed);
      ChangeIs(s, s.worker.dn, s.worker.want, st.noticed);
      ChangeElsewhere(s, s.worker.dn, s.worker.want, st.noticed, x);
      hide ChangeRemote, Do, Find;
    } else {
      hide ChangeRemote;
      assert st.Get? || st.Read? || st.Fail? || st.Refused? || st.Reconcile? || st.CleanUp?;
    }
  }

  function OnePass(s: State, x: DnName): State
    requires s.open && Enabled(s, Get(x))
  {
    var t := Do(Do(Do(s, Get(x)), Read), Act(true));
    if t.worker.Fetched? then Do(t, Reconcile) else t
  }

  /**
   The entry found says "updated" of a wanted object that is gone, or "deleted" (or the marker) of an
   unwanted one that is there.
   */
  predicate Misleading(s: State, x: DnName) {
    x in s.pending &&
    if s.pending[x] == Change(Updated) then x in s.index && x !in s.remote
    else x !in s.index && x in s.remote
  }

  /** One undisturbed pass settles `x` or queues it again, exactly when the entry it finds is not misleading. */
  lemma OnePassSettles(s: State, x: DnName)
    requires s.open && s.sync && Enabled(s, Get(x)) && x !in s.toQueue
    ensures var t := OnePass(s, x);
      (Find(t.remote, x) == Find(t.index, x) || x in t.toQueue) <==> !Misleading(s, x)
  {
    var r := Do(Do(s, Get(x)), Read);
    PassReads(s, x);
    assert OnePass(s, x) == var t := Do(r, Act(true)); if t.worker.Fetched? then Do(t, Reconcile) else t;
    hide OnePass;
    PassActs(r);
  }

  lemma PassReads(s: State, x: DnName)
    requires s.open && Enabled(s, Get(x))
    ensures var r := Do(Do(s, Get(x)), Read);
      && r.worker == Took(x, Find(s.index, x), r.worker.seen) && r.sync == s.sync && r.open && r.cached == s.cached
      && r.remote == s.remote && r.index == s.index && r.toQueue == s.toQueue
      && r.worker.seen == (if x !in s.pending then None
                           else Some(if s.pending[x].Change? then s.pending[x].kind else Deleted))
  {
  }

  lemma KindIs(k: Option<Kind>)
    ensures k == None || k == Some(Updated) || k == Some(Deleted)
  {
    if k.Some? { assert k.value.Updated? || k.value.Deleted?; }
  }

  lemma PassActs(r: State)
    requires r.open && r.sync && r.worker.Took?
    requires r.worker.want == Find(r.index, r.worker.dn) && r.worker.dn !in r.toQueue
    ensures var t := Do(r, Act(true)); var u := if t.worker.Fetched? then Do(t, Reconcile) else t; var x := r.worker.dn;
      (Find(u.remote, x) == Find(u.index, x) || x in u.toQueue) <==>
        match r.worker.seen
        case None => true
        case Some(Updated) => !(x in r.index && x !in r.remote)
        case Some(Deleted) => !(x !in r.index && x in r.remote)
  {
    hide Put, ChangeRemote;
    var x, t := r.worker.dn, Do(r, Act(true));
    if r.worker.seen == Some(Updated) {
      assert t == r.(worker := Fetched(x, Find(r.remote, x)));
    } else if r.worker.want.None? && r.worker.seen == Some(Deleted) {
      assert t == r.(worker := Cleaning(x));
    } else {
      ChangeIs(r, x, r.worker.want, true);
      assert t == ChangeRemote(r, x, r.worker.want, true).(worker := Cleaning(x));
      KindIs(r.worker.seen);
    }
  }

  /** A pass over a DN that is as wanted, such as the echo of our own POST, changes nothing and queues nothing. */
  lemma InSyncPassIsIdle(s: State, x: DnName)
    requires s.open && Enabled(s, Get(x)) && Find(s.remote, x) == Find(s.index, x)
    ensures var t := OnePass(s, x);
      && t.remote == s.remote && t.wire == s.wire && t.index == s.index
      && t.toQueue == s.toQueue && t.queue == s.queue - {x}
  {
    var r := Do(Do(s, Get(x)), Read);
    PassReads(s, x);
    assert r.wire == s.wire && r.queue == s.queue - {x};
    assert OnePass(s, x) == var t := Do(r, Act(true)); if t.worker.Fetched? then Do(t, Reconcile) else t;
    hide OnePass;
    ActIs(r, true);
    assert r.worker.want == Find(r.remote, x);
    hide Find, Put;
  }

  /** The entry makes the worker leave `x` as it is. */
  predicate Idles(s: State, x: DnName) {
    x in s.pending && (s.pending[x] == Change(Updated) || x !in s.index)
  }

  /**
   A pass before the full sync, followed by the full sync, settles `x` or queues it, exactly unless
   the pass left `x` alone although it is out of date and the snapshot had it right.
   */
  lemma EarlyPassSettles(s: State, x: DnName)
    requires s.open && !s.sync && s.cached.Some? && Enabled(s, Get(x)) && x !in s.toQueue
    ensures Enabled(OnePass(s, x), FullSync)
    ensures var t := Do(OnePass(s, x), FullSync);
      (Find(t.remote, x) == Find(t.index, x) || x in t.toQueue) <==>
        !(Idles(s, x) && Find(s.cached.value, x) == Find(s.index, x) && Find(s.remote, x) != Find(s.index, x))
  {
    var r := Do(Do(s, Get(x)), Read);
    PassReads(s, x);
    assert OnePass(s, x) == var t := Do(r, Act(true)); if t.worker.Fetched? then Do(t, Reconcile) else t;
    hide OnePass, Do;
    KindIs(r.worker.seen);
    EarlyPassActs(r);
    EarlyFullSync(OnePass(s, x), x);
  }

  lemma EarlyPassActs(r: State)
    requires r.open && !r.sync && r.worker.Took? && r.worker.want == Find(r.index, r.worker.dn)
    ensures var t := Do(r, Act(true)); var u := if t.worker.Fetched? then Do(t, Reconcile) else t; var x := r.worker.dn;
      && u.index == r.index && u.toQueue == r.toQueue && u.cached == r.cached && u.open && !u.sync
      && (if r.worker.seen == Some(Updated) || (r.worker.seen == Some(Deleted) && x !in r.index)
          then u.remote == r.remote else Find(u.remote, x) == Find(u.index, x))
  {
    hide Put, ChangeRemote;
    var x, t := r.worker.dn, Do(r, Act(true));
    if r.worker.seen == Some(Updated) {
      assert t == r.(worker := Fetched(x, Find(r.remote, x)));
    } else if r.worker.want.None? && r.worker.seen == Some(Deleted) {
      assert t == r.(worker := Cleaning(x));
    } else {
      ChangeIs(r, x, r.worker.want, true);
      assert t == ChangeRemote(r, x, r.worker.want, true).(worker := Cleaning(x));
    }
  }

  lemma EarlyFullSync(u: State, x: DnName)
    requires u.open && !u.sync && u.cached.Some? && x !in u.toQueue
    ensures var t := Do(u, FullSync);
      && t.remote == u.remote && t.index == u.index
      && (x in t.toQueue <==> Find(u.cached.value, x) != Find(u.index, x))
  {
  }

  // ----- Runs that lose an object -----

  ghost predicate Reachable(s: State) {
    exists states, steps :: IsRun(states, steps) && states[|steps|] == s
  }

  lemma Next(s: State, st: Step, t: State)
    requires Reachable(s) && Enabled(s, st) && Do(s, st) == t
    ensures Reachable(t)
  {
    var states, steps :| IsRun(states, steps) && states[|steps|] == s;
    hide Do, Enabled;
    var states', steps' := states + [t], steps + [st];
    assert IsRun(states', steps') && states'[|steps'|] == t;
  }

  /** The connection has drained and `x` is not what it should be. */
  ghost predicate Lost(s: State, x: DnName) {
    Drained(s) && !Wanted(s, x, Find(s.remote, x))
  }

  const V := ApicDiff.Projection(map[], Str("v"))
  const U := ApicDiff.Projection(map[], Str("u"))

  /** A key wants `w` at `x`, the controller holds `r`, and the connection has taken its snapshot. */
  function Connected(k: Key, x: DnName, w: Val, r: Val): State {
    State(map[k := map[x := w]], map[x := w], map[x := r], {}, multiset{}, Idle, true, false, false,
          Some(map[x := r]), map[], [], {}, {})
  }

  lemma ReachConnected(k: Key, x: DnName, w: Val, r: Val)
    ensures Reachable(Connected(k, x, w, r))
  {
    var s := State(map[], map[], map[x := r], {}, multiset{}, Idle, false, false, false, None, map[], [], {}, {});
    var none: seq<Step> := [];
    assert IsRun([s], none) && [s][|none|] == s;
    hide Reachable;
    var t := s.(desired := map[k := map[x := w]], index := map[x := w]);
    Next(s, Write(k, Some(map[x := w])), t);
    Next(t, Connect, Connected(k, x, w, r));
  }

  lemma EditQueued(k: Key, x: DnName)
    ensures Reachable(Connected(k, x, V, V).(remote := map[x := U], pending := map[x := Change(Updated)], queue := {x}))
  {
    hide Reachable;
    ReachConnected(k, x, V, V);
    var a := Connected(k, x, V, V);
    var b := a.(remote := map[x := U], wire := [Note(x, Updated)]);
    Next(a, Edit(x, Some(U), true), b);
    Next(b, Notify, b.(wire := [], pending := map[x := Change(Updated)], queue := {x}));
  }

  /** An administrator changes the object, and the worker takes the notification before the full sync. */
  lemma TakesEdit(k: Key, x: DnName)
    ensures Reachable(Connected(k, x, V, V).(remote := map[x := U], pending := map[x := Dirty],
                                             worker := Took(x, Some(V), Some(Updated)), exposed := {x}))
  {
    EditQueued(k, x);
    hide Reachable;
    var c := Connected(k, x, V, V).(remote := map[x := U], pending := map[x := Change(Updated)], queue := {x});
    var d := c.(queue := {}, worker := Got(x));
    Next(c, Get(x), d);
    Next(d, Read, d.(pending := map[x := Dirty], worker := Took(x, Some(V), Some(Updated)), exposed := {x}));
  }

  /** An edit noticed and reconciled before the full sync goes unseen: the snapshot already agreed. */
  lemma LostBeforeFullSync(k: Key, x: DnName) returns (s: State)
    ensures Reachable(s) && Lost(s, x)
  {
    TakesEdit(k, x);
    hide Reachable;
    var a := Connected(k, x, V, V).(remote := map[x := U], pending := map[x := Dirty],
                                    worker := Took(x, Some(V), Some(Updated)), exposed := {x});
    var b := a.(worker := Fetched(x, Some(U)));
    Next(a, Act(true), b);
    var c := a.(worker := Cleaning(x));
    Next(b, Reconcile, c);
    var d := c.(worker := Idle, pending := map[]);
    Next(c, CleanUp, d);
    s := d.(sync := true);
    assert Touched(map[x := V], map[x := V]) == {};
    Next(d, FullSync, s);
    assert Owns(s.desired, k, x) && s.desired[k][x] == V;
  }

  /** The connection is back; the object is gone, and an old notification says it was changed. */
  function Returned(k: Key, x: DnName): State {
    Connected(k, x, V, V).(remote := map[], cached := Some(map[]), leftover := {x},
                           pending := map[x := Change(Updated)])
  }

  /** A notification is read after the old queue is gone; then the object is deleted and the connection comes back. */
  lemma Leftover(k: Key, x: DnName)
    ensures Reachable(Returned(k, x))
  {
    hide Reachable;
    ReachConnected(k, x, V, V);
    var a := Connected(k, x, V, V);
    var b := a.(remote := map[x := U], wire := [Note(x, Updated)]);
    Next(a, Edit(x, Some(U), true), b);
    var c := b.(restarting := true);
    Next(b, Signal, c);
    var d := c.(open := false, cached := None);
    Next(c, CloseConn, d);
    LeftoverReturns(d, k, x);
  }

  lemma LeftoverReturns(d: State, k: Key, x: DnName)
    requires Reachable(d)
    requires d == Connected(k, x, V, V).(remote := map[x := U], wire := [Note(x, Updated)], restarting := true,
                                         open := false, cached := None)
    ensures Reachable(Returned(k, x))
  {
    hide Reachable;
    var e := d.(wire := [], pending := map[x := Change(Updated)]);
    Next(d, Notify, e);
    var f := e.(remote := map[]);
    Next(e, Edit(x, None, false), f);
    Next(f, Connect, f.(open := true, restarting := false, cached := Some(map[]), leftover := {x}));
  }

  lemma LeftoverFound(k: Key, x: DnName)
    ensures Reachable(Returned(k, x).(sync := true, toQueue := multiset{x}))
  {
    Leftover(k, x);
    hide Reachable;
    assert Touched(map[], map[x := V]) == {x};
    Next(Returned(k, x), FullSync, Returned(k, x).(sync := true, toQueue := multiset{x}));
  }

  /** The full sync queues the missing object. */
  lemma LeftoverQueued(k: Key, x: DnName)
    ensures Reachable(Returned(k, x).(sync := true, queue := {x}))
  {
    LeftoverFound(k, x);
    hide Reachable;
    var b := Returned(k, x).(sync := true, toQueue := multiset{x});
    Next(b, QueueDn(x), b.(toQueue := multiset{}, queue := {x}));
  }

  /** The worker takes the old notification for news, fetches an object that is gone, and restores nothing. */
  lemma LostByLeftover(k: Key, x: DnName) returns (s: State)
    ensures Reachable(s) && Lost(s, x)
  {
    LeftoverQueued(k, x);
    hide Reachable;
    var a := Returned(k, x).(sync := true, queue := {x});
    var b := a.(queue := {}, worker := Got(x));
    Next(a, Get(x), b);
    var c := b.(pending := map[x := Dirty], worker := Took(x, Some(V), Some(Updated)), exposed := {x}, leftover := {});
    Next(b, Read, c);
    var d := c.(worker := Fetched(x, None));
    Next(c, Act(true), d);
    var e := d.(worker := Cleaning(x));
    Next(d, Reconcile, e);
    s := e.(worker := Idle, pending := map[]);
    Next(e, CleanUp, s);
    assert Owns(s.desired, k, x) && s.desired[k][x] == V;
  }

  lemma OutOfDateFound(k: Key, x: DnName)
    ensures Reachable(Connected(k, x, V, U).(sync := true, toQueue := multiset{x}))
  {
    hide Reachable;
    ReachConnected(k, x, V, U);
    assert Touched(map[x := U], map[x := V]) == {x};
    Next(Connected(k, x, V, U), FullSync, Connected(k, x, V, U).(sync := true, toQueue := multiset{x}));
  }

  lemma OutOfDateQueued(k: Key, x: DnName)
    ensures Reachable(Connected(k, x, V, U).(sync := true, queue := {x}))
  {
    hide Reachable;
    OutOfDateFound(k, x);
    var b := Connected(k, x, V, U).(sync := true, toQueue := multiset{x});
    Next(b, QueueDn(x), b.(toQueue := multiset{}, queue := {x}));
  }

  /** A POST is answered 400; its marker stays. */
  lemma MarkerStays(k: Key, x: DnName)
    ensures Reachable(Connected(k, x, V, U).(sync := true, queue := {x}, pending := map[x := Dirty]))
  {
    OutOfDateQueued(k, x);
    hide Reachable;
    var c := Connected(k, x, V, U).(sync := true, queue := {x});
    var d := c.(queue := {}, worker := Got(x));
    Next(c, Get(x), d);
    var e := d.(pending := map[x := Dirty], worker := Took(x, Some(V), None));
    Next(d, Read, e);
    Next(e, Refused, e.(worker := Idle, queue := {x}));
  }

  /** When the key is then cleared, the marker reads as a deletion already done. */
  lemma LostByRefusedPost(k: Key, x: DnName) returns (s: State)
    ensures Reachable(s) && Lost(s, x)
  {
    MarkerStays(k, x);
    hide Reachable;
    var a := Connected(k, x, V, U).(sync := true, queue := {x}, pending := map[x := Dirty]);
    var b := a.(desired := map[], index := map[], toQueue := multiset{x});
    assert Touched(map[x := V], map[]) == {x};
    Next(a, Write(k, None), b);
    var c := b.(toQueue := multiset{});
    Next(b, QueueDn(x), c);
    s := SkipDelete(c, x);
  }

  lemma SkipDelete(c: State, x: DnName) returns (s: State)
    requires Reachable(c) && c.open && c.sync && !c.restarting
    requires c.queue == {x} && c.toQueue == multiset{} && c.wire == []
    requires c.desired == map[] && c.index == map[] && c.remote == map[x := U]
    requires c.pending == map[x := Dirty] && c.worker == Idle
    ensures Reachable(s) && Lost(s, x)
  {
    hide Reachable;
    var d := c.(queue := {}, worker := Got(x));
    Next(c, Get(x), d);
    var e := d.(worker := Took(x, None, Some(Deleted)), exposed := d.exposed + {x}, leftover := d.leftover - {x});
    Next(d, Read, e);
    var f := e.(worker := Cleaning(x));
    Next(e, Act(true), f);
    s := f.(worker := Idle, pending := map[]);
    Next(f, CleanUp, s);
  }
}
