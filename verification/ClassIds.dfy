/**
 The GBP server's persistent class-id allocator (pkg/gbpserver/server.go:322-375,
 pkg/gbpserver/gbp.go:35-50). Random draws, the outcome of each write to the state driver and
 restarts are inputs.

 Main results: in every run ids are unique, in use exactly when assigned, inside their range,
 and their encapsulation ids are distinct 32-bit numbers (`RunIsGood`, `EncapsAreDistinct`) —
 even when writes fail; a step takes a URI's class away exactly when it frees the URI or
 restarts from a saved state without it (`KeepsClassIff`). From any state on, a URI keeps its class
 exactly if it is not freed and every restart comes after a write that succeeded (`KeptIff`).
 */
module ClassIds {
  import opened ApicTypes

  const NUM_CLASS_IDS := 32000
  const FIRST_CLASS_ID := 32000
  const RD_CLASS_ID := 31999
  const FIRST_ENCAP_ID := 7700000
  const MAX_ATTEMPTS := 4096

  function EncapFromClass(class_: int): int {
    FIRST_ENCAP_ID + class_
  }

  /** int32(x): what AddProperty stores of an unsigned value. */
  function ToInt32(x: int): int {
    var m := x % 0x1_0000_0000;
    if m < 0x8000_0000 then m else m - 0x1_0000_0000
  }

  type Classes = map<string, int>

  /** instToClassID, usedClassIDs and what the state driver holds. */
  datatype State = State(inst: Classes, used: set<int>, saved: Classes)

  ghost predicate GoodClasses(m: Classes) {
    && (forall u :: u in m ==> FIRST_CLASS_ID <= m[u] < FIRST_CLASS_ID + NUM_CLASS_IDS)
    && (forall u, v :: u in m && v in m && m[u] == m[v] ==> u == v)
  }

  ghost predicate Good(s: State) {
    && GoodClasses(s.inst) && GoodClasses(s.saved)
    && (forall c :: c in s.used <==> exists u :: u in s.inst && s.inst[u] == c)
  }

  /** The first draw that hits an unused class, within the attempts allowed. */
  function Draw(used: set<int>, draws: seq<nat>): Option<int> {
    if draws == [] then None
    else if draws[0] + FIRST_CLASS_ID !in used then Some(draws[0] + FIRST_CLASS_ID)
    else Draw(used, draws[1..])
  }

  predicate Draws(draws: seq<nat>) {
    |draws| == MAX_ATTEMPTS && forall i :: 0 <= i < |draws| ==> draws[i] < NUM_CLASS_IDS
  }

  datatype Step =
    | Allocate(uri: string, draws: seq<nat>, written: bool)   // getEncapClass
    | Free(uri: string, written: bool)                        // freeEncapClass
    | Restart                                                 // a new server runs InitState

  predicate Enabled(st: Step) {
    st.Allocate? ==> Draws(st.draws)
  }

  function Persist(s: State, written: bool): State {
    if written then s.(saved := s.inst) else s
  }

  /** An allocation that finds no free class is fatal; the state that survives it is what a restart then reads. */
  function Do(s: State, st: Step): State {
    match st
    case Allocate(uri, draws, written) =>
      if uri in s.inst then s
      else
        (match Draw(s.used, draws)
         case None => s
         case Some(c) => Persist(s.(inst := s.inst[uri := c], used := s.used + {c}), written))
    case Free(uri, written) =>
      // the zero value of a missing URI is no class id
      var c := if uri in s.inst then s.inst[uri] else 0;
      Persist(s.(inst := s.inst - {uri}, used := s.used - {c}), written)
    case Restart =>
      State(s.saved, set u | u in s.saved :: s.saved[u], s.saved)
  }

  lemma {:induction false} DrawIs(used: set<int>, draws: seq<nat>)
    requires forall i :: 0 <= i < |draws| ==> draws[i] < NUM_CLASS_IDS
    ensures var c := Draw(used, draws);
      c.Some? ==> c.value !in used && FIRST_CLASS_ID <= c.value < FIRST_CLASS_ID + NUM_CLASS_IDS
  {
    if draws != [] { DrawIs(used, draws[1..]); }
  }

  lemma StepKeeps(s: State, st: Step)
    requires Good(s) && Enabled(st)
    ensures Good(Do(s, st))
  {
    match st
    case Allocate(uri, draws, written) =>
      DrawIs(s.used, draws);
      var c := Draw(s.used, draws);
      if uri !in s.inst && c.Some? { AllocateKeeps(s, uri, c.value, written); }
    case Free(uri, written) => FreeKeeps(s, uri, written);
    case Restart =>
      forall c ensures c in Do(s, st).used <==> exists u :: u in s.saved && s.saved[u] == c {}
  }

  lemma AllocateKeeps(s: State, uri: string, c: int, written: bool)
    requires Good(s) && uri !in s.inst && c !in s.used && FIRST_CLASS_ID <= c < FIRST_CLASS_ID + NUM_CLASS_IDS
    ensures Good(Persist(s.(inst := s.inst[uri := c], used := s.used + {c}), written))
  {
    var m := s.inst[uri := c];
    forall d ensures d in s.used + {c} <==> exists u :: u in m && m[u] == d {
      if d in s.used {
        var u :| u in s.inst && s.inst[u] == d;
        assert u in m && m[u] == d;
      }
      if d == c { assert uri in m && m[uri] == d; }
    }
  }

  lemma FreeKeeps(s: State, uri: string, written: bool)
    requires Good(s)
    ensures Good(Do(s, Free(uri, written)))
  {
    var c := if uri in s.inst then s.inst[uri] else 0;
    var m := s.inst - {uri};
    forall d ensures d in s.used - {c} <==> exists u :: u in m && m[u] == d {
      if d in s.used - {c} {
        var u :| u in s.inst && s.inst[u] == d;
        assert u in m && m[u] == d;
      }
    }
  }

  ghost predicate IsRun(states: seq<State>, steps: seq<Step>) {
    && |states| == |steps| + 1 && states[0] == State(map[], {}, map[])
    && forall i :: 0 <= i < |steps| ==> Enabled(steps[i]) && states[i + 1] == Do(states[i], steps[i])
  }

  /** In every run: ids unique and in range, and a class is marked used exactly when a URI has it. */
  lemma {:induction false} RunIsGood(states: seq<State>, steps: seq<Step>, i: nat)
    requires IsRun(states, steps) && i <= |steps|
    ensures Good(states[i])
  {
    if i > 0 {
      RunIsGood(states, steps, i - 1);
      StepKeeps(states[i - 1], steps[i - 1]);
    }
  }

  /**
   Encapsulation ids are distinct, survive the conversion to 32 bits, and the routing domain's class is
   never given out.
   */
  lemma EncapsAreDistinct(states: seq<State>, steps: seq<Step>, i: nat, u: string, v: string)
    requires IsRun(states, steps) && i <= |steps| && u in states[i].inst && v in states[i].inst
    ensures ToInt32(EncapFromClass(states[i].inst[u])) == EncapFromClass(states[i].inst[u])
    ensures EncapFromClass(states[i].inst[u]) == 7700000 + states[i].inst[u]
    ensures 32000 <= states[i].inst[u] < 64000 && states[i].inst[u] != RD_CLASS_ID
    ensures u != v ==> ToInt32(EncapFromClass(states[i].inst[u])) != ToInt32(EncapFromClass(states[i].inst[v]))
  {
    RunIsGood(states, steps, i);
    assert GoodClasses(states[i].inst);
  }

  function ClassOf(s: State, uri: string): Option<int> {
    if uri in s.inst then Some(s.inst[uri]) else None
  }

  /**
   A URI loses or changes its class exactly when it is freed, or when a restart reads a state that was saved
   without it.
   */
  lemma KeepsClassIff(s: State, st: Step, uri: string)
    requires Good(s) && Enabled(st) && uri in s.inst
    ensures ClassOf(Do(s, st), uri) == ClassOf(s, uri) <==>
      !(st.Free? && st.uri == uri) && (st.Restart? ==> uri in s.saved && s.saved[uri] == s.inst[uri])
  {
  }

  /** The step writes the state, and the driver takes it; an allocation for a known URI writes nothing. */
  predicate Saves(s: State, st: Step) {
    match st
    case Allocate(uri, draws, written) => written && uri !in s.inst && Draw(s.used, draws).Some?
    case Free(_, written) => written
    case Restart => false
  }

  /** What is saved for the URI is what it has. */
  predicate IsSaved(s: State, uri: string) {
    uri in s.inst && uri in s.saved && s.saved[uri] == s.inst[uri]
  }

  ghost predicate KeepsClassUpTo(states: seq<State>, i: nat, j: nat, uri: string)
    requires i <= j < |states|
  {
    forall k :: i <= k <= j ==> ClassOf(states[k], uri) == ClassOf(states[i], uri)
  }

  /** The class was saved before, or some step since then saved it. */
  ghost predicate SavedSince(states: seq<State>, steps: seq<Step>, i: nat, k: nat, uri: string)
    requires i <= k <= |steps| < |states|
  {
    IsSaved(states[i], uri) || exists m :: i <= m < k && Saves(states[m], steps[m])
  }

  lemma {:induction false} IsSavedIff(states: seq<State>, steps: seq<Step>, i: nat, k: nat, uri: string)
    requires IsRun(states, steps) && i <= k <= |steps| && uri in states[i].inst
    requires KeepsClassUpTo(states, i, k, uri)
    ensures IsSaved(states[k], uri) <==> SavedSince(states, steps, i, k, uri)
    decreases k
  {
    if i < k {
      IsSavedIff(states, steps, i, k - 1, uri);
      var s, st := states[k - 1], steps[k - 1];
      assert ClassOf(states[k - 1], uri) == ClassOf(states[i], uri) == ClassOf(states[k], uri);
      assert states[k] == Do(s, st);
      assert IsSaved(Do(s, st), uri) <==> IsSaved(s, uri) || Saves(s, st);
    }
  }

  /** The step does not free the URI and does not restart before its class is saved. */
  ghost predicate Spares(states: seq<State>, steps: seq<Step>, i: nat, k: nat, uri: string)
    requires i <= k < |steps| < |states|
  {
    !(steps[k].Free? && steps[k].uri == uri) && (steps[k].Restart? ==> SavedSince(states, steps, i, k, uri))
  }

  /**
   From any state on, a URI keeps its class if and only if no step frees it and every restart comes after a
   write that reached the driver.
   */
  lemma {:induction false} KeptIff(states: seq<State>, steps: seq<Step>, i: nat, j: nat, uri: string)
    requires IsRun(states, steps) && i <= j <= |steps| && uri in states[i].inst
    ensures KeepsClassUpTo(states, i, j, uri) <==> forall k :: i <= k < j ==> Spares(states, steps, i, k, uri)
    decreases j
  {
    if i < j {
      KeptIff(states, steps, i, j - 1, uri);
      RunIsGood(states, steps, j - 1);
      if KeepsClassUpTo(states, i, j - 1, uri) {
        KeptStep(states, steps, i, j - 1, uri);
      }
      hide *;
      KeepsOneMore(states, i, j, uri);
    }
  }

  lemma KeptStep(states: seq<State>, steps: seq<Step>, i: nat, k: nat, uri: string)
    requires IsRun(states, steps) && i <= k < |steps| && uri in states[i].inst
    requires Good(states[k]) && KeepsClassUpTo(states, i, k, uri)
    ensures ClassOf(states[k + 1], uri) == ClassOf(states[i], uri) <==> Spares(states, steps, i, k, uri)
  {
    IsSavedIff(states, steps, i, k, uri);
    assert ClassOf(states[k], uri) == ClassOf(states[i], uri);
    KeepsClassIff(states[k], steps[k], uri);
  }

  lemma KeepsOneMore(states: seq<State>, i: nat, j: nat, uri: string)
    requires i < j < |states|
    ensures KeepsClassUpTo(states, i, j, uri) <==>
      KeepsClassUpTo(states, i, j - 1, uri) && ClassOf(states[j], uri) == ClassOf(states[i], uri)
  {
  }

  /** A URI whose class was written keeps it over any number of restarts until it is freed, whatever later writes do. */
  lemma KeptUntilFreed(states: seq<State>, steps: seq<Step>, i: nat, j: nat, uri: string)
    requires IsRun(states, steps) && i <= j <= |steps| && uri in states[i].inst
    requires forall k :: 0 <= k < i ==>
      (steps[k].Allocate? ==> steps[k].written) && (steps[k].Free? ==> steps[k].written)
    requires forall k :: i <= k < j ==> !(steps[k].Free? && steps[k].uri == uri)
    ensures ClassOf(states[j], uri) == ClassOf(states[i], uri)
  {
    SavedInStep(states, steps, i);
    assert forall k :: i <= k < j ==> Spares(states, steps, i, k, uri);
    KeptIff(states, steps, i, j, uri);
  }

  lemma {:induction false} SavedInStep(states: seq<State>, steps: seq<Step>, i: nat)
    requires IsRun(states, steps) && i <= |steps|
    requires forall k :: 0 <= k < i ==>
      (steps[k].Allocate? ==> steps[k].written) && (steps[k].Free? ==> steps[k].written)
    ensures states[i].saved == states[i].inst
  {
    if i > 0 { SavedInStep(states, steps, i - 1); }
  }

  /**
   The driver refuses the write of an allocation and the server ignores it: the restart has lost the class, and
   the next URI gets it.
   */
  lemma UnsavedClassIsGivenAgain(draws: seq<nat>) returns (states: seq<State>, steps: seq<Step>)
    requires Draws(draws)
    ensures IsRun(states, steps)
    ensures steps == [Allocate("/u", draws, false), Restart, Allocate("/v", draws, true)]
    ensures ClassOf(states[1], "/u").Some? && ClassOf(states[2], "/u") == None
    ensures ClassOf(states[3], "/v") == ClassOf(states[1], "/u")
  {
    var s0 := State(map[], {}, map[]);
    var s1 := Do(s0, Allocate("/u", draws, false));
    var s2 := Do(s1, Restart);
    states := [s0, s1, s2, Do(s2, Allocate("/v", draws, true))];
    steps := [Allocate("/u", draws, false), Restart, Allocate("/v", draws, true)];
    assert s2 == s0;
  }

  lemma AllocateIs(s: State, uri: string, draws: seq<nat>, written: bool)
    ensures Do(s, Allocate(uri, draws, written)) ==
      var c := Draw(s.used, draws);
      if uri in s.inst || c.None? then s
      else Persist(s.(inst := s.inst[uri := c.value], used := s.used + {c.value}), written)
  {
  }

  lemma DrawFrom(used: set<int>, draws: seq<nat>, i: nat)
    requires i < |draws|
    ensures Draw(used, draws[i..]) ==
      if draws[i] + FIRST_CLASS_ID !in used then Some(draws[i] + FIRST_CLASS_ID) else Draw(used, draws[i + 1..])
  {
    assert draws[i..][1..] == draws[i + 1..];
  }

  /** The class is that of the first draw that is not in use. */
  lemma {:induction false} DrawIsFirst(used: set<int>, draws: seq<nat>) returns (k: nat)
    requires Draw(used, draws).Some?
    ensures k < |draws| && Draw(used, draws) == Some(FIRST_CLASS_ID + draws[k]) && FIRST_CLASS_ID + draws[k] !in used
    ensures AllUsed(used, draws[..k])
  {
    if draws[0] + FIRST_CLASS_ID !in used {
      k := 0;
    } else {
      k := DrawIsFirst(used, draws[1..]);
      assert draws[..k + 1] == [draws[0]] + draws[1..][..k];
      k := k + 1;
    }
  }

  /** Every one of the draws hits a class in use. */
  predicate AllUsed(used: set<int>, draws: seq<nat>) {
    forall i :: 0 <= i < |draws| ==> draws[i] + FIRST_CLASS_ID in used
  }

  lemma {:induction false} DrawFailsIff(used: set<int>, draws: seq<nat>)
    ensures Draw(used, draws).None? <==> AllUsed(used, draws)
  {
    if draws != [] {
      DrawFailsIff(used, draws[1..]);
      assert draws == [draws[0]] + draws[1..];
    }
  }

  /** gbpserver.Server, restricted to class ids, with the driver's copy. */
  class Server {
    var usedClassIDs: set<int>
    var instToClassID: Classes
    var saved: Classes

    /** InitState: the maps are filled from what the driver returns. */
    constructor (saved: Classes)
      ensures State(instToClassID, usedClassIDs, this.saved) == Do(State(map[], {}, saved), Restart)
    {
      var used, inst: Classes, todo := {}, map[], saved.Keys;
      while todo != {}
        invariant todo <= saved.Keys && inst.Keys == saved.Keys - todo
        invariant forall u :: u in inst ==> inst[u] == saved[u]
        invariant used == set u | u in inst :: saved[u]
        decreases todo
      {
        var u :| u in todo;
        inst, used, todo := inst[u := saved[u]], used + {saved[u]}, todo - {u};
      }
      assert inst == saved;
      this.saved := saved;
      instToClassID, usedClassIDs := inst, used;
    }

    ghost function View(): State
      reads this
    {
      State(instToClassID, usedClassIDs, saved)
    }

    method WriteState(written: bool)
      modifies this`saved
      ensures View() == Persist(old(View()), written)
    {
      if written { saved := instToClassID; }
    }

    /** getEncapClass; `fatal` is the log.Fatalf after the last attempt. */
    method GetEncapClass(uri: string, draws: seq<nat>, written: bool) returns (encap: int, class_: int, fatal: bool)
      requires Good(View()) && Draws(draws)
      modifies this
      ensures View() == Do(old(View()), Allocate(uri, draws, written)) && Good(View())
      ensures fatal <==> uri !in old(instToClassID) && AllUsed(old(usedClassIDs), draws)
      ensures !fatal ==> ClassOf(View(), uri) == Some(class_) && encap == EncapFromClass(class_)
    {
      StepKeeps(View(), Allocate(uri, draws, written));
      AllocateIs(View(), uri, draws, written);
      DrawFailsIff(usedClassIDs, draws);
      assert Draw(usedClassIDs, []).None?;
      hide Good, Draw, Do, AllUsed;
      if uri in instToClassID {
        class_ := instToClassID[uri];
        return EncapFromClass(class_), class_, false;
      }
      for i := 0 to MAX_ATTEMPTS
        invariant View() == old(View())
        invariant Draw(old(usedClassIDs), draws) == Draw(old(usedClassIDs), draws[i..])
      {
        DrawFrom(usedClassIDs, draws, i);
        class_ := draws[i] + FIRST_CLASS_ID;
        if class_ !in usedClassIDs {
          usedClassIDs := usedClassIDs + {class_};
          instToClassID := instToClassID[uri := class_];
          WriteState(written);
          return EncapFromClass(class_), class_, false;
        }
      }
      assert draws[MAX_ATTEMPTS..] == [];
      return 0, 0, true;
    }

    method FreeEncapClass(uri: string, written: bool)
      requires Good(View())
      modifies this
      ensures View() == Do(old(View()), Free(uri, written)) && Good(View())
    {
      StepKeeps(View(), Free(uri, written));
      var class_ := if uri in instToClassID then instToClassID[uri] else 0;
      instToClassID := instToClassID - {uri};
      usedClassIDs := usedClassIDs - {class_};
      WriteState(written);
    }
  }
}
