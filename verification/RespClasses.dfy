/**
 The response classes of a subscription (pkg/apicapi/apicapi.go:1079-1108): all classes that
 can occur below the subscribed ones, found by a depth-first walk of the schema's class graph,
 which has cycles (fvRsBd and hostprotRule list themselves).
 */
module RespClasses {
  import opened ApicTypes

  function ChildrenOf(md: Schema, cls: string): seq<string> {
    if cls in md then md[cls].children else []
  }

  /** A path of the class graph. */
  ghost predicate IsPath(md: Schema, p: seq<string>) {
    p != [] && forall i :: 0 <= i < |p| - 1 ==> p[i + 1] in ChildrenOf(md, p[i])
  }

  ghost predicate Reachable(md: Schema, targets: seq<string>, cls: string) {
    exists p :: IsPath(md, p) && p[0] in targets && p[|p| - 1] == cls
  }

  lemma Direct(md: Schema, targets: seq<string>, cls: string)
    requires cls in targets
    ensures Reachable(md, targets, cls)
  {
    assert IsPath(md, [cls]) && [cls][0] in targets;
  }

  ghost predicate Closed(md: Schema, from: set<string>, into: set<string>) {
    forall c, d :: c in from && d in ChildrenOf(md, c) ==> d in into
  }

  /** A set that contains the targets and is closed under children contains everything reachable. */
  lemma {:induction false} ClosedHoldsPath(md: Schema, s: set<string>, p: seq<string>)
    requires Closed(md, s, s) && IsPath(md, p) && p[0] in s
    ensures p[|p| - 1] in s
  {
    if |p| > 1 {
      var q := p[..|p| - 1];
      assert IsPath(md, q);
      ClosedHoldsPath(md, s, q);
      assert p[|p| - 1] in ChildrenOf(md, p[|p| - 2]);
    }
  }

  /** All class names the walk can meet: the bound that makes it terminate. */
  ghost function Universe(md: Schema, targets: seq<string>): set<string> {
    (set c | c in targets) + (set k, c | k in md && c in md[k].children :: c)
  }

  /**
   doComputeRespClasses. Everything newly visited is reachable from the targets, and its
   children have been visited too.
   */
  method Visit(md: Schema, targets: seq<string>, visited: set<string>, ghost universe: set<string>)
    returns (r: set<string>)
    requires forall c :: c in targets ==> c in universe
    requires forall k, c :: k in md && c in md[k].children ==> c in universe
    ensures visited <= r <= visited + universe
    ensures forall c :: c in targets ==> c in r
    ensures Closed(md, r - visited, r)
    ensures forall c :: c in r - visited ==> Reachable(md, targets, c)
    decreases universe - visited, |targets|
  {
    r := visited;
    for i := 0 to |targets|
      invariant visited <= r <= visited + universe
      invariant forall k :: 0 <= k < i ==> targets[k] in r
      invariant Closed(md, r - visited, r)
      invariant forall c :: c in r - visited ==> Reachable(md, targets, c)
    {
      var cls := targets[i];
      if cls in r { continue; }
      r := r + {cls};
      Direct(md, targets, cls);
      if cls in md {
        assert universe - r < universe - visited;
        ghost var start := r;
        r := Visit(md, md[cls].children, r, universe);
        forall c | c in r - start ensures Reachable(md, targets, c) {
          FromChildren(md, targets, cls, c);
        }
      }
    }
  }

  lemma FromChildren(md: Schema, targets: seq<string>, cls: string, c: string)
    requires cls in targets && cls in md && Reachable(md, md[cls].children, c)
    ensures Reachable(md, targets, c)
  {
    var p :| IsPath(md, p) && p[0] in md[cls].children && p[|p| - 1] == c;
    var q := [cls] + p;
    assert IsPath(md, q) && q[0] in targets && q[|q| - 1] == c;
  }

  /** From an empty visited set the walk finds exactly the reachable classes. */
  lemma VisitedIsReachable(md: Schema, targets: seq<string>, r: set<string>)
    requires Closed(md, r, r) && (forall c :: c in targets ==> c in r)
    requires forall c :: c in r ==> Reachable(md, targets, c)
    ensures forall c :: c in r <==> Reachable(md, targets, c)
  {
    forall c | Reachable(md, targets, c) ensures c in r {
      var p :| IsPath(md, p) && p[0] in targets && p[|p| - 1] == c;
      ClosedHoldsPath(md, r, p);
    }
  }

  /**
   computeRespClasses: the reachable classes other than the targets, in any order and once
   each, followed by the tag class.
   */
  method ComputeRespClasses(md: Schema, targets: seq<string>) returns (classes: seq<string>)
    ensures |classes| > 0 && classes[|classes| - 1] == "tagAnnotation"
    ensures var found := classes[..|classes| - 1];
      && (forall c :: c in found <==> Reachable(md, targets, c) && c !in targets)
      && (forall i, j :: 0 <= i < j < |found| ==> found[i] != found[j])
  {
    ghost var universe := Universe(md, targets);
    var visited := Visit(md, targets, {}, universe);
    assert visited - {} == visited;
    VisitedIsReachable(md, targets, visited);
    hide *;
    var rest := Without(visited, targets);
    var found := Listed(rest);
    classes := found + ["tagAnnotation"];
    assert classes[..|classes| - 1] == found;
  }

  method Without(visited: set<string>, targets: seq<string>) returns (rest: set<string>)
    ensures forall c :: c in rest <==> c in visited && c !in targets
  {
    rest := visited;
    for i := 0 to |targets|
      invariant forall c :: c in rest <==> c in visited && c !in targets[..i]
    {
      rest := rest - {targets[i]};
    }
    assert targets[..|targets|] == targets;
  }

  /** A map's keys in the order a loop over it happens to meet them. */
  method Listed(keys: set<string>) returns (list: seq<string>)
    ensures forall c :: c in list <==> c in keys
    ensures forall i, j :: 0 <= i < j < |list| ==> list[i] != list[j]
  {
    list := [];
    var rest := keys;
    while rest != {}
      invariant rest <= keys && (forall c :: c in list <==> c in keys && c !in rest)
      invariant forall i, j :: 0 <= i < j < |list| ==> list[i] != list[j]
      decreases rest
    {
      var c :| c in rest;
      list := list + [c];
      rest := rest - {c};
    }
  }
}
