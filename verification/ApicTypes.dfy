/**
 APIC managed objects (pkg/apicapi/apic_types.go) and the schema table that drives their
 comparison (pkg/apicapi/apic_metadata.go).

 An object carries one class, its attributes and its children. Its distinguished name (DN)
 is the "dn" attribute, or the builder's hint when that attribute is missing or empty.
 */
module ApicTypes {

  datatype Option<+T> = None | Some(value: T)

  /** An attribute value: Go's `interface{}` restricted to the comparable values that occur. */
  datatype Value = Str(s: string) | Num(n: int) | Flag(b: bool)

  datatype Obj = Obj(cls: string, hintDn: string, attrs: map<string, Value>, children: seq<Obj>)

  datatype Normalizer =
    | NoNormalizer | RuleNormalizer | FilterEntryNormalizer | SvcPortNormalizer | RedirectDestNormalizer

  /** One row of the metadata table. */
  datatype Meta = Meta(hints: map<string, Value>, attributes: map<string, Value>, children: seq<string>,
    normalizer: Normalizer)

  type Schema = map<string, Meta>

  /** The string value of an attribute, "" when it is absent or not a string. */
  function AttrStr(o: Obj, name: string): string {
    if name in o.attrs && o.attrs[name].Str? then o.attrs[name].s else ""
  }

  function Dn(o: Obj): string {
    if AttrStr(o, "dn") == "" then o.hintDn else AttrStr(o, "dn")
  }

  /** The "dn" attribute names the object, whatever its hint; the hint does when there is none. */
  lemma NameIs(o: Obj, dn: string)
    requires dn != ""
    ensures Dn(o.(attrs := o.attrs["dn" := Str(dn)])) == dn && Dn(o.(attrs := o.attrs - {"dn"})) == o.hintDn
    ensures Dn(o.(attrs := o.attrs["dn" := Str("")])) == o.hintDn
  {
  }

  /** `strings.Compare(a, b) < 0`. */
  predicate StrLess(a: string, b: string) {
    if b == "" then false
    else if a == "" then true
    else if a[0] == b[0] then StrLess(a[1..], b[1..])
    else a[0] < b[0]
  }

  lemma {:induction false} StrLessIrreflexive(a: string)
    ensures !StrLess(a, a)
  {
    if a != "" { StrLessIrreflexive(a[1..]); }
  }

  lemma {:induction false} StrLessTransitive(a: string, b: string, c: string)
    requires StrLess(a, b) && StrLess(b, c)
    ensures StrLess(a, c)
  {
    if a != "" && a[0] == b[0] && b[0] == c[0] {
      StrLessTransitive(a[1..], b[1..], c[1..]);
    }
  }

  lemma {:induction false} StrLessTotal(a: string, b: string)
    ensures StrLess(a, b) || a == b || StrLess(b, a)
  {
    if a != "" && b != "" && a[0] == b[0] {
      StrLessTotal(a[1..], b[1..]);
      assert a == [a[0]] + a[1..] && b == [b[0]] + b[1..];
    }
  }

  /** `strings.Compare`. */
  function StrCompare(a: string, b: string): (r: int)
    ensures r < 0 <==> StrLess(a, b)
    ensures r == 0 <==> a == b
    ensures r > 0 <==> StrLess(b, a)
  {
    StrLessIrreflexive(a);
    StrLessTotal(a, b);
    assert !(StrLess(a, b) && StrLess(b, a)) by {
      if StrLess(a, b) && StrLess(b, a) { StrLessTransitive(a, b, a); }
    }
    if a == b then 0 else if StrLess(a, b) then -1 else 1
  }

  /** Siblings in strictly increasing DN order. */
  ghost predicate SortedSiblings(f: seq<Obj>) {
    forall i, j :: 0 <= i < j < |f| ==> StrLess(Dn(f[i]), Dn(f[j]))
  }

  /** Strict DN order at every depth: what the two-pointer merge relies on. */
  ghost predicate SortedForest(f: seq<Obj>)
    decreases f
  {
    && SortedSiblings(f)
    && forall i :: 0 <= i < |f| ==> SortedForest(f[i].children)
  }

  /** The first sibling named `dn`. */
  function Lookup(f: seq<Obj>, dn: string): (r: Option<Obj>)
    ensures r.Some? ==> r.value in f && Dn(r.value) == dn
    ensures r.None? ==> forall i :: 0 <= i < |f| ==> Dn(f[i]) != dn
  {
    if f == [] then None
    else if Dn(f[0]) == dn then Some(f[0])
    else Lookup(f[1..], dn)
  }

  lemma SortedDistinct(f: seq<Obj>, i: nat, j: nat)
    requires SortedSiblings(f) && i < |f| && j < |f| && Dn(f[i]) == Dn(f[j])
    ensures i == j
  {
    StrLessIrreflexive(Dn(f[i]));
  }

  /** Among sorted siblings a DN finds the object that bears it. */
  lemma LookupAt(f: seq<Obj>, i: nat)
    requires SortedSiblings(f) && i < |f|
    ensures Lookup(f, Dn(f[i])) == Some(f[i])
  {
    var r := Lookup(f, Dn(f[i]));
    var j :| 0 <= j < |f| && f[j] == r.value;
    SortedDistinct(f, i, j);
  }

  /** Every DN in a forest, at any depth. */
  ghost function Dns(f: seq<Obj>): set<string>
    decreases f
  {
    if f == [] then {} else DnsOf(f[0]) + Dns(f[1..])
  }

  ghost function DnsOf(o: Obj): set<string>
    decreases o
  {
    {Dn(o)} + Dns(o.children)
  }

  lemma {:induction false} DnsAt(f: seq<Obj>, i: nat)
    requires i < |f|
    ensures DnsOf(f[i]) <= Dns(f)
  {
    if i > 0 {
      assert f[1..][i - 1] == f[i];
      DnsAt(f[1..], i - 1);
    }
  }

  lemma {:induction false} DnsFrom(f: seq<Obj>, x: string) returns (i: nat)
    requires x in Dns(f)
    ensures i < |f| && x in DnsOf(f[i])
  {
    if x in DnsOf(f[0]) {
      i := 0;
    } else {
      var k := DnsFrom(f[1..], x);
      assert f[1..][k] == f[k + 1];
      i := k + 1;
    }
  }

  /** A DN names at most one object of the forest. */
  ghost predicate UniqueForest(f: seq<Obj>)
    decreases f
  {
    && (forall i :: 0 <= i < |f| ==> Dn(f[i]) !in Dns(f[i].children))
    && (forall i, j :: 0 <= i < j < |f| ==> DnsOf(f[i]) !! DnsOf(f[j]))
    && (forall i :: 0 <= i < |f| ==> UniqueForest(f[i].children))
  }

  lemma UniqueOwner(f: seq<Obj>, i: nat, j: nat, x: string)
    requires UniqueForest(f) && i < |f| && j < |f| && x in DnsOf(f[i]) && x in DnsOf(f[j])
    ensures i == j
  {
  }
}
