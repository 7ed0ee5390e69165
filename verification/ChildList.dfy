/**
 Removing a URI from an object's child list (pkg/gbpserver/gbp_common.go:379-385). The loop ranges over the
 slice as it was and does not stop at a removal, which moves the list within its backing array.

 Main results: the loop panics exactly when the last child is the URI and an earlier one is, too
 (`DelChild`); otherwise the URI is gone exactly when it had no two neighbouring entries (`KeptIs`). On
 a list without repetitions it does what it is for (`KeptOnce`).
 */
module ChildList {
  predicate NoDuplicates(cs: seq<string>) {
    forall i, j :: 0 <= i < j < |cs| ==> cs[i] != cs[j]
  }

  /** DelChild's loop: each removal moves the next element to a place that is not looked at again. */
  function Kept(cs: seq<string>, c: string): seq<string> {
    if cs == [] then []
    else if cs[0] != c then [cs[0]] + Kept(cs[1..], c)
    else if |cs| == 1 then []
    else [cs[1]] + Kept(cs[2..], c)
  }

  /** The last element is left behind where it was by an earlier removal, and read again. */
  predicate Crashes(cs: seq<string>, c: string) {
    cs != [] && cs[|cs| - 1] == c && c in cs[..|cs| - 1]
  }

  predicate Neighbours(cs: seq<string>, c: string) {
    exists i :: 0 <= i < |cs| - 1 && cs[i] == c && cs[i + 1] == c
  }

  /** DelChild on the backing array of the list: the result is `back[..len]`. */
  method DelChild(back: array<string>, uri: string) returns (len: nat, panicked: bool)
    modifies back
    ensures panicked <==> Crashes(old(back[..]), uri)
    ensures !panicked ==> len <= back.Length && back[..len] == Kept(old(back[..]), uri)
  {
    hide *;
    ghost var cs := back[..];
    len, panicked := back.Length, false;
    ScanStart(cs, uri);
    for ix := 0 to back.Length
      invariant Scanned(cs, uri, back[..], ix, len) && len <= back.Length
      invariant ix == back.Length ==> !Crashes(cs, uri)
    {
      ScanCrash(cs, uri, back[..], ix, len);
      ScanOn(cs, uri, back[..], ix, len);
      if back[ix] == uri {
        if ix + 1 > len { return len, true; }
        Shift(back, ix, len);
        len := len - 1;
      }
    }
    ScanEnd(cs, uri, back[..], len);
    assert back[..][..len] == back[..len];
  }

  /** append(s[:ix], s[ix+1:]...) within the backing array; the place of the last element keeps its value. */
  method Shift(back: array<string>, ix: nat, len: nat)
    requires ix < len <= back.Length
    modifies back
    ensures back[..] == Shifted(old(back[..]), ix, len)
  {
    forall j | ix <= j < len - 1 { back[j] := back[j + 1]; }
  }

  function Shifted(b: seq<string>, ix: nat, len: nat): seq<string>
    requires ix < len <= |b|
  {
    b[..ix] + b[ix + 1..len] + b[len - 1..]
  }

  /** Places before `ix` of the array `b` have been looked at; the list is `b[..len]`, and started out as `cs`. */
  predicate Scanned(cs: seq<string>, uri: string, b: seq<string>, ix: nat, len: nat) {
    Placed(cs, uri, b, ix, len) && Kept(cs, uri) == Ahead(uri, b, ix, len)
  }

  /** Behind the list the array holds copies of the last child; before the first removal it is unchanged. */
  predicate Placed(cs: seq<string>, uri: string, b: seq<string>, ix: nat, len: nat) {
    && |b| == |cs| && ix <= |b| && len <= |b|
    && (len == |b| <==> uri !in cs[..ix]) && (len == |b| ==> b == cs)
    && (ix < len ==> b[len - 1] == cs[|cs| - 1]) && (forall j :: len <= j < |b| ==> b[j] == cs[|cs| - 1])
  }

  lemma ScanStart(cs: seq<string>, uri: string)
    ensures Scanned(cs, uri, cs, 0, |cs|) && (cs == [] ==> !Crashes(cs, uri))
  {
    assert cs[0..|cs|] == cs && cs[..0] == [];
  }

  lemma ScanEnd(cs: seq<string>, uri: string, b: seq<string>, len: nat)
    requires Scanned(cs, uri, b, |b|, len)
    ensures Kept(cs, uri) == b[..len]
  {
    if len == |b| { assert b[|b|..len] == [] && b[..|b|] + [] == b[..len]; }
  }

  /** The loop panics exactly at a left-over last element, which it reaches exactly if the list crashes. */
  lemma ScanCrash(cs: seq<string>, uri: string, b: seq<string>, ix: nat, len: nat)
    requires Scanned(cs, uri, b, ix, len) && ix < |b|
    ensures b[ix] == uri && ix + 1 > len ==> Crashes(cs, uri)
    ensures Crashes(cs, uri) && ix + 1 == |b| ==> b[ix] == uri && ix + 1 > len
  {
    if b[ix] == uri && ix + 1 > len {
      var x :| x in cs[..ix] && x == uri;
      assert cs[..ix] <= cs[..|cs| - 1];
      assert uri in cs[..|cs| - 1];
    }
  }

  lemma ScanOn(cs: seq<string>, uri: string, b: seq<string>, ix: nat, len: nat)
    requires Scanned(cs, uri, b, ix, len) && ix < |b|
    ensures b[ix] != uri ==> Scanned(cs, uri, b, ix + 1, len)
    ensures b[ix] == uri && ix < len ==> Scanned(cs, uri, Shifted(b, ix, len), ix + 1, len - 1)
  {
    hide Kept, Shifted;
    if b[ix] != uri {
      PlaceSkip(cs, uri, b, ix, len);
      KeptSkip(uri, b, ix, len);
    } else if ix < len {
      PlaceRemove(cs, uri, b, ix, len);
      KeptRemove(uri, b, ix, len);
    }
    hide Placed;
  }

  /** What the list becomes, with the places before `ix` looked at. */
  function Ahead(uri: string, b: seq<string>, ix: nat, len: nat): seq<string>
    requires ix <= |b| && len <= |b|
  {
    if ix <= len then b[..ix] + Kept(b[ix..len], uri) else b[..len]
  }

  lemma Reassociate(a: seq<string>, b: seq<string>, c: seq<string>)
    ensures a + (b + c) == a + b + c
  {
  }

  lemma KeptSkip(uri: string, b: seq<string>, ix: nat, len: nat)
    requires ix < |b| && len <= |b| && b[ix] != uri
    ensures Ahead(uri, b, ix + 1, len) == Ahead(uri, b, ix, len)
  {
    if ix < len {
      var rest := Kept(b[ix + 1..len], uri);
      assert b[ix..len][0] == b[ix] && b[ix..len][1..] == b[ix + 1..len];
      assert Kept(b[ix..len], uri) == [b[ix]] + rest;
      hide *;
      Reassociate(b[..ix], [b[ix]], rest);
      assert b[..ix + 1] == b[..ix] + [b[ix]];
    } else if ix == len {
      assert b[ix..len] == [] && b[..ix] + [] == b[..len];
    }
  }

  lemma KeptRemove(uri: string, b: seq<string>, ix: nat, len: nat)
    requires ix < len <= |b| && b[ix] == uri
    ensures |Shifted(b, ix, len)| == |b| && Ahead(uri, Shifted(b, ix, len), ix + 1, len - 1) == Ahead(uri, b, ix, len)
  {
    var b' := Shifted(b, ix, len);
    ShiftedAt(b, ix, len);
    KeptHit(b[ix..len], uri);
    hide Shifted, Kept;
    if ix + 1 < len {
      assert b[ix..len][1] == b[ix + 1] && b[ix..len][2..] == b[ix + 2..len];
      Reassociate(b[..ix], [b[ix + 1]], Kept(b[ix + 2..len], uri));
    } else {
      assert b[..ix] + [] == b[..ix];
    }
  }

  lemma PlaceSkip(cs: seq<string>, uri: string, b: seq<string>, ix: nat, len: nat)
    requires Placed(cs, uri, b, ix, len) && ix < |b| && b[ix] != uri
    ensures Placed(cs, uri, b, ix + 1, len)
  {
    assert cs[..ix + 1] == cs[..ix] + [cs[ix]];
  }

  lemma PlaceRemove(cs: seq<string>, uri: string, b: seq<string>, ix: nat, len: nat)
    requires Placed(cs, uri, b, ix, len) && ix < len && b[ix] == uri
    ensures Placed(cs, uri, Shifted(b, ix, len), ix + 1, len - 1)
  {
    ShiftedAt(b, ix, len);
    hide Shifted;
    assert cs[..ix + 1] == cs[..ix] + [cs[ix]];
    assert len == |b| ==> cs[ix] == uri;
  }

  lemma KeptHit(list: seq<string>, c: string)
    requires list != [] && list[0] == c
    ensures Kept(list, c) == if |list| == 1 then [] else [list[1]] + Kept(list[2..], c)
  {
  }

  lemma ShiftedAt(b: seq<string>, ix: nat, len: nat)
    requires ix < len <= |b|
    ensures var b' := Shifted(b, ix, len);
      && |b'| == |b| && b'[..ix] == b[..ix] && (forall j :: len - 1 <= j < |b| ==> b'[j] == b[j])
      && (ix + 1 < len ==>
            && b'[..ix + 1] == b[..ix] + [b[ix + 1]] && b'[ix + 1..len - 1] == b[ix + 2..len]
            && b'[len - 2] == b[len - 1])
  {
    var b' := Shifted(b, ix, len);
    assert forall j :: 0 <= j < ix ==> b'[j] == b[j];
    assert forall j :: ix <= j < len - 1 ==> b'[j] == b[j + 1];
  }

  /** What a child list becomes; the URI is gone exactly when it had no two neighbouring entries. */
  lemma {:induction false} KeptIs(cs: seq<string>, c: string)
    ensures forall x :: x != c ==> (x in Kept(cs, c) <==> x in cs)
    ensures c in Kept(cs, c) <==> Neighbours(cs, c)
    decreases |cs|
  {
    if cs == [] {
    } else if cs[0] != c {
      assert cs == [cs[0]] + cs[1..];
      KeptIs(cs[1..], c);
      NeighboursTail(cs, c, 1);
    } else if |cs| > 1 {
      assert cs == [cs[0], cs[1]] + cs[2..];
      KeptIs(cs[2..], c);
      if cs[1] == c { assert cs[0] == c && cs[0 + 1] == c; } else { NeighboursTail(cs, c, 2); }
    }
  }

  lemma NeighboursTail(cs: seq<string>, c: string, k: nat)
    requires 0 < k <= |cs| && cs[k - 1] != c && (k == 2 ==> cs[1] != c) && k <= 2
    ensures Neighbours(cs, c) <==> Neighbours(cs[k..], c)
  {
    if Neighbours(cs, c) {
      var i :| 0 <= i < |cs| - 1 && cs[i] == c && cs[i + 1] == c;
      assert i >= k;
      assert cs[k..][i - k] == c && cs[k..][i - k + 1] == c;
    }
    if Neighbours(cs[k..], c) {
      var i :| 0 <= i < |cs[k..]| - 1 && cs[k..][i] == c && cs[k..][i + 1] == c;
      assert cs[i + k] == c && cs[i + k + 1] == c;
    }
  }

  /** On a list without repetitions DelChild does what it is for. */
  lemma {:induction false} KeptOnce(cs: seq<string>, c: string)
    requires NoDuplicates(cs)
    ensures !Crashes(cs, c) && c !in Kept(cs, c) && NoDuplicates(Kept(cs, c))
    decreases |cs|
  {
    KeptIs(cs, c);
    if cs == [] {
    } else if cs[0] != c {
      KeptOnce(cs[1..], c);
      KeptIs(cs[1..], c);
      assert cs[0] !in Kept(cs[1..], c);
    } else if |cs| > 1 {
      KeptOnce(cs[2..], c);
      KeptIs(cs[2..], c);
      assert cs[1] !in Kept(cs[2..], c);
    }
  }
}
