/**
 VLAN lists: the host agent prints them (pkg/hostagent/nadvlanmap.go:88-131) and the
 controller parses what the agent printed (pkg/controller/nodefabricnetworkattachments.go:265-306).

 Main result, `AgentAndControllerAgree`: for every list the agent accepts, the controller
 accepts the printed form exactly when the list is not empty and no id exceeds 4095, and then
 reads, in order, the very VLANs the agent read.
 */
module VlanList {
  import opened ApicTypes
  import opened GoStrings

  // ----- The agent -----

  /** One list element: the text that is printed and the ids it stands for. */
  datatype Elem = Elem(text: string, lo: int, hi: int)

  /** What normalizeVlanList makes of one comma-separated element. Pieces after a second dash are ignored. */
  function ReadElem(elem: string): Option<Elem> {
    var t := TrimSpace(elem);
    if '-' in t then
      var pieces := Split(t, '-');
      if |pieces| < 2 then None
      else
        var a, b := TrimSpace(pieces[0]), TrimSpace(pieces[1]);
        var lo, hi := Atoi(a), Atoi(b);
        if lo.None? || hi.None? || lo.value > hi.value then None
        else Some(Elem(a + "-" + b, lo.value, hi.value))
    else
      var v := Atoi(t);
      if v.None? then None else Some(Elem(t, v.value, v.value))
  }

  function ReadElems(es: seq<string>): Option<seq<Elem>> {
    if es == [] then Some([])
    else
      var front, last := ReadElems(es[..|es| - 1]), ReadElem(es[|es| - 1]);
      if front.None? || last.None? then None else Some(front.value + [last.value])
  }

  function Flatten(vlanList: seq<string>): seq<string> {
    if vlanList == [] then [] else Flatten(vlanList[..|vlanList| - 1]) + Split(vlanList[|vlanList| - 1], ',')
  }

  /** The elements the agent reads from a list, or None when it rejects the list. */
  function Read(vlanList: seq<string>): Option<seq<Elem>> {
    ReadElems(Flatten(vlanList))
  }

  function Texts(es: seq<Elem>): (r: seq<string>)
    ensures |r| == |es|
  {
    seq(|es|, i requires 0 <= i < |es| => es[i].text)
  }

  function Print(es: seq<Elem>): string {
    "[" + Join(Texts(es), ',') + "]"
  }

  lemma {:induction false} ReadElemsPrefix(es: seq<string>, n: nat)
    requires n <= |es| && ReadElems(es[..n]).None?
    ensures ReadElems(es).None?
    decreases |es| - n
  {
    if n < |es| {
      assert es[..n + 1][..n] == es[..n];
      ReadElemsPrefix(es, n + 1);
    } else {
      assert es[..n] == es;
    }
  }

  lemma {:induction false} FlattenPrefix(vlanList: seq<string>, n: nat)
    requires n <= |vlanList|
    ensures |Flatten(vlanList[..n])| <= |Flatten(vlanList)|
    ensures Flatten(vlanList)[..|Flatten(vlanList[..n])|] == Flatten(vlanList[..n])
    decreases |vlanList|
  {
    if n == |vlanList| {
      assert vlanList[..n] == vlanList;
    } else {
      var front := vlanList[..|vlanList| - 1];
      FlattenPrefix(front, n);
      assert front[..n] == vlanList[..n];
    }
  }

  /** What the agent's loop has established after the elements in `done`. */
  ghost predicate Printed(done: seq<string>, normalized: string, firstPass: bool) {
    var read := ReadElems(done);
    read.Some? && firstPass == (read.value == []) && normalized == "[" + Join(Texts(read.value), ',')
  }

  lemma PrintedStep(done: seq<string>, normalized: string, firstPass: bool, elem: string)
    requires Printed(done, normalized, firstPass)
    ensures var e := ReadElem(elem);
      if e.None? then ReadElems(done + [elem]).None?
      else
        var text := if firstPass then normalized + e.value.text else normalized + "," + e.value.text;
        Printed(done + [elem], text, false)
  {
    assert (done + [elem])[..|done|] == done;
    var read, e := ReadElems(done).value, ReadElem(elem);
    if e.Some? {
      assert Texts(read + [e.value]) == Texts(read) + [e.value.text];
      JoinSnoc(Texts(read), e.value.text, ',');
      assert normalized + "," + e.value.text == "[" + (Join(Texts(read), ',') + [','] + e.value.text);
    }
  }

  lemma PrintedAll(vlanList: seq<string>)
    ensures Printed(Flatten([]), "[", true)
    ensures forall normalized, firstPass :: Printed(Flatten(vlanList), normalized, firstPass) ==>
      Read(vlanList).Some? && Print(Read(vlanList).value) == normalized + "]"
  {
    assert Texts([]) == [];
  }

  lemma FlattenStep(vlanList: seq<string>, i: nat)
    requires i < |vlanList|
    ensures Flatten(vlanList[..i + 1]) == Flatten(vlanList[..i]) + Split(vlanList[i], ',')
  {
    assert vlanList[..i + 1][..i] == vlanList[..i];
  }

  lemma RejectedHere(done: seq<string>, elems: seq<string>, j: nat)
    requires j < |elems| && ReadElems(done + elems[..j + 1]).None?
    ensures ReadElems(done + elems).None?
  {
    hide ReadElems;
    assert (done + elems)[..|done| + j + 1] == done + elems[..j + 1];
    ReadElemsPrefix(done + elems, |done| + j + 1);
  }

  lemma Rejected(vlanList: seq<string>, i: nat, j: nat)
    requires i < |vlanList| && j < |Split(vlanList[i], ',')|
    requires ReadElems(Flatten(vlanList[..i]) + Split(vlanList[i], ',')[..j + 1]).None?
    ensures Read(vlanList).None?
  {
    hide Split, Flatten, ReadElems;
    RejectedHere(Flatten(vlanList[..i]), Split(vlanList[i], ','), j);
    FlattenStep(vlanList, i);
    FlattenPrefix(vlanList, i + 1);
    ReadElemsPrefix(Flatten(vlanList), |Flatten(vlanList[..i + 1])|);
  }

  /** normalizeVlanList: appends each element as it is read; an error discards everything. */
  method NormalizeVlanList(vlanList: seq<string>) returns (r: Option<string>)
    ensures r == if Read(vlanList).Some? then Some(Print(Read(vlanList).value)) else None
  {
    hide *;
    PrintedAll(vlanList);
    var normalized, firstPass := "[", true;
    assert vlanList[..0] == [] && vlanList[..|vlanList|] == vlanList;
    for i := 0 to |vlanList|
      invariant Printed(Flatten(vlanList[..i]), normalized, firstPass)
    {
      FlattenStep(vlanList, i);
      var elems := Split(vlanList[i], ',');
      ghost var done := Flatten(vlanList[..i]);
      assert done + elems[..0] == done && elems[..|elems|] == elems;
      for j := 0 to |elems|
        invariant Printed(done + elems[..j], normalized, firstPass)
      {
        var e := ReadElem(elems[j]);
        PrintedStep(done + elems[..j], normalized, firstPass, elems[j]);
        assert done + elems[..j] + [elems[j]] == done + elems[..j + 1];
        if e.None? {
          Rejected(vlanList, i, j);
          return None;
        }
        normalized := if firstPass then normalized + e.value.text else normalized + "," + e.value.text;
        firstPass := false;
      }
    }
    return Some(normalized + "]");
  }

  // ----- The controller -----

  /** vlans and blocks read so far, and whether the whole list was read. */
  datatype Parsed = Parsed(vlans: seq<int>, blocks: seq<string>, ok: bool)

  /** The ids of a range, in ascending order. */
  function Ids(lo: int, hi: int): (r: seq<int>)
    ensures |r| == if lo <= hi then hi - lo + 1 else 0
    ensures forall k :: 0 <= k < |r| ==> r[k] == lo + k
    decreases hi - lo
  {
    if lo > hi then [] else Ids(lo, hi - 1) + [hi]
  }

  /** One element of the controller's list; pieces of a range are not trimmed again. */
  function ParseElem(elem: string): Option<Elem> {
    var t := TrimSpace(elem);
    if '-' in t then
      var pieces := Split(t, '-');
      if |pieces| != 2 then None
      else
        var lo, hi := Atoi(pieces[0]), Atoi(pieces[1]);
        if lo.None? || hi.None? || lo.value > hi.value || hi.value > 4095 then None
        else Some(Elem(t, lo.value, hi.value))
    else
      var v := Atoi(t);
      if v.None? || v.value > 4095 then None else Some(Elem(t, v.value, v.value))
  }

  function ParseElems(es: seq<string>): Parsed {
    if es == [] then Parsed([], [], true)
    else
      var front := ParseElems(es[..|es| - 1]);
      var e := ParseElem(es[|es| - 1]);
      if !front.ok then front
      else if e.None? then front.(ok := false)
      else Parsed(front.vlans + Ids(e.value.lo, e.value.hi), front.blocks + [e.value.text], true)
  }

  /** The text between the brackets, or the whole text when there is no opening one. */
  function Contents(vlan: string): Option<string> {
    var c := Cut(vlan, '[');
    if c.None? then Some(vlan)
    else
      var d := Cut(c.value.1, ']');
      if d.None? then None else Some(d.value.0)
  }

  function Parse(vlan: string): Parsed {
    var c := Contents(vlan);
    if c.None? then Parsed([], [], false) else ParseElems(Split(c.value, ','))
  }

  lemma {:induction false} ParseStops(es: seq<string>, n: nat)
    requires n <= |es| && !ParseElems(es[..n]).ok
    ensures ParseElems(es) == ParseElems(es[..n])
    decreases |es| - n
  {
    if n < |es| {
      assert es[..n + 1][..n] == es[..n];
      ParseStops(es, n + 1);
    } else {
      assert es[..n] == es;
    }
  }

  /** parseNodeFabNetAttVlanList: returns at the first bad element with what it has read so far. */
  method ParseNodeFabNetAttVlanList(vlan: string) returns (vlans: seq<int>, blocks: seq<string>, ok: bool)
    ensures Parsed(vlans, blocks, ok) == Parse(vlan)
  {
    vlans, blocks, ok := [], [], false;
    var contents := Contents(vlan);
    if contents.None? { return; }
    var elems := Split(contents.value, ',');
    hide Split, ParseElem, TrimSpace, Ids;
    for idx := 0 to |elems|
      invariant ParseElems(elems[..idx]) == Parsed(vlans, blocks, true)
    {
      assert elems[..idx + 1][..idx] == elems[..idx];
      var e := ParseElem(elems[idx]);
      if e.None? {
        ParseStops(elems, idx + 1);
        return;
      }
      var ids := Expand(e.value.lo, e.value.hi);
      vlans := vlans + ids;
      blocks := blocks + [e.value.text];
    }
    assert elems[..|elems|] == elems;
    ok := true;
  }

  method Expand(lo: int, hi: int) returns (ids: seq<int>)
    ensures ids == Ids(lo, hi)
  {
    ids := [];
    var i := lo;
    while i <= hi
      invariant lo <= i && (i <= hi + 1 || i == lo) && ids == Ids(lo, i - 1)
    {
      ids := ids + [i];
      i := i + 1;
    }
  }

  // ----- Agreement -----

  /** Only digits and a leading plus. */
  predicate Plain(s: string) {
    s != "" && forall i :: 0 <= i < |s| ==> IsDigit(s[i]) || s[i] == '+'
  }

  predicate NumberChars(s: string) {
    forall i :: 0 <= i < |s| ==> IsDigit(s[i]) || s[i] == '+' || s[i] == '-'
  }

  lemma {:induction false} DigitsPlain(s: string)
    requires Digits(s).Some?
    ensures forall i :: 0 <= i < |s| ==> IsDigit(s[i])
  {
    if s != "" { DigitsPlain(s[..|s| - 1]); }
  }

  lemma AtoiPlain(s: string)
    requires Atoi(s).Some? && '-' !in s
    ensures Plain(s)
  {
    var signed := s[0] == '+' || s[0] == '-';
    DigitsPlain(if signed then s[1..] else s);
    if signed { assert s == [s[0]] + s[1..]; }
  }

  /** The controller reads a printed element as the agent did, if its ids are small enough. */
  lemma PrintedElem(elem: string)
    requires ReadElem(elem).Some?
    ensures var e := ReadElem(elem).value;
      && e.lo <= e.hi
      && NumberChars(e.text)
      && ParseElem(e.text) == if e.hi <= 4095 then Some(e) else None
  {
    var t := TrimSpace(elem);
    var e := ReadElem(elem).value;
    if '-' in t {
      var pieces := Split(t, '-');
      SplitPieces(t, '-', 0);
      SplitPieces(t, '-', 1);
      var a, b := TrimSpace(pieces[0]), TrimSpace(pieces[1]);
      TrimWithin(pieces[0], '-');
      TrimWithin(pieces[1], '-');
      AtoiPlain(a);
      AtoiPlain(b);
      PrintedRange(a, b);
    } else {
      AtoiPlain(t);
      PlainTrim(t);
    }
  }

  lemma PrintedRange(a: string, b: string)
    requires Plain(a) && Plain(b) && '-' !in a && '-' !in b
    ensures TrimSpace(a + "-" + b) == a + "-" + b && '-' in a + "-" + b && Split(a + "-" + b, '-') == [a, b]
    ensures NumberChars(a + "-" + b)
  {
    var s := a + "-" + b;
    assert s[0] == a[0] && s[|s| - 1] == b[|b| - 1] && s[|a|] == '-';
    PlainTrim(s);
    SplitAt(a, b, '-');
    SplitWithout(b, '-');
  }

  function AllIds(es: seq<Elem>): seq<int> {
    if es == [] then [] else AllIds(es[..|es| - 1]) + Ids(es[|es| - 1].lo, es[|es| - 1].hi)
  }

  predicate Small(es: seq<Elem>) {
    forall i :: 0 <= i < |es| ==> es[i].hi <= 4095
  }

  lemma {:induction false} ParsePrinted(elems: seq<string>)
    requires ReadElems(elems).Some?
    ensures var es := ReadElems(elems).value;
      && |es| == |elems|
      && (forall i :: 0 <= i < |es| ==> NumberChars(es[i].text))
      && (ParseElems(Texts(es)).ok <==> Small(es))
      && (Small(es) ==> ParseElems(Texts(es)) == Parsed(AllIds(es), Texts(es), true))
  {
    if elems != [] {
      var front, last := elems[..|elems| - 1], elems[|elems| - 1];
      ParsePrinted(front);
      PrintedElem(last);
      var es := ReadElems(elems).value;
      var fs := ReadElems(front).value;
      assert es == fs + [ReadElem(last).value];
      hide ReadElems, ReadElem, ParseElem, Ids, NumberChars;
      ParseAppended(fs, ReadElem(last).value);
    }
  }

  lemma ParseSnoc(ts: seq<string>, t: string)
    ensures ParseElems(ts + [t]) ==
      var front, e := ParseElems(ts), ParseElem(t);
      if !front.ok then front
      else if e.None? then front.(ok := false)
      else Parsed(front.vlans + Ids(e.value.lo, e.value.hi), front.blocks + [e.value.text], true)
  {
    hide ParseElem, Ids;
    assert (ts + [t])[..|ts|] == ts;
  }

  lemma SnocIs(fs: seq<Elem>, e: Elem)
    ensures Texts(fs + [e]) == Texts(fs) + [e.text]
    ensures AllIds(fs + [e]) == AllIds(fs) + Ids(e.lo, e.hi)
    ensures Small(fs + [e]) <==> Small(fs) && e.hi <= 4095
  {
    hide Ids;
    var es := fs + [e];
    assert es[..|fs|] == fs && es[|fs|] == e;
    assert forall i :: 0 <= i < |fs| ==> fs[i] == es[i];
  }

  lemma ParseAppended(fs: seq<Elem>, e: Elem)
    requires ParseElems(Texts(fs)).ok <==> Small(fs)
    requires Small(fs) ==> ParseElems(Texts(fs)) == Parsed(AllIds(fs), Texts(fs), true)
    requires ParseElem(e.text) == if e.hi <= 4095 then Some(e) else None
    ensures var es := fs + [e];
      && (ParseElems(Texts(es)).ok <==> Small(es))
      && (Small(es) ==> ParseElems(Texts(es)) == Parsed(AllIds(es), Texts(es), true))
  {
    hide *;
    ParseSnoc(Texts(fs), e.text);
    SnocIs(fs, e);
  }

  lemma {:induction false} FlattenLength(vlanList: seq<string>)
    ensures Flatten(vlanList) == [] <==> vlanList == []
  {
  }

  lemma PrintContents(es: seq<Elem>)
    requires forall i :: 0 <= i < |es| ==> NumberChars(es[i].text)
    ensures Contents(Print(es)) == Some(Join(Texts(es), ','))
    ensures es != [] ==> Split(Join(Texts(es), ','), ',') == Texts(es)
  {
    var body := Join(Texts(es), ',');
    forall i | 0 <= i < |es| ensures ']' !in Texts(es)[i] && ',' !in Texts(es)[i] { assert NumberChars(es[i].text); }
    JoinWithin(Texts(es), ',', ']');
    assert Print(es) == "" + ['['] + (body + "]");
    CutWithout("", '[', body + "]");
    assert body + "]" == body + [']'] + "";
    CutWithout(body, ']', "");
    if es != [] { SplitJoin(Texts(es), ','); }
  }

  /**
   The controller reads back what the agent read, exactly when there is something to read and the ids are
   small enough.
   */
  lemma AgentAndControllerAgree(vlanList: seq<string>)
    requires Read(vlanList).Some?
    ensures var es := Read(vlanList).value;
      && (Parse(Print(es)).ok <==> vlanList != [] && Small(es))
      && (Parse(Print(es)).ok ==> Parse(Print(es)) == Parsed(AllIds(es), Texts(es), true))
  {
    var es := Read(vlanList).value;
    ParsePrinted(Flatten(vlanList));
    FlattenLength(vlanList);
    PrintContents(es);
    if vlanList == [] {
      assert Join(Texts(es), ',') == "";
      EmptyIsRejected();
    }
  }

  /** A list may stand in brackets, which must match; what is before and after them is ignored. */
  lemma ContentsAre(a: string, b: string, rest: string)
    requires '[' !in a && ']' !in b
    ensures Contents(a) == Some(a)
    ensures Contents(a + "[" + b + "]" + rest) == Some(b) && Contents(a + "[" + b) == None
    ensures !Parse(a + "[" + b).ok && Parse(a + "[" + b + "]" + rest) == ParseElems(Split(b, ','))
  {
    NoCut(a, '[');
    NoCut(b, ']');
    CutWithout(a, '[', b);
    CutWithout(b, ']', rest);
    CutWithout(a, '[', b + [']'] + rest);
    assert a + "[" + b + "]" + rest == a + ['['] + (b + [']'] + rest);
    hide Split, ParseElems;
  }

  /** An error keeps what was read before the first element that cannot be read. */
  lemma {:induction false} ErrorKeepsPrefix(es: seq<string>) returns (n: nat)
    ensures n <= |es| && ParseElems(es[..n]).ok
    ensures ParseElems(es).ok <==> n == |es|
    ensures n < |es| ==> ParseElem(es[n]).None? && ParseElems(es) == ParseElems(es[..n]).(ok := false)
  {
    if es == [] {
      n := 0;
    } else {
      var front := es[..|es| - 1];
      n := ErrorKeepsPrefix(front);
      hide ParseElem, Ids;
      assert front[..n] == es[..n];
      if n == |front| && ParseElem(es[n]).Some? {
        n := |es|;
        assert es[..n] == es;
      }
    }
  }

  // ----- What the agent reads, from the text -----

  /** A number, with blanks around it. */
  lemma ReadNumber(n: nat, l: string, r: string)
    requires Blank(l) && Blank(r) && n < 0x8000_0000_0000_0000
    ensures ReadElem(l + Itoa(n) + r) == Some(Elem(Itoa(n), n, n))
  {
    NumberText(n);
    AtoiItoa(n);
    TrimAround(l, Itoa(n), r);
    hide Itoa, Atoi, TrimSpace;
  }

  /** A range, with blanks around its ends: both ends are printed, and its ids are read. */
  lemma ReadRange(lo: nat, hi: nat, l: string, m: string, n: string, r: string)
    requires Blank(l) && Blank(m) && Blank(n) && Blank(r) && hi < 0x8000_0000_0000_0000 && lo < 0x8000_0000_0000_0000
    ensures ReadElem(l + Itoa(lo) + m + "-" + n + Itoa(hi) + r) ==
      if lo <= hi then Some(Elem(Itoa(lo) + "-" + Itoa(hi), lo, hi)) else None
  {
    var a, b := Itoa(lo), Itoa(hi);
    NumberText(lo);
    NumberText(hi);
    AtoiItoa(lo);
    AtoiItoa(hi);
    BlankDash(m);
    BlankDash(n);
    var t := a + m + "-" + (n + b);
    RangeText(l, a, m, n, b, r);
    hide Itoa, Atoi, TrimSpace, Split;
  }

  lemma RangeText(l: string, a: string, m: string, n: string, b: string, r: string)
    requires Blank(l) && Blank(m) && Blank(n) && Blank(r) && '-' !in a && '-' !in m && '-' !in n && '-' !in b
    requires a != "" && !IsSpace(a[0]) && !IsSpace(a[|a| - 1]) && b != "" && !IsSpace(b[0]) && !IsSpace(b[|b| - 1])
    ensures var t := a + m + "-" + (n + b);
      TrimSpace(l + a + m + "-" + n + b + r) == t && '-' in t && Split(t, '-') == [a + m, n + b]
    ensures TrimSpace(a + m) == a && TrimSpace(n + b) == b
  {
    hide IsSpace, Blank, Split, TrimSpace;
    var x, y := a + m, n + b;
    var t := x + "-" + y;
    assert t[0] == a[0] && t[|t| - 1] == b[|b| - 1] && t[|x|] == '-';
    assert l + a + m + "-" + n + b + r == l + t + r;
    TrimAround(l, t, r);
    SplitAt(x, y, '-');
    SplitWithout(y, '-');
    NoBlank();
    assert x == "" + a + m && y == n + b + "";
    TrimAround("", a, m);
    TrimAround(n, b, "");
  }

  lemma NoBlank()
    ensures Blank("")
  {
  }

  lemma NumberText(n: nat)
    ensures var t := Itoa(n); t != "" && '-' !in t && !IsSpace(t[0]) && !IsSpace(t[|t| - 1])
  {
    DigitsItoa(n);
    var t := Itoa(n);
    assert IsDigit(t[0]) && IsDigit(t[|t| - 1]);
    forall i | 0 <= i < |t| ensures t[i] != '-' { assert IsDigit(t[i]); }
  }

  lemma BlankDash(s: string)
    requires Blank(s)
    ensures '-' !in s
  {
    forall i | 0 <= i < |s| ensures s[i] != '-' { assert IsSpace(s[i]); }
  }

  // ----- Normalizing changes no id -----

  /** An element that the controller would accept as it stands stands for the same ids to the agent. */
  lemma RawElem(elem: string)
    requires ParseElem(elem).Some?
    ensures ReadElem(elem).Some?
    ensures ReadElem(elem).value.lo == ParseElem(elem).value.lo && ReadElem(elem).value.hi == ParseElem(elem).value.hi
    ensures ReadElem(elem).value.text == ParseElem(elem).value.text
  {
    var t := TrimSpace(elem);
    if '-' in t {
      var pieces := Split(t, '-');
      SplitPieces(t, '-', 0);
      SplitPieces(t, '-', 1);
      AtoiPlain(pieces[0]);
      AtoiPlain(pieces[1]);
      PlainTrim(pieces[0]);
      PlainTrim(pieces[1]);
      TwoPieces(t, '-');
    }
  }

  lemma {:induction false} RawElems(es: seq<string>)
    requires ParseElems(es).ok
    ensures ReadElems(es).Some? && Small(ReadElems(es).value)
    ensures AllIds(ReadElems(es).value) == ParseElems(es).vlans && Texts(ReadElems(es).value) == ParseElems(es).blocks
  {
    if es != [] {
      var front, last := es[..|es| - 1], es[|es| - 1];
      assert ParseElems(front).ok && ParseElem(last).Some?;
      RawElems(front);
      RawElem(last);
      assert ParseElem(last).value.hi <= 4095 by { hide TrimSpace, Split, Atoi; }
      hide ReadElem, ParseElem, Ids;
      SnocIs(ReadElems(front).value, ReadElem(last).value);
    }
  }

  lemma {:induction false} JoinFlattens(vlanList: seq<string>)
    requires vlanList != []
    ensures Split(Join(vlanList, ','), ',') == Flatten(vlanList)
  {
    var front, last := vlanList[..|vlanList| - 1], vlanList[|vlanList| - 1];
    assert vlanList == front + [last];
    JoinSnoc(front, last, ',');
    if front == [] {
      assert Flatten(vlanList) == [] + Split(last, ',');
    } else {
      JoinFlattens(front);
      SplitConcat(Join(front, ','), last, ',');
    }
  }

  lemma {:induction false} NoCut(s: string, c: char)
    ensures c !in s ==> Cut(s, c).None?
  {
    if s != "" { NoCut(s[1..], c); }
  }

  /**
   What the controller would read from the raw text, it reads from the normalized text: the same ids and blocks, in
   the same order.
   */
  lemma NormalizingKeepsIds(vlanList: seq<string>)
    requires vlanList != [] && '[' !in Join(vlanList, ',') && Parse(Join(vlanList, ',')).ok
    ensures Read(vlanList).Some?
    ensures Parse(Print(Read(vlanList).value)) == Parse(Join(vlanList, ','))
  {
    NoCut(Join(vlanList, ','), '[');
    JoinFlattens(vlanList);
    RawElems(Flatten(vlanList));
    AgentAndControllerAgree(vlanList);
    hide ParseElems, Flatten, Join, Split;
  }

  lemma EmptyIsRejected()
    ensures Split("", ',') == [""] && !ParseElems([""]).ok
  {
    assert [""][..0] == [];
  }
}
