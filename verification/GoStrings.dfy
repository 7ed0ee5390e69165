/** The parts of Go's string library that the modelled code uses. */
module GoStrings {
  import opened ApicTypes

  /** strings.Split with a one-character separator. */
  function Split(s: string, c: char): (r: seq<string>)
    ensures |r| > 0
  {
    if s == "" then [""]
    else
      var r := Split(s[1..], c);
      if s[0] == c then [""] + r else [[s[0]] + r[0]] + r[1..]
  }

  function Join(es: seq<string>, c: char): string {
    if es == [] then ""
    else if |es| == 1 then es[0]
    else es[0] + [c] + Join(es[1..], c)
  }

  /** strings.Cut with a one-character separator: what precedes it and what follows it. */
  function Cut(s: string, c: char): Option<(string, string)> {
    if s == "" then None
    else if s[0] == c then Some(("", s[1..]))
    else
      var r := Cut(s[1..], c);
      if r.None? then None else Some(([s[0]] + r.value.0, r.value.1))
  }

  /** unicode.IsSpace. */
  predicate IsSpace(c: char) {
    var k := c as int;
    || 9 <= k <= 13 || k == 32 || k == 0x85 || k == 0xA0 || k == 0x1680 || 0x2000 <= k <= 0x200a
    || k == 0x2028 || k == 0x2029 || k == 0x202f || k == 0x205f || k == 0x3000
  }

  function TrimLeft(s: string): string {
    if s != "" && IsSpace(s[0]) then TrimLeft(s[1..]) else s
  }

  function TrimRight(s: string): string {
    if s != "" && IsSpace(s[|s| - 1]) then TrimRight(s[..|s| - 1]) else s
  }

  function TrimSpace(s: string): string {
    TrimRight(TrimLeft(s))
  }

  predicate IsDigit(c: char) {
    '0' <= c <= '9'
  }

  function Digits(s: string): Option<nat> {
    if s == "" then Some(0)
    else if !IsDigit(s[|s| - 1]) then None
    else
      var r := Digits(s[..|s| - 1]);
      if r.None? then None else Some(10 * r.value + (s[|s| - 1] as int - '0' as int))
  }

  /** The values of a 64-bit int. */
  function Fits(v: int): Option<int> {
    if -0x8000_0000_0000_0000 <= v < 0x8000_0000_0000_0000 then Some(v) else None
  }

  /** strconv.Atoi on a 64-bit platform. */
  function Atoi(s: string): Option<int> {
    var signed := s != "" && (s[0] == '+' || s[0] == '-');
    var body := if signed then s[1..] else s;
    var d := Digits(body);
    if body == "" || d.None? then None
    else
      var n: int := d.value;
      Fits(if signed && s[0] == '-' then 0 - n else n)
  }

  /** strconv.Itoa of a number that is not negative. */
  function Itoa(n: nat): string {
    var d := [(n % 10 + '0' as int) as char];
    if n < 10 then d else Itoa(n / 10) + d
  }

  lemma {:induction false} DigitsItoa(n: nat)
    ensures Digits(Itoa(n)) == Some(n)
    ensures Itoa(n) != "" && forall i :: 0 <= i < |Itoa(n)| ==> IsDigit(Itoa(n)[i])
  {
    var s, d := Itoa(n), (n % 10 + '0' as int) as char;
    if n < 10 {
      assert s[..|s| - 1] == "";
    } else {
      DigitsItoa(n / 10);
      assert s[..|s| - 1] == Itoa(n / 10) && s[|s| - 1] == d;
    }
  }

  /** Reading undoes printing, with or without a sign, up to the width of an int. */
  lemma AtoiItoa(n: nat)
    ensures Atoi(Itoa(n)) == Fits(n) && Atoi("+" + Itoa(n)) == Fits(n) && Atoi("-" + Itoa(n)) == Fits(0 - n)
  {
    DigitsItoa(n);
    hide Digits, Itoa, Fits;
    var t := Itoa(n);
    assert IsDigit(t[0]);
    AtoiSigned(t, '+', n);
    AtoiSigned(t, '-', n);
  }

  lemma AtoiSigned(t: string, sign: char, n: nat)
    requires t != "" && Digits(t) == Some(n) && (sign == '+' || sign == '-')
    ensures Atoi([sign] + t) == Fits(if sign == '-' then 0 - n else n)
  {
    hide Digits, Fits;
    assert ([sign] + t)[1..] == t && ([sign] + t)[0] == sign;
  }

  lemma ItoaInjective(n: nat, m: nat)
    ensures Itoa(n) == Itoa(m) ==> n == m
  {
    DigitsItoa(n);
    DigitsItoa(m);
  }

  predicate Blank(s: string) {
    forall i :: 0 <= i < |s| ==> IsSpace(s[i])
  }

  /** Trimming takes the blanks around a text, and nothing of a text that begins and ends otherwise. */
  lemma TrimAround(l: string, x: string, r: string)
    requires Blank(l) && Blank(r) && x != "" && !IsSpace(x[0]) && !IsSpace(x[|x| - 1])
    ensures TrimSpace(l + x + r) == x
  {
    hide IsSpace;
    TrimBlankLeft(l, x + r);
    assert l + x + r == l + (x + r) && (x + r)[0] == x[0];
    TrimBlankRight(x, r);
  }

  lemma {:induction false} TrimBlankLeft(l: string, x: string)
    requires Blank(l) && x != "" && !IsSpace(x[0])
    ensures TrimLeft(l + x) == x
  {
    hide IsSpace;
    if l == "" {
      assert l + x == x;
    } else {
      assert (l + x)[1..] == l[1..] + x && (l + x)[0] == l[0];
      TrimBlankLeft(l[1..], x);
    }
  }

  lemma {:induction false} TrimBlankRight(x: string, r: string)
    requires Blank(r) && x != "" && !IsSpace(x[|x| - 1])
    ensures TrimRight(x + r) == x
  {
    hide IsSpace;
    if r == "" {
      assert x + r == x;
    } else {
      var s := x + r;
      assert s[..|s| - 1] == x + r[..|r| - 1] && s[|s| - 1] == r[|r| - 1];
      TrimBlankRight(x, r[..|r| - 1]);
    }
  }

  /** Splitting two texts joined by the separator splits each. */
  lemma {:induction false} SplitConcat(a: string, b: string, c: char)
    ensures Split(a + [c] + b, c) == Split(a, c) + Split(b, c)
  {
    if a == "" {
      SplitCons(c, b, c);
      assert a + [c] + b == [c] + b;
    } else {
      var x, rest := a[0], a[1..];
      SplitConcat(rest, b, c);
      SplitCons(x, rest, c);
      SplitCons(x, rest + [c] + b, c);
      assert a == [x] + rest && a + [c] + b == [x] + (rest + [c] + b);
      hide Split;
      FirstOf(Split(rest, c), Split(b, c), x);
    }
  }

  lemma SplitCons(x: char, s: string, c: char)
    ensures Split([x] + s, c) == var r := Split(s, c); if x == c then [""] + r else [[x] + r[0]] + r[1..]
  {
    assert ([x] + s)[1..] == s;
  }

  lemma FirstOf(r: seq<string>, q: seq<string>, x: char)
    requires r != []
    ensures [""] + (r + q) == ([""] + r) + q
    ensures [[x] + (r + q)[0]] + (r + q)[1..] == ([[x] + r[0]] + r[1..]) + q
  {
    assert (r + q)[1..] == r[1..] + q;
  }

  lemma {:induction false} JoinSnoc(es: seq<string>, e: string, c: char)
    ensures Join(es + [e], c) == if es == [] then e else Join(es, c) + [c] + e
  {
    if es == [] {
      assert es + [e] == [e];
    } else {
      assert (es + [e])[1..] == es[1..] + [e] && (es + [e])[0] == es[0];
      JoinSnoc(es[1..], e, c);
      if |es| > 1 {
        assert es[0] + [c] + (Join(es[1..], c) + [c] + e) == es[0] + [c] + Join(es[1..], c) + [c] + e;
      }
    }
  }

  lemma {:induction false} TrimWithin(s: string, c: char)
    ensures c !in s ==> c !in TrimSpace(s)
  {
    TrimLeftWithin(s, c);
    TrimRightWithin(TrimLeft(s), c);
  }

  lemma {:induction false} TrimLeftWithin(s: string, c: char)
    ensures c !in s ==> c !in TrimLeft(s)
  {
    if s != "" { TrimLeftWithin(s[1..], c); }
  }

  lemma {:induction false} TrimRightWithin(s: string, c: char)
    ensures c !in s ==> c !in TrimRight(s)
  {
    if s != "" { TrimRightWithin(s[..|s| - 1], c); }
  }

  lemma {:induction false} SplitWithout(s: string, c: char)
    requires c !in s
    ensures Split(s, c) == [s]
  {
    if s != "" {
      SplitWithout(s[1..], c);
      assert [s[0]] + s[1..] == s;
    }
  }

  /** A text of one piece has no separator. */
  lemma {:induction false} SplitOnce(s: string, c: char)
    requires |Split(s, c)| == 1
    ensures c !in s
  {
    if s != "" {
      SplitOnce(s[1..], c);
      assert s == [s[0]] + s[1..];
    }
  }

  lemma {:induction false} SplitPieces(s: string, c: char, i: nat)
    requires i < |Split(s, c)|
    ensures c !in Split(s, c)[i]
  {
    if s != "" {
      var r := Split(s[1..], c);
      if s[0] == c {
        if i > 0 { SplitPieces(s[1..], c, i - 1); }
      } else {
        SplitPieces(s[1..], c, i);
      }
    }
  }

  lemma {:induction false} SplitAt(a: string, b: string, c: char)
    requires c !in a
    ensures Split(a + [c] + b, c) == [a] + Split(b, c)
  {
    if a == "" {
      assert a + [c] + b == [c] + b && ([c] + b)[1..] == b;
    } else {
      var s := a + [c] + b;
      assert s[1..] == a[1..] + [c] + b && s[0] == a[0];
      SplitAt(a[1..], b, c);
      assert [a[0]] + a[1..] == a;
    }
  }

  /** Splitting undoes joining when no piece holds the separator. */
  lemma {:induction false} SplitJoin(es: seq<string>, c: char)
    requires es != [] && forall i :: 0 <= i < |es| ==> c !in es[i]
    ensures Split(Join(es, c), c) == es
  {
    if |es| == 1 {
      SplitWithout(es[0], c);
      assert es == [es[0]];
    } else {
      SplitJoin(es[1..], c);
      SplitAt(es[0], Join(es[1..], c), c);
      assert es == [es[0]] + es[1..];
    }
  }

  lemma {:induction false} JoinSplit(s: string, c: char)
    ensures Join(Split(s, c), c) == s
  {
    if s != "" {
      JoinSplit(s[1..], c);
      var r := Split(s[1..], c);
      if s[0] == c {
        assert ([""] + r)[1..] == r && "" + [c] + s[1..] == s;
      } else {
        var q := [[s[0]] + r[0]] + r[1..];
        assert q[1..] == r[1..];
        if |r| == 1 {
          assert Join(q, c) == [s[0]] + s[1..];
        } else {
          assert Join(q, c) == [s[0]] + r[0] + [c] + Join(r[1..], c) == [s[0]] + (r[0] + [c] + Join(r[1..], c));
        }
      }
    }
  }

  lemma TwoPieces(s: string, c: char)
    requires |Split(s, c)| == 2
    ensures s == Split(s, c)[0] + [c] + Split(s, c)[1]
  {
    JoinSplit(s, c);
    var r := Split(s, c);
    assert r[1..] == [r[1]];
  }

  lemma {:induction false} CutWithout(s: string, c: char, rest: string)
    requires c !in s
    ensures Cut(s + [c] + rest, c) == Some((s, rest))
  {
    if s == "" {
      assert s + [c] + rest == [c] + rest && ([c] + rest)[1..] == rest;
    } else {
      assert (s + [c] + rest)[1..] == s[1..] + [c] + rest;
      CutWithout(s[1..], c, rest);
      assert [s[0]] + s[1..] == s;
    }
  }

  lemma {:induction false} JoinWithin(es: seq<string>, c: char, x: char)
    requires x != c && forall i :: 0 <= i < |es| ==> x !in es[i]
    ensures x !in Join(es, c)
  {
    if |es| > 1 { JoinWithin(es[1..], c, x); }
  }

  lemma PlainTrim(s: string)
    requires s != "" && !IsSpace(s[0]) && !IsSpace(s[|s| - 1])
    ensures TrimSpace(s) == s
  {
  }
}
