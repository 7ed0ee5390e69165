/**
 URI name escaping in the GBP server (pkg/gbpserver/gbp_common.go:474-508): four sequential
 replacements, and the same four undone in the same order.

 Main results: undoing the escape gives a name back exactly when the name holds none of the four
 escape sequences (`UndoInvertsIff`), and two names collide exactly when undoing makes them equal
 (`CollideIff`).
 */
module EscapeName {

  /** strings.Replace(s, pat, rep, -1): leftmost, non-overlapping. */
  function ReplaceAll(s: string, pat: string, rep: string): string
    requires pat != ""
  {
    if |s| < |pat| then s
    else if s[..|pat|] == pat then rep + ReplaceAll(s[|pat|..], pat, rep)
    else [s[0]] + ReplaceAll(s[1..], pat, rep)
  }

  /** The escape table: original character and escape sequence, by position. */
  const ORIG: seq<char> := ['/', '[', ']', '|']
  const ESC: seq<string> := ["%2f", "%5b", "%5d", "%7c"]

  function Rounds(n: string, undo: bool, k: nat): string
    requires k <= 4
  {
    if k == 0 then n
    else if undo then ReplaceAll(Rounds(n, undo, k - 1), ESC[k - 1], [ORIG[k - 1]])
    else ReplaceAll(Rounds(n, undo, k - 1), [ORIG[k - 1]], ESC[k - 1])
  }

  function Escaped(n: string): string {
    Rounds(n, false, 4)
  }

  function Unescaped(n: string): string {
    Rounds(n, true, 4)
  }

  method EscapeName(n: string, undo: bool) returns (r: string)
    ensures r == if undo then Unescaped(n) else Escaped(n)
  {
    r := n;
    for k := 0 to 4
      invariant r == Rounds(n, undo, k)
    {
      if undo {
        r := ReplaceAll(r, ESC[k], [ORIG[k]]);
      } else {
        r := ReplaceAll(r, [ORIG[k]], ESC[k]);
      }
    }
  }

  // ----- One pass instead of four -----

  /** The image of one character once the first `k` escapes have been applied. */
  function Image(c: char, k: nat): string
    requires k <= 4
  {
    if k == 0 then [c] else if c == ORIG[k - 1] then ESC[k - 1] else Image(c, k - 1)
  }

  function EscapeOnce(n: string, k: nat): string
    requires k <= 4
  {
    if n == "" then "" else Image(n[0], k) + EscapeOnce(n[1..], k)
  }

  lemma {:induction false} ReplaceCharConcat(a: string, b: string, c: char, rep: string)
    ensures ReplaceAll(a + b, [c], rep) == ReplaceAll(a, [c], rep) + ReplaceAll(b, [c], rep)
  {
    if a == "" {
      assert a + b == b;
    } else {
      assert (a + b)[1..] == a[1..] + b && (a + b)[..1] == a[..1] && (a + b)[0] == a[0];
      ReplaceCharConcat(a[1..], b, c, rep);
      if a[..1] == [c] {
        assert rep + (ReplaceAll(a[1..], [c], rep) + ReplaceAll(b, [c], rep)) ==
               rep + ReplaceAll(a[1..], [c], rep) + ReplaceAll(b, [c], rep);
      } else {
        assert [a[0]] + (ReplaceAll(a[1..], [c], rep) + ReplaceAll(b, [c], rep)) ==
               [a[0]] + ReplaceAll(a[1..], [c], rep) + ReplaceAll(b, [c], rep);
      }
    }
  }

  lemma {:induction false} ReplaceCharAbsent(s: string, c: char, rep: string)
    requires c !in s
    ensures ReplaceAll(s, [c], rep) == s
  {
    if s != "" {
      ReplaceCharAbsent(s[1..], c, rep);
      assert s[..1] == [s[0]] && [s[0]] + s[1..] == s;
    }
  }

  /** Escape sequences hold none of the four characters. */
  lemma ImageStep(c: char, k: nat)
    requires k < 4
    ensures ReplaceAll(Image(c, k), [ORIG[k]], ESC[k]) == Image(c, k + 1)
  {
    if Image(c, k) == [c] {
      assert [c][..1] == [c] && [c][1..] == "";
      assert ReplaceAll("", [ORIG[k]], ESC[k]) == "";
    } else {
      ImageIsEscape(c, k);
      ReplaceCharAbsent(Image(c, k), ORIG[k], ESC[k]);
    }
  }

  lemma {:induction false} ImageIsEscape(c: char, k: nat)
    requires k <= 4 && Image(c, k) != [c]
    ensures Image(c, k) in ESC && c in ORIG[..k]
    ensures Image(c, k)[0] == '%' && forall j :: 0 <= j < 4 ==> ORIG[j] !in Image(c, k)
  {
    if c != ORIG[k - 1] { ImageIsEscape(c, k - 1); }
  }

  lemma {:induction false} EscapeRound(n: string, k: nat)
    requires k < 4
    ensures ReplaceAll(EscapeOnce(n, k), [ORIG[k]], ESC[k]) == EscapeOnce(n, k + 1)
  {
    if n != "" {
      ReplaceCharConcat(Image(n[0], k), EscapeOnce(n[1..], k), ORIG[k], ESC[k]);
      ImageStep(n[0], k);
      EscapeRound(n[1..], k);
    }
  }

  lemma {:induction false} EscapeNone(n: string)
    ensures EscapeOnce(n, 0) == n
  {
    if n != "" {
      EscapeNone(n[1..]);
      assert [n[0]] + n[1..] == n;
    }
  }

  /** The four sequential replacements act as one simultaneous pass. */
  lemma {:induction false} EscapedIsOnePass(n: string, k: nat)
    requires k <= 4
    ensures Rounds(n, false, k) == EscapeOnce(n, k)
  {
    if k == 0 {
      EscapeNone(n);
    } else {
      EscapedIsOnePass(n, k - 1);
      EscapeRound(n, k - 1);
    }
  }

  /** The position of the escape sequence at the front, among the first `k`; `k` when there is none. */
  function Front(s: string, k: nat): (j: nat)
    requires k <= 4
    ensures j <= k && (j < k ==> ESC[j] <= s) && (j == k ==> forall i :: 0 <= i < k ==> !(ESC[i] <= s))
  {
    if k > 0 && ESC[0] <= s then 0
    else if k > 1 && ESC[1] <= s then 1
    else if k > 2 && ESC[2] <= s then 2
    else if k > 3 && ESC[3] <= s then 3
    else k
  }

  function UndoOnce(s: string, k: nat): string
    requires k <= 4
    decreases |s|
  {
    if s == "" then ""
    else if Front(s, k) < k then [ORIG[Front(s, k)]] + UndoOnce(s[3..], k)
    else [s[0]] + UndoOnce(s[1..], k)
  }

  lemma {:induction false} UndoNone(s: string)
    ensures UndoOnce(s, 0) == s
  {
    if s != "" {
      UndoNone(s[1..]);
      assert [s[0]] + s[1..] == s;
    }
  }

  /** A replaced sequence leaves a barrier: an ordinary character in the output stood there before. */
  lemma UndoHead(s: string, k: nat, c: char)
    requires k <= 4 && UndoOnce(s, k) != "" && UndoOnce(s, k)[0] == c && c !in ORIG
    ensures s != "" && s[0] == c && UndoOnce(s, k) == [c] + UndoOnce(s[1..], k)
  {
  }

  lemma {:induction false} UndoRound(s: string, k: nat)
    requires k < 4
    ensures ReplaceAll(UndoOnce(s, k), ESC[k], [ORIG[k]]) == UndoOnce(s, k + 1)
    decreases |s|
  {
    if s != "" {
      var j := Front(s, k);
      var u := UndoOnce(s, k);
      if j < k {
        UndoRound(s[3..], k);
        assert u == [ORIG[j]] + UndoOnce(s[3..], k) && u[1..] == UndoOnce(s[3..], k) && u[0] != ESC[k][0];
        assert |u| >= 3 ==> u[..3][0] == u[0];
        assert Front(s, k + 1) == j;
        if |u| < 3 { ShortTail(u, ESC[k], [ORIG[k]]); }
      } else if ESC[k] <= s {
        UndoRound(s[3..], k);
        UndoKeeps(s, k);
        assert u[..3] == ESC[k] && u[3..] == UndoOnce(s[3..], k);
        assert Front(s, k + 1) == k;
      } else {
        UndoRound(s[1..], k);
        assert Front(s, k + 1) == k + 1;
        if |u| >= 3 && u[..3] == ESC[k] { UndoForms(s, k); }
        assert u[1..] == UndoOnce(s[1..], k);
        if |u| < 3 { ShortTail(u, ESC[k], [ORIG[k]]); }
      }
    }
  }

  lemma ShortTail(u: string, pat: string, rep: string)
    requires u != "" && |u| < |pat|
    ensures ReplaceAll(u, pat, rep) == [u[0]] + ReplaceAll(u[1..], pat, rep)
  {
    assert u == [u[0]] + u[1..];
  }

  /** An escape sequence that is not among the first `k` passes through unchanged. */
  lemma UndoKeeps(s: string, k: nat)
    requires k < 4 && Front(s, k) == k && ESC[k] <= s
    ensures UndoOnce(s, k) == ESC[k] + UndoOnce(s[3..], k)
  {
    hide UndoOnce, Front;
    assert s[1] == ESC[k][1] != '%' && s[2] == ESC[k][2] != '%';
    var a, b := s[1..], s[2..];
    assert a[0] == s[1] && a[1..] == b && b[0] == s[2] && b[1..] == s[3..];
    UndoSkips(s, k);
    NoEscapeAt(a, k);
    UndoSkips(a, k);
    NoEscapeAt(b, k);
    UndoSkips(b, k);
    ThreeChars(ESC[k], UndoOnce(s[3..], k));
  }

  lemma NoEscapeAt(s: string, k: nat)
    requires k <= 4 && s != "" && s[0] != '%'
    ensures Front(s, k) == k
  {
    forall i | 0 <= i < 4 ensures !(ESC[i] <= s) { assert ESC[i][0] == '%'; }
  }

  lemma ThreeChars(e: string, u: string)
    requires |e| == 3
    ensures e + u == [e[0]] + ([e[1]] + ([e[2]] + u))
  {
  }

  lemma UndoSkips(s: string, k: nat)
    requires k <= 4 && s != "" && Front(s, k) == k
    ensures UndoOnce(s, k) == [s[0]] + UndoOnce(s[1..], k)
  {
  }

  /** Conversely, an escape sequence in the output was there in the input. */
  lemma UndoForms(s: string, k: nat)
    requires k < 4 && |UndoOnce(s, k)| >= 3 && UndoOnce(s, k)[..3] == ESC[k]
    ensures ESC[k] <= s
  {
    var u := UndoOnce(s, k);
    assert u[0] == ESC[k][0] && u[1] == ESC[k][1] && u[2] == ESC[k][2];
    UndoHead(s, k, u[0]);
    assert UndoOnce(s[1..], k)[0] == u[1] && UndoOnce(s[1..], k)[1] == u[2];
    UndoHead(s[1..], k, u[1]);
    UndoHead(s[1..][1..], k, u[2]);
    assert s[..3] == ESC[k];
  }

  /** The four sequential undo replacements act as one simultaneous pass too. */
  lemma {:induction false} UnescapedIsOnePass(s: string, k: nat)
    requires k <= 4
    ensures Rounds(s, true, k) == UndoOnce(s, k)
  {
    if k == 0 {
      UndoNone(s);
    } else {
      UnescapedIsOnePass(s, k - 1);
      UndoRound(s, k - 1);
    }
  }

  // ----- The round trip -----

  /** No escape sequence starts anywhere in the name. */
  predicate EscapeFree(n: string) {
    n != "" ==> Front(n, 4) == 4 && EscapeFree(n[1..])
  }

  lemma ImagePlain(c: char)
    requires c !in ORIG
    ensures Image(c, 4) == [c]
  {
    if Image(c, 4) != [c] { ImageIsEscape(c, 4); }
  }

  /** Escaping invents no escape sequence at an ordinary character. */
  lemma EscapeHead(n: string)
    requires n != "" && n[0] !in ORIG && Front(n, 4) == 4
    ensures EscapeOnce(n, 4) == [n[0]] + EscapeOnce(n[1..], 4) && Front(EscapeOnce(n, 4), 4) == 4
  {
    var e := EscapeOnce(n, 4);
    ImagePlain(n[0]);
    var j := Front(e, 4);
    if j < 4 {
      assert e[0] == ESC[j][0] && e[1] == ESC[j][1] && e[2] == ESC[j][2];
      assert EscapeOnce(n[1..], 4)[0] == e[1] && EscapeOnce(n[1..], 4)[1] == e[2];
      PlainHead(n[1..], e[1]);
      PlainHead(n[1..][1..], e[2]);
    }
  }

  lemma PlainHead(n: string, c: char)
    requires EscapeOnce(n, 4) != "" && EscapeOnce(n, 4)[0] == c && c != '%'
    ensures n != "" && n[0] == c && EscapeOnce(n, 4) == [c] + EscapeOnce(n[1..], 4)
  {
    if Image(n[0], 4) != [n[0]] { ImageIsEscape(n[0], 4); }
  }

  lemma EscapeKeepsFront(n: string)
    requires Front(n, 4) < 4
    ensures EscapeOnce(n, 4) == ESC[Front(n, 4)] + EscapeOnce(n[3..], 4)
  {
    var j := Front(n, 4);
    assert n[0] == ESC[j][0] && n[1] == ESC[j][1] && n[2] == ESC[j][2];
    assert n[1..][1..] == n[2..] && n[2..][1..] == n[3..] && n[1..][0] == n[1] && n[2..][0] == n[2];
    ImagePlain(n[0]);
    ImagePlain(n[1]);
    ImagePlain(n[2]);
    assert EscapeOnce(n, 4) == [n[0]] + EscapeOnce(n[1..], 4);
    assert EscapeOnce(n[1..], 4) == [n[1]] + EscapeOnce(n[2..], 4);
    assert EscapeOnce(n[2..], 4) == [n[2]] + EscapeOnce(n[3..], 4);
    assert ESC[j] == [n[0]] + [n[1]] + [n[2]];
  }

  lemma FrontOfEscape(j: nat, rest: string)
    requires j < 4
    ensures Front(ESC[j] + rest, 4) == j && (ESC[j] + rest)[3..] == rest
  {
    var s := ESC[j] + rest;
    assert s[0] == ESC[j][0] && s[1] == ESC[j][1] && s[2] == ESC[j][2];
    assert forall i :: 0 <= i < 4 && ESC[i] <= s ==> ESC[i][1] == s[1] && ESC[i][2] == s[2];
  }

  /** Undoing an escaped name is the same as undoing the name itself. */
  lemma {:induction false} UndoEscaped(n: string)
    ensures UndoOnce(EscapeOnce(n, 4), 4) == UndoOnce(n, 4)
    decreases |n|
  {
    if n != "" {
      if Front(n, 4) < 4 {
        EscapeKeepsFront(n);
        FrontOfEscape(Front(n, 4), EscapeOnce(n[3..], 4));
        UndoEscaped(n[3..]);
      } else if n[0] in ORIG {
        var j :| 0 <= j < 4 && ORIG[j] == n[0];
        assert Image(n[0], 4) == ESC[j];
        FrontOfEscape(j, EscapeOnce(n[1..], 4));
        UndoEscaped(n[1..]);
      } else {
        EscapeHead(n);
        assert EscapeOnce(n, 4)[1..] == EscapeOnce(n[1..], 4);
        UndoEscaped(n[1..]);
      }
    }
  }

  lemma {:induction false} UndoShortens(n: string)
    ensures |UndoOnce(n, 4)| <= |n|
    ensures UndoOnce(n, 4) == n <==> EscapeFree(n)
    decreases |n|
  {
    if n != "" {
      if Front(n, 4) < 4 {
        UndoShortens(n[3..]);
      } else {
        UndoShortens(n[1..]);
        assert n == [n[0]] + n[1..];
        assert UndoOnce(n, 4)[1..] == UndoOnce(n[1..], 4);
      }
    }
  }

  /** escapeName(escapeName(n, false), true) == n exactly for names free of the four escape sequences. */
  lemma UndoInvertsIff(n: string)
    ensures Unescaped(Escaped(n)) == n <==> EscapeFree(n)
  {
    EscapedIsOnePass(n, 4);
    UnescapedIsOnePass(Escaped(n), 4);
    UndoEscaped(n);
    UndoShortens(n);
  }

  /** Escaping an undone name is the same as escaping the name itself. */
  lemma {:induction false} EscapeUndone(n: string)
    ensures EscapeOnce(UndoOnce(n, 4), 4) == EscapeOnce(n, 4)
    decreases |n|
  {
    if n != "" {
      var u := UndoOnce(n, 4);
      if Front(n, 4) < 4 {
        EscapeUndone(n[3..]);
        EscapeKeepsFront(n);
        assert u[1..] == UndoOnce(n[3..], 4);
      } else {
        EscapeUndone(n[1..]);
        assert u[1..] == UndoOnce(n[1..], 4);
      }
    }
  }

  /** Two names have the same escaped form exactly when they stand for the same text. */
  lemma CollideIff(n: string, m: string)
    ensures Escaped(n) == Escaped(m) <==> Unescaped(n) == Unescaped(m)
  {
    EscapedIsOnePass(n, 4);
    EscapedIsOnePass(m, 4);
    UnescapedIsOnePass(n, 4);
    UnescapedIsOnePass(m, 4);
    UndoEscaped(n);
    UndoEscaped(m);
    EscapeUndone(n);
    EscapeUndone(m);
  }

  /** Distinct names free of escape sequences have distinct escaped forms. */
  lemma EscapedIsInjective(n: string, m: string)
    requires EscapeFree(n) && EscapeFree(m) && n != m
    ensures Escaped(n) != Escaped(m)
  {
    UndoInvertsIff(n);
    UndoInvertsIff(m);
  }

  /** A name with an escape sequence is not given back, and collides with the text it stands for. */
  /** The four characters and what each becomes; any other character stays. */
  lemma EscapedChars(c: char)
    ensures Escaped([c]) ==
      match c
      case '/' => "%2f"
      case '[' => "%5b"
      case ']' => "%5d"
      case '|' => "%7c"
      case _ => [c]
  {
    EscapedIsOnePass([c], 4);
    assert [c][1..] == "" && EscapeOnce("", 4) == "";
    assert Image(c, 4) == if c == '|' then "%7c" else Image(c, 3);
    assert Image(c, 3) == if c == ']' then "%5d" else Image(c, 2);
    assert Image(c, 2) == if c == '[' then "%5b" else Image(c, 1);
    assert Image(c, 1) == if c == '/' then "%2f" else [c];
  }

  /** A name without the four characters stays as it is. */
  lemma {:induction false} EscapedPlain(n: string)
    requires forall i :: 0 <= i < |n| ==> n[i] !in ['/', '[', ']', '|']
    ensures Escaped(n) == n
  {
    EscapedIsOnePass(n, 4);
    if n != "" {
      EscapedPlain(n[1..]);
      EscapedIsOnePass(n[1..], 4);
      EscapedChars(n[0]);
      EscapedIsOnePass([n[0]], 4);
      assert [n[0]][1..] == "" && EscapeOnce("", 4) == "";
      assert n == [n[0]] + n[1..];
      hide Image, Rounds;
    }
  }

  /** Escaping works character by character. */
  lemma {:induction false} EscapedConcat(a: string, b: string)
    ensures Escaped(a + b) == Escaped(a) + Escaped(b)
  {
    EscapedIsOnePass(a + b, 4);
    EscapedIsOnePass(a, 4);
    EscapedIsOnePass(b, 4);
    OnceConcat(a, b);
  }

  lemma {:induction false} OnceConcat(a: string, b: string)
    ensures EscapeOnce(a + b, 4) == EscapeOnce(a, 4) + EscapeOnce(b, 4)
  {
    hide Image;
    if a == "" {
      assert a + b == b;
    } else {
      assert (a + b)[1..] == a[1..] + b && (a + b)[0] == a[0];
      OnceConcat(a[1..], b);
      assert Image(a[0], 4) + (EscapeOnce(a[1..], 4) + EscapeOnce(b, 4)) ==
        (Image(a[0], 4) + EscapeOnce(a[1..], 4)) + EscapeOnce(b, 4);
    }
  }

  lemma EscapeCollides()
    ensures Unescaped(Escaped("a%2fb")) == "a/b" && Escaped("a/b") == Escaped("a%2fb")
  {
    var n := "a%2fb";
    assert n[1..] == "%2fb" && "%2fb"[3..] == "b" && "b"[1..] == "" && "/b"[1..] == "b" && "a/b"[1..] == "/b";
    assert UndoOnce("", 4) == "" && UndoOnce("b", 4) == "b";
    assert UndoOnce("%2fb", 4) == "/b" by { FrontOfEscape(0, "b"); assert ESC[0] + "b" == "%2fb"; }
    assert Front(n, 4) == 4 && UndoOnce(n, 4) == "a/b";
    assert Front("a/b", 4) == 4 && Front("/b", 4) == 4 && UndoOnce("/b", 4) == "/b" && UndoOnce("a/b", 4) == "a/b";
    UnescapedIsOnePass(n, 4);
    UnescapedIsOnePass("a/b", 4);
    CollideIff(n, "a/b");
    EscapedIsOnePass(n, 4);
    UnescapedIsOnePass(Escaped(n), 4);
    UndoEscaped(n);
  }
}
