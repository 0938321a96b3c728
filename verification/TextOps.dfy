/**
 Text operations as Python defines them: splitting and joining at a separator, stripping, and
 reading and writing integers. The YANG translator and the FRR configuration manager are built on
 them (src/sonic-yang-mgmt/sonic_yang_ext.py, lines 253-266, 399-433 and 741-789;
 src/sonic-bgpcfgd/bgpcfgd/config.py, lines 69-114).
 */
module TextOps {

  import opened Wrappers

  // ----- white space -----

  predicate IsSpace(c: char) {
    var n := c as int;
    || 0x9 <= n <= 0xd || 0x1c <= n <= 0x20 || n == 0x85 || n == 0xa0 || n == 0x1680
    || 0x2000 <= n <= 0x200a || n == 0x2028 || n == 0x2029 || n == 0x202f || n == 0x205f || n == 0x3000
  }

  function LeftStrip(s: string): string {
    if s != "" && IsSpace(s[0]) then LeftStrip(s[1..]) else s
  }

  function RightStrip(s: string): string {
    if s != "" && IsSpace(s[|s| - 1]) then RightStrip(s[..|s| - 1]) else s
  }

  function Strip(s: string): string {
    RightStrip(LeftStrip(s))
  }

  predicate Blank(s: string) {
    forall i :: 0 <= i < |s| ==> IsSpace(s[i])
  }

  // Stripping takes off nothing but white space, and all of it at the ends.
  lemma StripParts(s: string) returns (front: string, back: string)
    ensures s == front + Strip(s) + back && Blank(front) && Blank(back) && Stripped(Strip(s))
    ensures LeftStrip(s) == Strip(s) + back && (LeftStrip(s) != "" ==> !IsSpace(LeftStrip(s)[0]))
  {
    front := LeftPart(s);
    back := RightPart(LeftStrip(s));
    StripExact(s);
    LeftStripped(s);
  }

  lemma {:induction false} LeftPart(s: string) returns (front: string)
    ensures s == front + LeftStrip(s) && Blank(front)
  {
    front := "";
    if s != "" && IsSpace(s[0]) {
      var rest := LeftPart(s[1..]);
      front := [s[0]] + rest;
    }
  }

  lemma {:induction false} RightPart(s: string) returns (back: string)
    ensures s == RightStrip(s) + back && Blank(back)
  {
    back := "";
    if s != "" && IsSpace(s[|s| - 1]) {
      var rest := RightPart(s[..|s| - 1]);
      back := rest + [s[|s| - 1]];
    }
  }

  predicate Stripped(s: string) {
    s == "" || (!IsSpace(s[0]) && !IsSpace(s[|s| - 1]))
  }

  lemma {:induction false} LeftStripped(s: string)
    ensures |LeftStrip(s)| <= |s| && (LeftStrip(s) == s || |LeftStrip(s)| < |s|)
    ensures LeftStrip(s) == "" || !IsSpace(LeftStrip(s)[0])
    ensures LeftStrip(s) == s <==> s == "" || !IsSpace(s[0])
  {
    if s != "" && IsSpace(s[0]) {
      LeftStripped(s[1..]);
    }
  }

  lemma {:induction false} RightStripped(s: string)
    ensures RightStrip(s) <= s && (RightStrip(s) == s || |RightStrip(s)| < |s|)
    ensures RightStrip(s) == "" || !IsSpace(RightStrip(s)[|RightStrip(s)| - 1])
    ensures RightStrip(s) == s <==> s == "" || !IsSpace(s[|s| - 1])
  {
    if s != "" && IsSpace(s[|s| - 1]) {
      RightStripped(s[..|s| - 1]);
    }
  }

  // Stripping shortens exactly the texts that are not stripped, and leaves a stripped one.
  lemma StripExact(s: string)
    ensures Stripped(Strip(s))
    ensures if Stripped(s) then Strip(s) == s else |Strip(s)| < |s|
  {
    LeftStripped(s);
    RightStripped(LeftStrip(s));
  }

  lemma {:induction false} StripKeepsOut(s: string, c: char)
    requires c !in s
    ensures c !in Strip(s)
  {
    LeftKeepsOut(s, c);
    RightStripped(LeftStrip(s));
  }

  lemma {:induction false} LeftKeepsOut(s: string, c: char)
    requires c !in s
    ensures c !in LeftStrip(s)
  {
    if s != "" && IsSpace(s[0]) {
      LeftKeepsOut(s[1..], c);
    }
  }

  // ----- separators -----

  function Split(s: string, c: char): (r: seq<string>)
    ensures r != []
  {
    if s == "" then [""]
    else
      var r := Split(s[1..], c);
      if s[0] == c then [""] + r else [[s[0]] + r[0]] + r[1..]
  }

  function Join(ps: seq<string>, c: char): string {
    if ps == [] then "" else if |ps| == 1 then ps[0] else ps[0] + ([c] + Join(ps[1..], c))
  }

  lemma {:induction false} JoinSplit(s: string, c: char)
    ensures Join(Split(s, c), c) == s
  {
    if s != "" {
      JoinSplit(s[1..], c);
      var r := Split(s[1..], c);
      if s[0] == c {
        assert ([""] + r)[1..] == r;
      } else if |r| > 1 {
        var h: string := [s[0]] + r[0];
        assert ([h] + r[1..])[1..] == r[1..];
        assert Join(Split(s, c), c) == h + ([c] + Join(r[1..], c));
        assert h + ([c] + Join(r[1..], c)) == [s[0]] + (r[0] + ([c] + Join(r[1..], c)));
      } else {
        assert Split(s, c) == [[s[0]] + r[0]];
      }
    }
  }

  // No part holds the separator.
  predicate Free(ps: seq<string>, c: char) {
    forall i :: 0 <= i < |ps| ==> c !in ps[i]
  }

  lemma {:induction false} SplitFree(s: string, c: char)
    ensures Free(Split(s, c), c)
  {
    if s != "" {
      SplitFree(s[1..], c);
      var r := Split(s[1..], c);
      assert c !in r[0];
    }
  }

  lemma {:induction false} SplitWhole(s: string, c: char)
    requires c !in s
    ensures Split(s, c) == [s]
  {
    if s != "" {
      SplitWhole(s[1..], c);
      assert [s[0]] + s[1..] == s;
    }
  }

  lemma {:induction false} SplitAt(p: string, rest: string, c: char)
    requires c !in p
    ensures Split(p + ([c] + rest), c) == [p] + Split(rest, c)
  {
    var s := p + ([c] + rest);
    if p == "" {
      assert s[1..] == rest;
    } else {
      assert s[1..] == p[1..] + ([c] + rest);
      SplitAt(p[1..], rest, c);
      assert [s[0]] + p[1..] == p;
    }
  }

  lemma {:induction false} SplitJoin(ps: seq<string>, c: char)
    requires ps != [] && Free(ps, c)
    ensures Split(Join(ps, c), c) == ps
  {
    if |ps| == 1 {
      SplitWhole(ps[0], c);
    } else {
      SplitJoin(ps[1..], c);
      SplitAt(ps[0], Join(ps[1..], c), c);
    }
  }

  // Parts that are the same or shorter join to the same text exactly when they are all the same.
  ghost predicate Shrunk(p: string, q: string) {
    q == p || |q| < |p|
  }

  lemma {:induction false} JoinShrinks(ps: seq<string>, qs: seq<string>, c: char)
    requires |ps| == |qs| && forall i :: 0 <= i < |ps| ==> Shrunk(ps[i], qs[i])
    ensures if ps == qs then Join(qs, c) == Join(ps, c) else |Join(qs, c)| < |Join(ps, c)|
  {
    if |ps| >= 1 {
      assert Shrunk(ps[0], qs[0]);
      assert ps == [ps[0]] + ps[1..] && qs == [qs[0]] + qs[1..];
    }
    if |ps| > 1 {
      JoinShrinks(ps[1..], qs[1..], c);
    }
  }

  // ----- integers -----

  predicate IsDigit(c: char) {
    '0' <= c <= '9'
  }

  function DigitOf(d: nat): char
    requires d < 10
  {
    '0' + d as char
  }

  function ValueOf(c: char): nat
    requires IsDigit(c)
  {
    c as int - '0' as int
  }

  function ShowNat(n: nat): string {
    if n < 10 then [DigitOf(n)] else ShowNat(n / 10) + [DigitOf(n % 10)]
  }

  // Python's `str` of an integer.
  function Show(n: int): string {
    if n < 0 then "-" + ShowNat(-n) else ShowNat(n)
  }

  predicate AllDigits(s: string) {
    forall i :: 0 <= i < |s| ==> IsDigit(s[i])
  }

  function Value(s: string): nat
    requires AllDigits(s)
  {
    if s == "" then 0 else 10 * Value(s[..|s| - 1]) + ValueOf(s[|s| - 1])
  }

  // Digits, with single underscores between them.
  predicate IsBody(s: string) {
    s != "" && IsDigit(s[0]) && (|s| == 1 || (if s[1] == '_' then IsBody(s[2..]) else IsBody(s[1..])))
  }

  function Digits(s: string): (r: string)
    requires IsBody(s)
    ensures r != "" && AllDigits(r) && (r == s || |r| < |s|)
    ensures AllDigits(s) ==> r == s
  {
    if |s| == 1 then s
    else if s[1] == '_' then assert !IsDigit(s[1]); [s[0]] + Digits(s[2..])
    else
      assert forall i :: 0 <= i < |s| - 1 ==> s[1..][i] == s[i + 1];
      [s[0]] + Digits(s[1..])
  }

  // Python's `int(text, 10)`; none where it raises.
  function ParseInt(s: string): Option<int> {
    var t := Strip(s);
    if t == "" then None
    else
      var body := if t[0] == '-' || t[0] == '+' then t[1..] else t;
      if !IsBody(body) then None
      else Some(if t[0] == '-' then -(Value(Digits(body)) as int) else Value(Digits(body)))
  }

  // Decimal digits without leading zeros, and a minus sign only before a number that is not zero.
  predicate CanonicalNat(s: string) {
    s != "" && AllDigits(s) && (|s| == 1 || s[0] != '0')
  }

  predicate Canonical(s: string) {
    CanonicalNat(s) || (s != "" && s[0] == '-' && CanonicalNat(s[1..]) && s[1..] != "0")
  }

  // Writing the value of digits gives them back without leading zeros.
  lemma {:induction false} ShowValue(s: string)
    requires s != "" && AllDigits(s)
    ensures if CanonicalNat(s) then ShowNat(Value(s)) == s else |ShowNat(Value(s))| < |s|
    ensures CanonicalNat(s) && Value(s) == 0 ==> s == "0"
  {
    var n := |s| - 1;
    var d := ValueOf(s[n]);
    assert DigitOf(d) == s[n];
    if n == 0 {
      assert s[..n] == "";
    } else {
      var front := s[..n];
      ShowValue(front);
      if CanonicalNat(s) {
        if Value(front) == 0 {
          assert front == "0";
        }
        assert s == front + [s[n]];
      } else {
        assert s[0] == '0' && front[0] == '0';
        ShowBound(Value(front), d);
      }
    }
  }

  lemma ShowBound(v: nat, d: nat)
    requires d < 10
    ensures |ShowNat(10 * v + d)| <= |ShowNat(v)| + 1
    ensures v == 0 ==> |ShowNat(10 * v + d)| == 1
  {
    if v != 0 {
      assert (10 * v + d) / 10 == v && (10 * v + d) % 10 == d;
    }
  }

  // The digits of a body, written again.
  lemma BodyShow(body: string)
    requires IsBody(body)
    ensures var n := Value(Digits(body));
            && (if CanonicalNat(body) then ShowNat(n) == body else |ShowNat(n)| < |body|)
            && (CanonicalNat(body) && n == 0 ==> body == "0")
            && (n == 0 ==> |ShowNat(n)| == 1)
  {
    ShowValue(Digits(body));
  }

  lemma SignedShow(t: string, body: string, n: nat)
    requires t != "" && body == (if t[0] == '-' || t[0] == '+' then t[1..] else t) && IsBody(body)
             && n == Value(Digits(body))
    ensures var m := if t[0] == '-' then -(n as int) else n; if Canonical(t) then Show(m) == t else |Show(m)| < |t|
  {
    BodyShow(body);
    if t[0] == '-' {
      assert !CanonicalNat(t) && t == "-" + body;
    } else if t[0] == '+' {
      assert !CanonicalNat(t);
    }
  }

  // A canonical text is that of an integer.
  lemma CanonicalParses(s: string)
    requires Canonical(s)
    ensures ParseInt(s).Some?
  {
    CanonicalStripped(s);
    StripExact(s);
    DigitsAreBody(if s[0] == '-' then s[1..] else s);
  }

  lemma {:induction false} DigitsAreBody(s: string)
    requires s != "" && AllDigits(s)
    ensures IsBody(s)
  {
    if 1 < |s| {
      assert forall i :: 0 <= i < |s| - 1 ==> s[1..][i] == s[i + 1];
      assert IsDigit(s[1]);
      DigitsAreBody(s[1..]);
    }
  }

  // An integer text comes back as it was exactly when it is canonical, and shorter otherwise.
  lemma ParseShow(s: string)
    requires ParseInt(s).Some?
    ensures if Canonical(s) then Show(ParseInt(s).value) == s else |Show(ParseInt(s).value)| < |s|
  {
    StripExact(s);
    var t := Strip(s);
    var body := if t[0] == '-' || t[0] == '+' then t[1..] else t;
    SignedShow(t, body, Value(Digits(body)));
    if Canonical(s) {
      CanonicalStripped(s);
    }
  }

  lemma CanonicalStripped(s: string)
    requires Canonical(s)
    ensures Stripped(s)
  {
    assert IsDigit(s[|s| - 1]) by {
      assert !CanonicalNat(s) ==> s[1..][|s| - 2] == s[|s| - 1];
    }
    assert IsDigit(s[0]) || s[0] == '-';
  }

  lemma {:induction false} ValueShow(n: nat)
    ensures AllDigits(ShowNat(n)) && Value(ShowNat(n)) == n && ShowNat(n) != ""
  {
    if n < 10 {
      assert ShowNat(n)[..0] == "";
    } else {
      ValueShow(n / 10);
      var front := ShowNat(n / 10);
      assert (front + [DigitOf(n % 10)])[..|front|] == front;
    }
  }

  // Different numbers have different texts.
  lemma ShowInjective(m: nat, n: nat)
    requires Show(m) == Show(n)
    ensures m == n
  {
    ValueShow(m);
    ValueShow(n);
  }
}
