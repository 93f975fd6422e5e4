/** The string operations the kit takes from the language: trimming, ASCII case folding, decimals. */
module Text {
  /** The characters String.prototype.trim removes (sections 12.2 and 12.3 of ECMA-262). */
  predicate IsSpace(c: char) {
    || c in {' ', '\t', '\n', '\r', '\U{0B}', '\U{0C}', '\U{A0}', '\U{1680}', '\U{2028}', '\U{2029}'}
    || c in {'\U{202F}', '\U{205F}', '\U{3000}', '\U{FEFF}'}
    || '\U{2000}' <= c <= '\U{200A}'
  }

  function TrimStart(s: string): (t: string)
    ensures t == "" || !IsSpace(t[0])
    ensures |t| <= |s| && t == s[|s| - |t|..]
  {
    if s != "" && IsSpace(s[0]) then TrimStart(s[1..]) else s
  }

  function TrimEnd(s: string): (t: string)
    ensures t == "" || !IsSpace(t[|t| - 1])
    ensures |t| <= |s| && t == s[..|t|]
  {
    if s != "" && IsSpace(s[|s| - 1]) then TrimEnd(s[..|s| - 1]) else s
  }

  function Trim(s: string): (t: string)
    ensures t == "" || (!IsSpace(t[0]) && !IsSpace(t[|t| - 1]))
  {
    TrimEnd(TrimStart(s))
  }

  lemma TrimIsIdempotent(s: string)
    ensures Trim(Trim(s)) == Trim(s)
  {
    var t := Trim(s);
    assert TrimStart(t) == t;
    assert TrimEnd(t) == t;
  }

  function LowerChar(c: char): char {
    if 'A' <= c <= 'Z' then c - 'A' + 'a' else c
  }

  function Lower(s: string): (t: string)
    ensures |t| == |s|
    ensures forall i :: 0 <= i < |s| ==> t[i] == LowerChar(s[i])
  {
    seq(|s|, i requires 0 <= i < |s| => LowerChar(s[i]))
  }

  predicate IsDigit(c: char) {
    '0' <= c <= '9'
  }

  function Digit(d: nat): (c: char)
    requires d < 10
    ensures IsDigit(c)
  {
    '0' + d as char
  }

  /** The `\d+` test of a resolved target. */
  predicate IsNumeric(s: string) {
    s != "" && forall i :: 0 <= i < |s| ==> IsDigit(s[i])
  }

  function Decimal(n: nat): (s: string)
    ensures IsNumeric(s)
  {
    if n < 10 then [Digit(n)] else Decimal(n / 10) + [Digit(n % 10)]
  }

  function DecimalInt(n: int): string {
    if n < 0 then "-" + Decimal(-n) else Decimal(n)
  }

  /** The number a text of digits spells. */
  function Number(s: string): nat
    requires forall i :: 0 <= i < |s| ==> IsDigit(s[i])
  {
    if s == "" then 0
    else
      assert IsDigit(s[|s| - 1]);
      10 * Number(s[..|s| - 1]) + (s[|s| - 1] - '0') as nat
  }

  /** A number is spelled by one text only, and reads back as itself. */
  lemma {:induction false} NumberOfDecimal(n: nat)
    ensures Number(Decimal(n)) == n
  {
    if n >= 10 {
      NumberOfDecimal(n / 10);
      assert Decimal(n)[..|Decimal(n)| - 1] == Decimal(n / 10);
    } else {
      assert Decimal(n)[..0] == "";
    }
  }

  /** No two integers are written alike. */
  lemma DecimalIntIsInjective(a: int, b: int)
    ensures DecimalInt(a) == DecimalInt(b) ==> a == b
  {
    NumberOfDecimal(if a < 0 then -a else a);
    NumberOfDecimal(if b < 0 then -b else b);
    if a < 0 {
      assert DecimalInt(a)[1..] == Decimal(-a) && DecimalInt(a)[0] == '-';
    }
    if b < 0 {
      assert DecimalInt(b)[1..] == Decimal(-b) && DecimalInt(b)[0] == '-';
    }
  }

  ghost predicate AllSpace(s: string) {
    forall i :: 0 <= i < |s| ==> IsSpace(s[i])
  }

  lemma {:induction false} TrimStartTakesSpace(s: string)
    ensures |TrimStart(s)| <= |s| && AllSpace(s[..|s| - |TrimStart(s)|])
  {
    if s != "" && IsSpace(s[0]) {
      TrimStartTakesSpace(s[1..]);
      var k := |s| - |TrimStart(s)|;
      assert forall i :: 0 < i < k ==> s[..k][i] == s[1..][..k - 1][i - 1];
    }
  }

  lemma {:induction false} TrimEndTakesSpace(s: string)
    ensures |TrimEnd(s)| <= |s| && AllSpace(s[|TrimEnd(s)|..])
  {
    if s != "" && IsSpace(s[|s| - 1]) {
      var n := |s| - 1;
      TrimEndTakesSpace(s[..n]);
      var k := |TrimEnd(s)|;
      forall i | 0 <= i < |s[k..]| ensures IsSpace(s[k..][i]) {
        assert k + i < n ==> s[..n][k..][i] == s[k + i];
      }
    }
  }

  /** The text without white space at both ends of it. */
  ghost predicate IsTrimmed(s: string, t: string, i: nat) {
    && i + |t| <= |s| && t == s[i..i + |t|]
    && AllSpace(s[..i]) && AllSpace(s[i + |t|..])
    && (t != "" ==> !IsSpace(t[0]) && !IsSpace(t[|t| - 1]))
  }

  lemma TrimmedTwice(s: string, a: string, t: string)
    requires |a| <= |s| && a == s[|s| - |a|..] && AllSpace(s[..|s| - |a|])
    requires |t| <= |a| && t == a[..|t|] && AllSpace(a[|t|..])
    requires t != "" ==> !IsSpace(t[0]) && !IsSpace(t[|t| - 1])
    ensures IsTrimmed(s, t, |s| - |a|)
  {
    assert s[|s| - |a| + |t|..] == a[|t|..];
  }

  /** Trimming takes white space off both ends, nothing else, and leaves none there. */
  lemma TrimExactly(s: string)
    ensures exists i: nat :: IsTrimmed(s, Trim(s), i)
  {
    TrimStartTakesSpace(s);
    var a := TrimStart(s);
    TrimEndTakesSpace(a);
    TrimmedTwice(s, a, TrimEnd(a));
    var i: nat := |s| - |a|;
    assert Trim(s) == TrimEnd(a) && IsTrimmed(s, Trim(s), i);
  }

  /** Lower-casing changes the capital letters, each to its small one. */
  lemma LowerExactly(i: nat)
    requires i < 26
    ensures LowerChar("ABCDEFGHIJKLMNOPQRSTUVWXYZ"[i]) == "abcdefghijklmnopqrstuvwxyz"[i]
    ensures forall c :: c !in "ABCDEFGHIJKLMNOPQRSTUVWXYZ" ==> LowerChar(c) == c
  {
    var big := "ABCDEFGHIJKLMNOPQRSTUVWXYZ";
    forall c | 'A' <= c <= 'Z' ensures c in big {
      assert big[c as int - 65] == c;
    }
  }

  /** White space and line terminators, by code point (sections 12.2 and 12.3 of ECMA-262). */
  lemma SpacesByCode(c: char)
    ensures IsSpace(c) <==>
            var n := c as int;
            || 9 <= n <= 13 || n == 32 || n == 160 || n == 5760 || 8192 <= n <= 8202
            || n == 8232 || n == 8233 || n == 8239 || n == 8287 || n == 12288 || n == 65279
  {
  }
}
