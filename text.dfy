/**
 * String helpers shared by the snippet memory and the chat script: decimal
 * rendering of page numbers (Python's `str` of a non-negative `int`) and the
 * two joins the source uses, `''.join` and `sep.join`.
 */
module Text {

  datatype Option<T> = None | Some(value: T)

  predicate IsDigit(c: char) {
    '0' <= c <= '9'
  }

  predicate AllDigits(s: string) {
    forall i :: 0 <= i < |s| ==> IsDigit(s[i])
  }

  function DigitChar(d: nat): (c: char)
    requires d < 10
    ensures IsDigit(c) && c as int - '0' as int == d
  {
    (d + '0' as int) as char
  }

  function DigitValue(c: char): (d: nat)
    requires IsDigit(c)
    ensures d < 10
  {
    c as int - '0' as int
  }

  /** Decimal digits of `n`, most significant first, with no leading zero. */
  function NatToString(n: nat): (s: string)
    ensures |s| > 0 && AllDigits(s)
    ensures (s[0] == '0') <==> (n == 0)
    ensures n == 0 ==> s == "0"
  {
    if n < 10 then [DigitChar(n)] else NatToString(n / 10) + [DigitChar(n % 10)]
  }

  /** The value of a string of decimal digits; the inverse of NatToString. */
  function ParseNat(s: string): nat
    requires AllDigits(s)
  {
    if s == [] then 0 else ParseNat(s[..|s| - 1]) * 10 + DigitValue(s[|s| - 1])
  }

  lemma {:induction false} ParseNatToString(n: nat)
    ensures ParseNat(NatToString(n)) == n
  {
    var s := NatToString(n);
    if n >= 10 {
      ParseNatToString(n / 10);
      assert s[..|s| - 1] == NatToString(n / 10);
    }
  }

  /** Two page numbers render to the same text only if they are equal. */
  lemma NatToStringInjective(a: nat, b: nat)
    requires NatToString(a) == NatToString(b)
    ensures a == b
  {
    ParseNatToString(a);
    ParseNatToString(b);
  }

  predicate EndsWith(s: string, suffix: string) {
    |suffix| <= |s| && s[|s| - |suffix|..] == suffix
  }

  /** Python's `''.join(ss)`. */
  function Concat(ss: seq<string>): string {
    if ss == [] then "" else ss[0] + Concat(ss[1..])
  }

  lemma {:induction false} ConcatAppend(a: seq<string>, b: seq<string>)
    ensures Concat(a + b) == Concat(a) + Concat(b)
  {
    if a == [] {
      assert a + b == b;
    } else {
      assert (a + b)[0] == a[0] && (a + b)[1..] == a[1..] + b;
      ConcatAppend(a[1..], b);
    }
  }

  /**
   * Every element appears in the concatenation in its own place: after all
   * earlier elements and before all later ones, with nothing in between.
   */
  lemma {:induction false} ConcatSplit(ss: seq<string>, i: nat)
    requires i < |ss|
    ensures Concat(ss) == Concat(ss[..i]) + ss[i] + Concat(ss[i + 1..])
  {
    var rest := [ss[i]] + ss[i + 1..];
    assert ss == ss[..i] + rest;
    ConcatAppend(ss[..i], rest);
    assert rest[0] == ss[i] && rest[1..] == ss[i + 1..];
    assert Concat(rest) == ss[i] + Concat(ss[i + 1..]);
    var p, q := Concat(ss[..i]), Concat(ss[i + 1..]);
    assert p + (ss[i] + q) == p + ss[i] + q;
  }

  /** Python's `sep.join(ss)`. */
  function JoinWith(sep: string, ss: seq<string>): string {
    if ss == [] then ""
    else if |ss| == 1 then ss[0]
    else ss[0] + sep + JoinWith(sep, ss[1..])
  }

  lemma {:induction false} JoinWithEndsWithLast(sep: string, ss: seq<string>)
    requires ss != []
    ensures EndsWith(JoinWith(sep, ss), ss[|ss| - 1])
  {
    if |ss| > 1 {
      JoinWithEndsWithLast(sep, ss[1..]);
      var j := JoinWith(sep, ss[1..]);
      var last := ss[|ss| - 1];
      assert (ss[0] + sep + j)[|ss[0] + sep + j| - |last|..] == j[|j| - |last|..];
    }
  }
}
