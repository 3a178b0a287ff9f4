/** C strings, their numbers and their letters. */
module Text {
  import opened Bytes
  import Arithmetic

  datatype Option<T> = None | Some(value: T)

  /** The bytes of an ASCII text. */
  function Ascii(t: string): (s: seq<byte>)
    ensures |s| == |t| && (forall i :: 0 <= i < |t| ==> s[i] == t[i] as int % 256)
  {
    seq(|t|, i requires 0 <= i < |t| => t[i] as int % 256)
  }

  /** The characters before the first NUL. */
  function CString(s: seq<byte>): (r: seq<byte>)
    ensures |r| <= |s| && r == s[..|r|] && 0 !in r
    ensures |r| < |s| ==> s[|r|] == 0
  {
    if s == [] || s[0] == 0 then [] else [s[0]] + CString(s[1..])
  }

  lemma {:induction false} CStringIs(s: seq<byte>, n: nat)
    requires n <= |s| && 0 !in s[..n] && (n < |s| ==> s[n] == 0)
    ensures CString(s) == s[..n]
  {
    if n > 0 {
      assert s[0] in s[..n];
      assert s[1..][..n - 1] == s[..n][1..];
      CStringIs(s[1..], n - 1);
    }
  }

  predicate IsDigit(c: byte) {
    48 <= c <= 57
  }

  function Digits(n: nat): (s: seq<byte>)
    ensures |s| > 0 && forall i :: 0 <= i < |s| ==> IsDigit(s[i])
  {
    if n < 10 then [48 + n] else Digits(n / 10) + [48 + n % 10]
  }

  /** "%d" */
  function Decimal(n: int): (s: seq<byte>)
    ensures |s| > 0
  {
    if n < 0 then [45] + Digits(-n) else Digits(n)
  }

  /** The number the leading digits of s continue, after n. */
  function ReadDigits(s: seq<byte>, n: nat): nat {
    if s == [] || !IsDigit(s[0]) then n else ReadDigits(s[1..], 10 * n + (s[0] as int - 48))
  }

  /** atoi */
  function Atoi(s: seq<byte>): int {
    if s == [] then 0
    else if s[0] == 32 || 9 <= s[0] <= 13 then Atoi(s[1..])
    else if s[0] == 45 then -(ReadDigits(s[1..], 0) as int)
    else if s[0] == 43 then ReadDigits(s[1..], 0)
    else ReadDigits(s, 0)
  }

  lemma {:induction false} ReadDigitsAppend(s: seq<byte>, d: byte, n: nat)
    requires IsDigit(d) && forall i :: 0 <= i < |s| ==> IsDigit(s[i])
    ensures ReadDigits(s + [d], n) == 10 * ReadDigits(s, n) + (d as int - 48)
    decreases |s|
  {
    if s == [] {
      assert ReadDigits([d][1..], 10 * n + (d as int - 48)) == 10 * n + (d as int - 48);
    } else {
      assert (s + [d])[1..] == s[1..] + [d];
      ReadDigitsAppend(s[1..], d, 10 * n + (s[0] as int - 48));
    }
  }

  lemma {:induction false} DigitsReadBack(n: nat)
    ensures ReadDigits(Digits(n), 0) == n
  {
    if n < 10 {
      assert ReadDigits([48 + n][1..], n) == n;
    } else {
      DigitsReadBack(n / 10);
      ReadDigitsAppend(Digits(n / 10), 48 + n % 10, 0);
    }
  }

  lemma WholeString(s: seq<byte>)
    requires 0 !in s
    ensures CString(s) == s
  {
    assert s[..|s|] == s;
    CStringIs(s, |s|);
  }

  lemma DecimalReadsBack(n: int)
    ensures Atoi(Decimal(n)) == n && 0 !in Decimal(n)
  {
    if n < 0 {
      DigitsReadBack(-n);
      assert Decimal(n)[1..] == Digits(-n);
    } else {
      DigitsReadBack(n);
      assert IsDigit(Digits(n)[0]);
    }
  }

  function Pow10(k: nat): (p: nat)
    ensures p > 0
  {
    if k == 0 then 1 else 10 * Pow10(k - 1)
  }

  lemma {:induction false} DigitsLength(n: nat, k: nat)
    requires k >= 1 && n < Pow10(k)
    ensures |Digits(n)| <= k
  {
    if n >= 10 {
      assert k > 1;
      DigitsLength(n / 10, k - 1);
    }
  }

  /** What "%d" prints: the decimal digits from the most significant on, without leading zeros, and a minus
      sign in front of a negative number. */
  lemma {:induction false} DigitIs(n: nat, k: nat)
    requires k < |Digits(n)|
    ensures Digits(n)[|Digits(n)| - 1 - k] as int == 48 + n / Pow10(k) % 10
    ensures Pow10(|Digits(n)|) > n && (|Digits(n)| > 1 ==> Digits(n)[0] != 48)
    decreases n
  {
    if n >= 10 {
      var d := Digits(n / 10);
      DigitIs(n / 10, if k == 0 then 0 else k - 1);
      if k > 0 {
        DividedTwice(n, Pow10(k - 1));
      }
      assert |Digits(n)| == |d| + 1 && Digits(n)[0] == d[0];
      assert n / 10 < 10 ==> d == [48 + n / 10];
    }
  }

  lemma DividedTwice(n: nat, p: nat)
    requires p > 0
    ensures n / 10 / p == n / (10 * p)
  {
    var q, m := n / 10 / p, n / 10 % p;
    assert n == 10 * (p * q + m) + n % 10;
    assert 10 * (p * q + m) == q * (10 * p) + 10 * m;
    Arithmetic.UniqueDivision(n, 10 * p, q, 10 * m + n % 10);
  }

  function LowerChar(c: byte): byte {
    if 65 <= c <= 90 then c + 32 else c
  }

  function Lower(s: seq<byte>): (r: seq<byte>)
    ensures |r| == |s|
  {
    seq(|s|, i requires 0 <= i < |s| => LowerChar(s[i]))
  }

  /** strtol in base 10; None when there is no number. */
  function StrToL(s: seq<byte>): Option<int> {
    if s == [] then None
    else if s[0] == 32 || 9 <= s[0] <= 13 then StrToL(s[1..])
    else
      var t := if s[0] == 45 || s[0] == 43 then s[1..] else s;
      if t == [] || !IsDigit(t[0]) then None
      else Some(if s[0] == 45 then -(ReadDigits(t, 0) as int) else ReadDigits(t, 0))
  }

  /** A decimal number reads back, alone or after a space. */
  lemma NumberReadsBack(n: nat)
    ensures StrToL(Decimal(n)) == Some(n) && StrToL([32] + Decimal(n)) == Some(n)
  {
    DigitsReadBack(n);
    assert ([32] + Decimal(n))[1..] == Digits(n);
    assert IsDigit(Digits(n)[0]);
  }
}
