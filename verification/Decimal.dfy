/** Decimal numbers as they are written and read. */
module Decimal {
  predicate IsDigit(c: char) { '0' <= c <= '9' }

  predicate AllDigits(s: string) { forall i :: 0 <= i < |s| ==> IsDigit(s[i]) }

  function Digit(d: nat): (c: char)
    requires d < 10
    ensures IsDigit(c) && ValueOf(c) == d
  {
    ('0' as int + d) as char
  }

  function ValueOf(c: char): nat
    requires IsDigit(c)
  {
    c as int - '0' as int
  }

  function Dec(n: nat): (s: string)
    ensures s != "" && AllDigits(s)
    ensures 0 < n <==> s[0] != '0'
    ensures |s| == 1 <==> n < 10
  {
    if n < 10 then [Digit(n)] else Dec(n / 10) + [Digit(n % 10)]
  }

  function ReadDigits(s: string): nat
    requires AllDigits(s)
  {
    if s == "" then 0 else 10 * ReadDigits(s[..|s| - 1]) + ValueOf(s[|s| - 1])
  }

  /** A number written without sign and leading zeros. */
  predicate IsPlainNumber(s: string)
  {
    s != "" && !(1 < |s| && s[0] == '0') && AllDigits(s)
  }

  lemma {:induction false} DecReads(n: nat)
    ensures ReadDigits(Dec(n)) == n
  {
    var s := Dec(n);
    if n < 10 {
      assert s[..0] == "";
    } else {
      DecReads(n / 10);
      assert s[..|s| - 1] == Dec(n / 10);
    }
  }

  lemma {:induction false} ReadIsAtLeast(s: string)
    requires IsPlainNumber(s) && 1 < |s|
    ensures 10 <= ReadDigits(s)
  {
    var t := s[..|s| - 1];
    assert t[0] == s[0];
    if |t| == 1 {
      assert t[..0] == "";
    } else {
      ReadIsAtLeast(t);
    }
  }

  /** A number has one spelling. */
  lemma {:induction false} ReadsOneSpelling(s: string)
    requires IsPlainNumber(s)
    ensures Dec(ReadDigits(s)) == s
  {
    var t, c := s[..|s| - 1], s[|s| - 1];
    assert s == t + [c];
    if |s| == 1 {
      assert ReadDigits(t) == 0;
    } else {
      assert t[0] == s[0];
      ReadIsAtLeast(s);
      ReadsOneSpelling(t);
      var n := ReadDigits(t);
      assert (10 * n + ValueOf(c)) / 10 == n && (10 * n + ValueOf(c)) % 10 == ValueOf(c);
    }
  }
}
