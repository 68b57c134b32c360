/** Shared helpers: optional values, results with an error side, and the decimal
    rendering JavaScript template literals apply to non-negative integers. */
module Common {

  /** A value that may be absent (the source's `T | null`). */
  datatype Option<+T> = None | Some(value: T)

  /** The outcome of an operation that throws in the source: `Err` carries the reason. */
  datatype Result<+T, +E> = Ok(value: T) | Err(error: E)

  predicate IsDigit(ch: char) {
    '0' as int <= ch as int <= '9' as int
  }

  function DigitChar(d: nat): (ch: char)
    requires d < 10
    ensures IsDigit(ch)
    ensures ch as int - '0' as int == d
  {
    "0123456789"[d]
  }

  /** Decimal text of `n` without leading zeros. */
  function NatToString(n: nat): (s: string)
    ensures 1 <= |s|
    ensures forall i :: 0 <= i < |s| ==> IsDigit(s[i])
    ensures n < 10 <==> |s| == 1
  {
    if n < 10 then [DigitChar(n)] else NatToString(n / 10) + [DigitChar(n % 10)]
  }

  /** Reads a string of decimal digits back as a number (the inverse of NatToString). */
  function DecimalValue(s: string): nat
    requires forall i :: 0 <= i < |s| ==> IsDigit(s[i])
  {
    if s == [] then 0
    else
      var last := s[|s| - 1];
      assert IsDigit(last);
      DecimalValue(s[..|s| - 1]) * 10 + (last as int - '0' as int)
  }

  lemma {:induction false} DecimalRoundTrip(n: nat)
    ensures DecimalValue(NatToString(n)) == n
  {
    if n >= 10 {
      var s := NatToString(n);
      assert s[..|s| - 1] == NatToString(n / 10);
      DecimalRoundTrip(n / 10);
    }
  }

  /** Distinct numbers print as distinct strings. */
  lemma NatToStringInjective(m: nat, n: nat)
    requires m != n
    ensures NatToString(m) != NatToString(n)
  {
    DecimalRoundTrip(m);
    DecimalRoundTrip(n);
  }

  /** Signed decimal text, with a leading '-' for negative numbers. */
  function IntToString(i: int): (s: string)
    ensures 1 <= |s|
    ensures s[0] == '-' <==> i < 0
  {
    if i < 0 then "-" + NatToString(-i) else NatToString(i)
  }

  /** Index of the first occurrence of `ch` in `s`, or `|s|` when there is none. */
  function FirstIndexOf(s: string, ch: char): (i: nat)
    ensures i <= |s|
    ensures i < |s| ==> s[i] == ch
    ensures ch !in s[..i]
  {
    if s == [] then 0
    else if s[0] == ch then 0
    else
      assert s[..1 + FirstIndexOf(s[1..], ch)] == [s[0]] + s[1..][..FirstIndexOf(s[1..], ch)];
      1 + FirstIndexOf(s[1..], ch)
  }

  lemma {:induction false} FirstUnderscoreAfterHead(a: string, t: string)
    requires '_' !in a
    ensures FirstIndexOf(a + "_" + t, '_') == |a|
  {
    if a != [] {
      assert (a + "_" + t)[1..] == a[1..] + "_" + t;
      FirstUnderscoreAfterHead(a[1..], t);
    }
  }

  /** When neither head contains '_', a text of the form `head + "_" + tail` determines both parts. */
  lemma UnderscoreSplit(a1: string, t1: string, a2: string, t2: string)
    requires '_' !in a1 && '_' !in a2
    requires a1 + "_" + t1 == a2 + "_" + t2
    ensures a1 == a2 && t1 == t2
  {
    var s := a1 + "_" + t1;
    FirstUnderscoreAfterHead(a1, t1);
    FirstUnderscoreAfterHead(a2, t2);
    assert a1 == s[..|a1|] == a2;
    assert t1 == s[|a1| + 1..] == t2;
  }
}
