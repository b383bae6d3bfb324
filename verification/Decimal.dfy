// Decimal numbers as text: strconv.Itoa and strconv.Atoi on the indices that key the points
// of a list.
module Decimal {
  import opened Wrappers

  const MAX_INT64: int := 0x7FFF_FFFF_FFFF_FFFF

  predicate IsDigit(c: char) { '0' <= c <= '9' }

  function DigitOf(c: char): (d: nat)
    requires IsDigit(c)
    ensures d < 10
  {
    c as int - '0' as int
  }

  function CharOf(d: nat): (c: char)
    requires d < 10
    ensures IsDigit(c) && DigitOf(c) == d
  {
    ('0' as int + d) as char
  }

  predicate AllDigits(s: string) { forall i :: 0 <= i < |s| ==> IsDigit(s[i]) }

  function Digits(s: string): nat
    requires AllDigits(s)
  {
    if s == "" then 0 else 10 * Digits(s[..|s| - 1]) + DigitOf(s[|s| - 1])
  }

  function Itoa(n: nat): string {
    if n < 10 then [CharOf(n)] else Itoa(n / 10) + [CharOf(n % 10)]
  }

  // An optional sign and at least one digit; the number must fit in 64 bits.
  function Atoi(s: string): Option<int> {
    var neg := s != "" && s[0] == '-';
    var t := if s != "" && (s[0] == '-' || s[0] == '+') then s[1..] else s;
    if t == "" || !AllDigits(t) then None
    else
      var n: int := Digits(t);
      if neg then (if n <= MAX_INT64 + 1 then Some(-n) else None)
      else if n <= MAX_INT64 then Some(n) else None
  }

  lemma {:induction false} ItoaDigits(n: nat)
    ensures Itoa(n) != "" && AllDigits(Itoa(n)) && Digits(Itoa(n)) == n
  {
    if n < 10 {
      assert Itoa(n)[..0] == "";
    } else {
      ItoaDigits(n / 10);
      assert Itoa(n)[..|Itoa(n)| - 1] == Itoa(n / 10);
    }
  }

  // A number is text of digits, with or without a sign and zeros in front; and nothing else is.
  lemma {:induction false} AtoiOfSigned(sign: string, zeros: string, n: nat)
    requires sign in {"", "+", "-"} && forall i :: 0 <= i < |zeros| ==> zeros[i] == '0'
    ensures Atoi(sign + zeros + Itoa(n)) ==
      if sign == "-" then (if n <= 9223372036854775808 then Some(-(n as int)) else None)
      else if n <= 9223372036854775807 then Some(n as int)
      else None
  {
    hide Atoi, Digits, Itoa;
    ItoaDigits(n);
    WithZeros(zeros, Itoa(n));
    var t := zeros + Itoa(n);
    assert sign + zeros + Itoa(n) == sign + t;
    assert "" + t == t;
    AtoiOfDigits(t);
  }

  lemma {:induction false} AtoiOfDigits(t: string)
    requires t != "" && AllDigits(t)
    ensures Atoi(t) == Atoi("+" + t) == if Digits(t) <= MAX_INT64 then Some(Digits(t) as int) else None
    ensures Atoi("-" + t) == if Digits(t) <= MAX_INT64 + 1 then Some(-(Digits(t) as int)) else None
  {
    hide Digits;
    assert IsDigit(t[0]);
    assert ("+" + t)[1..] == t && ("-" + t)[1..] == t;
  }

  lemma {:induction false} WithZeros(zeros: string, t: string)
    requires AllDigits(t) && forall i :: 0 <= i < |zeros| ==> zeros[i] == '0'
    ensures AllDigits(zeros + t) && Digits(zeros + t) == Digits(t)
  {
    if t == "" {
      assert zeros + t == zeros;
      if zeros != "" {
        WithZeros(zeros[..|zeros| - 1], "");
        assert zeros[..|zeros| - 1] + "" == zeros[..|zeros| - 1];
      }
    } else {
      var n := |t| - 1;
      assert (zeros + t)[..|zeros + t| - 1] == zeros + t[..n];
      WithZeros(zeros, t[..n]);
    }
  }

  lemma {:induction false} AtoiAccepts(s: string)
    ensures Atoi(s).Some? ==>
      var t := if s != "" && (s[0] == '-' || s[0] == '+') then s[1..] else s;
      t != "" && forall i :: 0 <= i < |t| ==> '0' <= t[i] <= '9'
  {
  }

  // Without zeros in front.
  lemma {:induction false} ItoaStarts(n: nat)
    ensures Itoa(n) != "" && (Itoa(n)[0] == '0' ==> n == 0)
    ensures forall i :: 0 <= i < |Itoa(n)| ==> '0' <= Itoa(n)[i] <= '9'
  {
    if n >= 10 {
      ItoaStarts(n / 10);
    }
  }

  // Every index is read back from its text, so different indices have different texts.
  lemma {:induction false} AtoiOfItoa(n: nat)
    requires n <= MAX_INT64
    ensures Atoi(Itoa(n)) == Some(n)
    ensures Itoa(n) != ""
  {
    ItoaDigits(n);
    assert IsDigit(Itoa(n)[0]);
  }
}
