/**
 * The session timeout (main.go:44 and 50): the `--timeout` text is read
 * with strconv.Atoi, a syntax error is discarded so that its zero value is
 * used, and the number of seconds is multiplied by 1000 to give
 * `session.timeout.ms`.
 */
module SessionTimeout {
  import opened Wrappers

  predicate IsDigit(c: char) {
    '0' <= c <= '9'
  }

  predicate IsSign(c: char) {
    c == '+' || c == '-'
  }

  predicate AllDigits(s: string) {
    forall i :: 0 <= i < |s| ==> IsDigit(s[i])
  }

  /**
   * The text Atoi accepts: digits only, except for a sign in front, and at
   * least one digit.
   */
  predicate IsDecimal(s: string) {
    && (forall i :: 0 <= i < |s| ==> IsDigit(s[i]) || (i == 0 && IsSign(s[i])))
    && (exists i :: 0 <= i < |s| && IsDigit(s[i]))
  }

  function DigitChar(d: int): (c: char)
    requires 0 <= d < 10
    ensures IsDigit(c)
  {
    ('0' as int + d) as char
  }

  /** The value of a run of decimal digits, most significant first. */
  function DigitsValue(s: string): nat
    requires AllDigits(s)
  {
    if s == [] then 0
    else DigitsValue(s[..|s| - 1]) * 10 + (s[|s| - 1] as int - '0' as int)
  }

  /** strconv.Atoi in base 10: an optional sign followed by decimal digits. */
  function Atoi(s: string): (r: Option<int>)
    ensures r.Some? <==> IsDecimal(s)
    ensures r.Some? && s[0] == '-' ==> r.value <= 0
    ensures r.Some? && s[0] != '-' ==> r.value >= 0
  {
    if s == [] then None
    else
      var digits := if IsSign(s[0]) then s[1..] else s;
      if digits == [] || !AllDigits(digits) then None
      else
        var n: int := DigitsValue(digits);
        Some(if s[0] == '-' then -n else n)
  }

  /** The decimal text of a natural number, without leading zeros. */
  function NatToString(n: nat): (s: string)
    ensures s != [] && AllDigits(s)
    ensures |s| > 1 ==> s[0] != '0'
  {
    if n < 10 then [DigitChar(n)] else NatToString(n / 10) + [DigitChar(n % 10)]
  }

  /** strconv.Itoa: the inverse of Atoi on canonical text. */
  function Itoa(n: int): (s: string)
    ensures IsDecimal(s)
  {
    var s := if n < 0 then "-" + NatToString(-n) else NatToString(n);
    assert IsDigit(s[|s| - 1]);
    s
  }

  /** Reading back the digits of a number gives the number. */
  lemma {:induction false} DigitsOfNat(n: nat)
    ensures DigitsValue(NatToString(n)) == n
  {
    if n >= 10 {
      var s := NatToString(n);
      assert s[..|s| - 1] == NatToString(n / 10);
      DigitsOfNat(n / 10);
    }
  }

  /** Atoi on a sign followed by a non-empty run of digits. */
  lemma AtoiSigned(sign: string, digits: string)
    requires sign == "" || sign == "+" || sign == "-"
    requires digits != [] && AllDigits(digits)
    ensures Atoi(sign + digits) ==
              Some(if sign == "-" then -(DigitsValue(digits) as int) else DigitsValue(digits))
  {
    var s := sign + digits;
    if sign == "" {
      assert s == digits;
      assert !IsSign(s[0]);
    } else {
      assert IsSign(s[0]);
      assert s[1..] == digits;
    }
  }

  /** Atoi reads back what Itoa writes, for every integer. */
  lemma AtoiItoa(n: int)
    ensures Atoi(Itoa(n)) == Some(n)
  {
    var m: nat := if n < 0 then -n else n;
    var t := NatToString(m);
    assert DigitsValue(t) == m by {
      DigitsOfNat(m);
    }
    var sign := if n < 0 then "-" else "";
    assert Itoa(n) == sign + t;
    AtoiSigned(sign, t);
  }

  predicate AllZeros(z: string) {
    forall i :: 0 <= i < |z| ==> z[i] == '0'
  }

  /** A leading zero does not change the value of a run of digits. */
  lemma {:induction false} DigitsLeadingZero(d: string)
    requires AllDigits(d)
    ensures AllDigits("0" + d) && DigitsValue("0" + d) == DigitsValue(d)
  {
    var s := "0" + d;
    if d == [] {
      assert s[..|s| - 1] == [];
    } else {
      assert s[..|s| - 1] == "0" + d[..|d| - 1];
      DigitsLeadingZero(d[..|d| - 1]);
    }
  }

  /** Any number of leading zeros does not change the value of a run of digits. */
  lemma {:induction false} DigitsLeadingZeros(z: string, d: string)
    requires AllZeros(z) && AllDigits(d)
    ensures AllDigits(z + d) && DigitsValue(z + d) == DigitsValue(d)
  {
    if z != [] {
      assert z + d == "0" + (z[1..] + d);
      DigitsLeadingZeros(z[1..], d);
      DigitsLeadingZero(z[1..] + d);
    } else {
      assert z + d == d;
    }
  }

  /**
   * Atoi on any spelling of a number: an optional sign, any number of
   * leading zeros, then the number's canonical digits.
   */
  lemma AtoiDecimal(sign: string, zeros: string, n: nat)
    requires sign == "" || sign == "+" || sign == "-"
    requires AllZeros(zeros)
    ensures Atoi(sign + (zeros + NatToString(n))) == Some(if sign == "-" then -(n as int) else n)
  {
    var digits := zeros + NatToString(n);
    assert digits != [] && AllDigits(digits) && DigitsValue(digits) == n by {
      DigitsLeadingZeros(zeros, NatToString(n));
      DigitsOfNat(n);
    }
    AtoiSigned(sign, digits);
  }

  /** A run of digits without a leading zero is the canonical text of its value. */
  lemma {:induction false} CanonicalDigits(t: string)
    requires t != [] && AllDigits(t)
    requires |t| > 1 ==> t[0] != '0'
    ensures NatToString(DigitsValue(t)) == t
  {
    if |t| == 1 {
      assert t[..0] == [];
    } else {
      var front := t[..|t| - 1];
      var c := t[|t| - 1] as int - '0' as int;
      CanonicalDigits(front);
      var v := DigitsValue(front);
      assert v != 0;
      var n := v * 10 + c;
      assert n / 10 == v && n % 10 == c;
      assert DigitChar(c) == t[|t| - 1];
      assert front + [t[|t| - 1]] == t;
    }
  }

  /** Every run of digits is some leading zeros followed by the canonical text of a number. */
  lemma {:induction false} DigitsParts(t: string) returns (zeros: string, n: nat)
    requires t != [] && AllDigits(t)
    ensures AllZeros(zeros) && t == zeros + NatToString(n)
  {
    if |t| > 1 && t[0] == '0' {
      var z, m := DigitsParts(t[1..]);
      zeros, n := "0" + z, m;
      assert t == [t[0]] + t[1..];
    } else {
      CanonicalDigits(t);
      zeros, n := "", DigitsValue(t);
    }
  }

  /**
   * Every text Atoi accepts is a sign, leading zeros and canonical digits,
   * so AtoiDecimal gives its value.
   */
  lemma DecimalParts(s: string) returns (sign: string, zeros: string, n: nat)
    requires IsDecimal(s)
    ensures sign == "" || sign == "+" || sign == "-"
    ensures AllZeros(zeros) && s == sign + (zeros + NatToString(n))
  {
    sign := if IsSign(s[0]) then [s[0]] else "";
    var t := s[|sign|..];
    assert AllDigits(t) by {
      forall i | 0 <= i < |t| ensures IsDigit(t[i]) {
        assert t[i] == s[i + |sign|];
      }
    }
    var i :| 0 <= i < |s| && IsDigit(s[i]);
    assert t != [];
    zeros, n := DigitsParts(t);
    assert s == sign + t;
  }

  /** The timeout handed to the client: seconds times 1000, or 0 when the text is not a number. */
  function SessionTimeoutMs(tseconds: string): (ms: int)
    ensures ms % 1000 == 0
    ensures !IsDecimal(tseconds) ==> ms == 0
    ensures tseconds != [] && tseconds[0] == '-' ==> ms <= 0
  {
    Atoi(tseconds).GetOr(0) * 1000
  }

  /** A timeout written as an integer n gives n * 1000 milliseconds. */
  lemma TimeoutOfNumber(n: int)
    ensures SessionTimeoutMs(Itoa(n)) == n * 1000
  {
    AtoiItoa(n);
  }

  /** Any spelling of n seconds (sign, leading zeros) gives n * 1000 milliseconds. */
  lemma TimeoutOfDecimal(sign: string, zeros: string, n: nat)
    requires sign == "" || sign == "+" || sign == "-"
    requires AllZeros(zeros)
    ensures SessionTimeoutMs(sign + (zeros + NatToString(n))) == (if sign == "-" then -(n as int) else n) * 1000
  {
    AtoiDecimal(sign, zeros, n);
  }

  /** The default `--timeout` of "6" seconds gives 6000 milliseconds. */
  lemma DefaultTimeout()
    ensures SessionTimeoutMs("6") == 6000
  {
  }
}
