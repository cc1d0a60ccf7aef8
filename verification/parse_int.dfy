/** Rust's `str::parse::<i32>`, which turns the id of a quoted message into
    the number that the message lookup takes. */
module ParseInt {
  import opened Optional

  const I32Min: int := -0x8000_0000
  const I32Max: int := 0x7FFF_FFFF

  predicate IsDigit(c: char)
  {
    '0' <= c <= '9'
  }

  predicate AllDigits(s: string)
  {
    forall k :: 0 <= k < |s| ==> IsDigit(s[k])
  }

  function DigitValue(c: char): nat
    requires IsDigit(c)
  {
    c as int - '0' as int
  }

  /** The value of a decimal digit string, read left to right. */
  function DigitsValue(s: string): nat
    requires AllDigits(s)
  {
    if s == [] then 0 else DigitsValue(s[..|s| - 1]) * 10 + DigitValue(s[|s| - 1])
  }

  /** An optional `+` or `-`, then one or more ASCII digits whose signed
      value fits in 32 bits; anything else (an empty string, a lone sign,
      spaces, other characters, overflow) is an error. */
  function ParseI32(s: string): (r: Option<int>)
    ensures r.Some? ==> I32Min <= r.value <= I32Max
    ensures r.Some? ==> s != [] && (IsDigit(s[0]) || s[0] == '+' || s[0] == '-')
    ensures r.Some? && s[0] == '-' ==> r.value <= 0
    ensures r.Some? ==> AllDigits(s[1..]) && (|s| == 1 ==> IsDigit(s[0]))
  {
    if s == [] then None
    else
      var negative := s[0] == '-';
      var digits := if s[0] == '+' || s[0] == '-' then s[1..] else s;
      if digits == [] || !AllDigits(digits) then None
      else
        var magnitude: int := DigitsValue(digits);
        var v := if negative then -magnitude else magnitude;
        if I32Min <= v <= I32Max then Some(v) else None
  }

  /** The decimal digits of `n`, most significant first, without leading
      zeros. */
  function Digits(n: nat): (s: string)
    ensures s != [] && AllDigits(s)
  {
    var last := ('0' as int + n % 10) as char;
    if n < 10 then [last] else Digits(n / 10) + [last]
  }

  /** The canonical decimal spelling of `n`, as `n.to_string()` gives it. */
  function ShowInt(n: int): string
  {
    if n < 0 then "-" + Digits(-n) else Digits(n)
  }

  lemma {:induction false} DigitsValueOfDigits(n: nat)
    ensures DigitsValue(Digits(n)) == n
  {
    var s := Digits(n);
    if n >= 10 {
      DigitsValueOfDigits(n / 10);
      assert s[..|s| - 1] == Digits(n / 10);
    }
  }

  /** Every 32-bit integer written in decimal parses back to itself. */
  lemma ParseShowRoundTrip(n: int)
    requires I32Min <= n <= I32Max
    ensures ParseI32(ShowInt(n)) == Some(n)
  {
    if n < 0 {
      DigitsValueOfDigits(-n);
      assert ShowInt(n)[1..] == Digits(-n);
    } else {
      DigitsValueOfDigits(n);
    }
  }

  /** An explicit `+` sign is accepted and changes nothing. */
  lemma ParsePlusSign(n: nat)
    requires n <= I32Max
    ensures ParseI32("+" + Digits(n)) == Some(n)
  {
    DigitsValueOfDigits(n);
    assert ("+" + Digits(n))[1..] == Digits(n);
  }
}
