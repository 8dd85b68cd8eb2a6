/** Decimal text of `u32` values: Rust's `{}` formatting and `u32::from_str`. */
module Decimal {
  import opened Wrappers
  import opened Versions

  predicate IsDigit(c: char) {
    '0' <= c <= '9'
  }

  predicate AllDigits(s: string) {
    forall i :: 0 <= i < |s| ==> IsDigit(s[i])
  }

  function DigitChar(d: nat): (c: char)
    requires d < 10
    ensures IsDigit(c)
  {
    (48 + d) as char
  }

  function DigitValue(c: char): (d: nat)
    requires IsDigit(c)
    ensures d < 10 && DigitChar(d) == c
  {
    (c as int) - 48
  }

  /** The number written by a string of digits, most significant first. */
  function DigitsValue(s: string): nat
    requires AllDigits(s)
    decreases |s|
  {
    if s == [] then 0 else DigitsValue(s[..|s| - 1]) * 10 + DigitValue(s[|s| - 1])
  }

  /** `format!("{}", n)`: decimal digits, no sign, no leading zero. */
  function Show(n: nat): (s: string)
    ensures |s| > 0 && AllDigits(s)
    ensures |s| > 1 ==> s[0] != '0'
  {
    if n < 10 then [DigitChar(n)] else Show(n / 10) + [DigitChar(n % 10)]
  }

  /**
   * `u32::from_str`: an optional `+`, then at least one digit, with the
   * value below 2^32; anything else is an error.
   */
  function ParseU32(s: string): (r: Option<u32>)
    ensures r.Some? ==> |s| > 0 && (IsDigit(s[0]) || s[0] == '+') && forall i :: 0 < i < |s| ==> IsDigit(s[i])
    ensures r.Some? && s[0] == '+' ==> |s| > 1
  {
    var digits := if |s| > 0 && s[0] == '+' then s[1..] else s;
    if |digits| == 0 || !AllDigits(digits) then None
    else
      var n := DigitsValue(digits);
      if n < U32_LIMIT then Some(n) else None
  }

  lemma {:induction false} DigitsValueShow(n: nat)
    ensures DigitsValue(Show(n)) == n
  {
    if n >= 10 {
      var s := Show(n);
      assert s[..|s| - 1] == Show(n / 10);
      DigitsValueShow(n / 10);
    }
  }

  /** Printing a `u32` and parsing it back gives the number. */
  lemma ParseShow(n: u32)
    ensures ParseU32(Show(n)) == Some(n)
  {
    DigitsValueShow(n);
  }

  /** Digit strings hold no separator used by the package text encoding. */
  lemma ShowHasNoSeparator(n: nat, c: char)
    requires !IsDigit(c)
    ensures c !in Show(n)
  {
  }

  /** Empty text, a lone sign and a minus sign are rejected; a leading '+' or zero is accepted. */
  lemma ParseU32Examples()
    ensures ParseU32("") == None && ParseU32("+") == None && ParseU32("-1") == None
    ensures ParseU32("+7") == Some(7) && ParseU32("007") == Some(7)
  {
    assert "+7"[1..] == "7";
    assert DigitsValue("007") == 7 by {
      assert "007"[..2] == "00" && "00"[..1] == "0";
    }
  }

  lemma DigitsOfLimitPrefix()
    ensures DigitsValue("429496729") == 429496729
  {
    assert DigitsValue("4") == 4;
    assert "42"[..1] == "4";
    assert DigitsValue("42") == 42;
    assert "429"[..2] == "42";
    assert DigitsValue("429") == 429;
    assert "4294"[..3] == "429";
    assert DigitsValue("4294") == 4294;
    assert "42949"[..4] == "4294";
    assert DigitsValue("42949") == 42949;
    assert "429496"[..5] == "42949";
    assert DigitsValue("429496") == 429496;
    assert "4294967"[..6] == "429496";
    assert DigitsValue("4294967") == 4294967;
    assert "42949672"[..7] == "4294967";
    assert DigitsValue("42949672") == 42949672;
    assert "429496729"[..8] == "42949672";
    assert DigitsValue("429496729") == 429496729;
  }

  /** The largest u32 is accepted and the next number is rejected. */
  lemma ParseU32Limit()
    ensures ParseU32("4294967295") == Some(4294967295)
    ensures ParseU32("4294967296") == None
  {
    DigitsOfLimitPrefix();
    assert "4294967295"[..9] == "429496729";
    assert "4294967296"[..9] == "429496729";
  }
}
