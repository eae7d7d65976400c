/** Decimal numbers as Rust writes them (`format!("{}", n)`) and reads
    them (`str::parse::<usize>`). */
module Decimal {
  import opened Wrappers

  /** `usize::MAX` on a 64-bit target. */
  const USIZE_MAX: nat := 0xFFFF_FFFF_FFFF_FFFF

  predicate IsDigit(c: char) {
    '0' <= c <= '9'
  }

  predicate AllDigits(s: string) {
    forall i :: 0 <= i < |s| ==> IsDigit(s[i])
  }

  function DigitChar(d: nat): (c: char)
    requires d < 10
    ensures IsDigit(c) && c as int - '0' as int == d
  {
    ('0' as int + d) as char
  }

  /** The number a string of ASCII digits denotes (leading zeros
      allowed), or `None` when some character is not a digit. */
  function Digits(s: string): Option<nat> {
    if s == [] then Some(0)
    else match Digits(s[..|s| - 1])
      case None => None
      case Some(v) =>
        if IsDigit(s[|s| - 1]) then Some(v * 10 + (s[|s| - 1] as int - '0' as int)) else None
  }

  /** Only strings of digits denote a number. */
  lemma {:induction false} DigitsIff(s: string)
    ensures Digits(s).Some? <==> AllDigits(s)
    decreases |s|
  {
    if s != [] {
      var init := s[..|s| - 1];
      DigitsIff(init);
      assert forall i :: 0 <= i < |init| ==> init[i] == s[i];
    }
  }

  /** `Display` for an unsigned integer: its digits, without leading zeros. */
  function Display(n: nat): (s: string)
    ensures |s| >= 1
    ensures s[0] == '0' ==> n == 0 && s == "0"
  {
    if n < 10 then [DigitChar(n)]
    else
      var init := Display(n / 10);
      assert (init + [DigitChar(n % 10)])[0] == init[0];
      init + [DigitChar(n % 10)]
  }

  /** What `Display` writes is all digits. */
  lemma {:induction false} DisplayDigits(n: nat)
    ensures AllDigits(Display(n))
  {
    if n >= 10 {
      DisplayDigits(n / 10);
      var s := Display(n);
      assert s == Display(n / 10) + [DigitChar(n % 10)];
      assert forall i :: 0 <= i < |s| - 1 ==> s[i] == Display(n / 10)[i];
    }
  }

  /** `str::parse::<usize>`: an optional `+`, then at least one ASCII
      digit and nothing else, denoting at most `usize::MAX`. */
  function ParseUsize(s: string): (r: Option<nat>)
    ensures r.Some? ==> r.value <= USIZE_MAX
  {
    var digits := if |s| > 0 && s[0] == '+' then s[1..] else s;
    if digits == [] then None
    else match Digits(digits)
      case None => None
      case Some(v) => if v > USIZE_MAX then None else Some(v)
  }

  /** `Display` followed by reading the digits gives the number back. */
  lemma {:induction false} DigitsDisplay(n: nat)
    ensures Digits(Display(n)) == Some(n)
  {
    if n >= 10 {
      var s := Display(n);
      assert s[..|s| - 1] == Display(n / 10);
      DigitsDisplay(n / 10);
    }
  }

  /** Reading back what was written: every `usize` survives
      `format!` followed by `parse`. */
  lemma ParseDisplay(n: nat)
    requires n <= USIZE_MAX
    ensures ParseUsize(Display(n)) == Some(n)
  {
    DigitsDisplay(n);
    DisplayDigits(n);
    assert IsDigit(Display(n)[0]);
  }

  /** Leading zeros and a leading `+` are accepted. */
  lemma ParseUsizeAccepts()
    ensures ParseUsize("+12") == Some(12) && ParseUsize("007") == Some(7)
  {
    assert "+12"[1..] == "12";
    assert "12"[..1] == "1" && "1"[..0] == "";
    assert Digits("1") == Some(1);
    assert Digits("12") == Some(12);
    assert "007"[..2] == "00" && "00"[..1] == "0" && "0"[..0] == "";
    assert Digits("0") == Some(0) && Digits("00") == Some(0);
    assert Digits("007") == Some(7);
  }

  /** An empty string, a bare `+`, a `-` sign, surrounding whitespace and
      trailing junk are all rejected. */
  lemma ParseUsizeRejects()
    ensures ParseUsize("") == None && ParseUsize("+") == None && ParseUsize("-0") == None
    ensures ParseUsize(" 1") == None && ParseUsize("1a") == None
  {
    assert !IsDigit(" 1"[0]);
    assert !IsDigit("1a"[1]);
    assert !IsDigit("-0"[0]);
  }

  /** A value one past `usize::MAX` overflows and is rejected. */
  lemma ParseUsizeOverflow()
    ensures ParseUsize(Display(USIZE_MAX + 1)) == None
  {
    DigitsDisplay(USIZE_MAX + 1);
    DisplayDigits(USIZE_MAX + 1);
    assert IsDigit(Display(USIZE_MAX + 1)[0]);
  }
}
