/**
 Rust's `str::parse::<u16>()` restricted to what its documentation
 guarantees: an optional leading `+` (only when something follows it), then
 one or more ASCII digits whose decimal value is at most 65535. Anything
 else (empty text, a lone `+`, a `-`, a space, any non-digit, overflow) is
 an error, modelled as `None`.

 `Decimal` renders a number the way `u16`'s `Display` does; it is the
 partner of the parser: the lemmas below show that the texts the parser
 accepts are exactly an optional `+`, any number of `0`s, and the decimal
 rendering of the value.
 */
module U16 {
  import opened Wrappers

  /** Rust's `u16`. */
  type u16 = x: int | 0 <= x <= 0xFFFF

  predicate IsDigit(c: char) {
    '0' <= c <= '9'
  }

  predicate AllDigits(s: string) {
    forall i :: 0 <= i < |s| ==> IsDigit(s[i])
  }

  function DigitValue(c: char): nat
    requires IsDigit(c)
  {
    c as int - '0' as int
  }

  function DigitChar(d: nat): (c: char)
    requires d < 10
    ensures IsDigit(c) && DigitValue(c) == d
  {
    ('0' as int + d) as char
  }

  /** The decimal value of a digit string, most significant digit first. */
  function DigitsValue(s: string): nat
    requires AllDigits(s)
    decreases |s|
  {
    if |s| == 0 then 0
    else DigitsValue(s[..|s| - 1]) * 10 + DigitValue(s[|s| - 1])
  }

  /** The digit text the parser reads: one leading `+` is dropped when something follows it. */
  function Unsigned(s: string): string {
    if |s| > 1 && s[0] == '+' then s[1..] else s
  }

  /** `s.parse::<u16>().ok()` */
  function ParseU16(s: string): (r: Option<u16>)
    ensures |s| == 0 ==> r == None
    ensures r.Some? ==> |Unsigned(s)| > 0 && AllDigits(Unsigned(s))
    ensures r.Some? ==> DigitsValue(Unsigned(s)) == r.value
  {
    var d := Unsigned(s);
    if |d| == 0 || !AllDigits(d) then None
    else if DigitsValue(d) > 0xFFFF then None
    else Some(DigitsValue(d))
  }

  /** The shortest decimal rendering of `n` (no sign, no leading zeros). */
  function Decimal(n: nat): (r: string)
    ensures |r| > 0 && AllDigits(r)
    ensures DigitsValue(r) == n
    ensures r[0] == '0' ==> r == "0"
    decreases n
  {
    if n < 10 then [DigitChar(n)]
    else
      var r := Decimal(n / 10) + [DigitChar(n % 10)];
      assert r[..|r| - 1] == Decimal(n / 10);
      r
  }

  /** `n` copies of the character `0`. */
  function Zeros(n: nat): (r: string)
    ensures |r| == n && AllDigits(r)
  {
    seq(n, _ => '0')
  }

  /** A leading `0` does not change the value of a digit string. */
  lemma {:induction false} LeadingZero(s: string)
    requires |s| > 0 && AllDigits(s) && s[0] == '0'
    ensures DigitsValue(s[1..]) == DigitsValue(s)
    decreases |s|
  {
    if |s| > 1 {
      var init := s[..|s| - 1];
      LeadingZero(init);
      assert s[1..][..|s[1..]| - 1] == init[1..];
    }
  }

  /** Any run of leading `0`s leaves the value unchanged. */
  lemma {:induction false} LeadingZeros(n: nat, s: string)
    requires AllDigits(s)
    ensures AllDigits(Zeros(n) + s)
    ensures DigitsValue(Zeros(n) + s) == DigitsValue(s)
    decreases n
  {
    var t := Zeros(n) + s;
    if n > 0 {
      assert t[1..] == Zeros(n - 1) + s;
      LeadingZeros(n - 1, s);
      LeadingZero(t);
    } else {
      assert t == s;
    }
  }

  /** A digit string that does not start with `0` has a positive value. */
  lemma {:induction false} NoLeadingZeroPositive(s: string)
    requires |s| > 0 && AllDigits(s) && s[0] != '0'
    ensures DigitsValue(s) >= 1
    decreases |s|
  {
    if |s| > 1 {
      NoLeadingZeroPositive(s[..|s| - 1]);
    }
  }

  /** A digit string without a leading `0` (or the single digit `0`) is the rendering of its value. */
  lemma {:induction false} DecimalOfDigits(s: string)
    requires |s| > 0 && AllDigits(s)
    requires s[0] != '0' || |s| == 1
    ensures Decimal(DigitsValue(s)) == s
    decreases |s|
  {
    if |s| > 1 {
      var init := s[..|s| - 1];
      DecimalOfDigits(init);
      NoLeadingZeroPositive(init);
      var n := DigitsValue(s);
      assert n / 10 == DigitsValue(init) && n % 10 == DigitValue(s[|s| - 1]);
      assert s == init + [s[|s| - 1]];
    }
  }

  /**
   Every accepted text is an optional `+`, some `0`s and the decimal
   rendering of the parsed value.
   */
  lemma {:induction false} ParseU16Accepted(s: string)
    requires ParseU16(s).Some?
    ensures var d := Unsigned(s);
            var p := ParseU16(s).value;
            && |Decimal(p)| <= |d|
            && d == Zeros(|d| - |Decimal(p)|) + Decimal(p)
            && (s == d || s == "+" + d)
  {
    var d := Unsigned(s);
    CanonicalSuffix(d);
  }

  /** A digit string is some `0`s followed by the rendering of its value. */
  lemma {:induction false} CanonicalSuffix(d: string)
    requires |d| > 0 && AllDigits(d)
    ensures |Decimal(DigitsValue(d))| <= |d|
    ensures d == Zeros(|d| - |Decimal(DigitsValue(d))|) + Decimal(DigitsValue(d))
    decreases |d|
  {
    if d[0] != '0' || |d| == 1 {
      DecimalOfDigits(d);
      assert d == Zeros(0) + d;
    } else {
      LeadingZero(d);
      CanonicalSuffix(d[1..]);
      var k := |d[1..]| - |Decimal(DigitsValue(d))|;
      assert Zeros(k + 1) == "0" + Zeros(k);
      assert d == "0" + d[1..];
    }
  }

  /** Conversely, every such text parses to that value. */
  lemma ParseU16Accepts(plus: bool, zeros: nat, p: u16)
    ensures var d := Zeros(zeros) + Decimal(p);
            ParseU16(if plus then "+" + d else d) == Some(p)
  {
    var d := Zeros(zeros) + Decimal(p);
    LeadingZeros(zeros, Decimal(p));
    if plus {
      assert ("+" + d)[1..] == d;
    }
  }

  /** In particular the decimal rendering of every `u16` parses back to it. */
  lemma ParseDecimal(p: u16)
    ensures ParseU16(Decimal(p)) == Some(p)
  {
    ParseU16Accepts(false, 0, p);
    assert Zeros(0) + Decimal(p) == Decimal(p);
  }

  /** A value above 65535 is rejected however it is written. */
  lemma ParseU16Overflow(zeros: nat, n: nat)
    requires n > 0xFFFF
    ensures ParseU16(Zeros(zeros) + Decimal(n)) == None
  {
    LeadingZeros(zeros, Decimal(n));
    assert Unsigned(Zeros(zeros) + Decimal(n)) == Zeros(zeros) + Decimal(n);
  }

  /** Text that is not all digits after the optional `+` is rejected. */
  lemma ParseU16NonDigit(s: string, i: nat)
    requires i < |Unsigned(s)| && !IsDigit(Unsigned(s)[i])
    ensures ParseU16(s) == None
  {
  }
}
