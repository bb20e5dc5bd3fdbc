/** Decimal text <-> integer conversions behind Util::toInt, Util::toInt64,
    Util::toUInt32 and Util::toString, and the fixed-width truncations the
    search code applies to their results. Util itself is not part of this
    model: the conversions are modelled as C's atoi (leading white space
    skipped, an optional sign, then the longest run of decimal digits; no
    digits gives 0), computed over unbounded integers. */
module Numbers {

  const Two8: int := 0x100
  const Two16: int := 0x1_0000
  const Two32: int := 0x1_0000_0000

  predicate IsDigit(c: char) {
    '0' <= c <= '9'
  }

  predicate AllDigits(s: string) {
    forall k :: 0 <= k < |s| ==> IsDigit(s[k])
  }

  /** The characters C's isspace accepts in the "C" locale. */
  predicate IsSpace(c: char) {
    c == ' ' || c == '\t' || c == '\n' || c == '\r' || c == 11 as char || c == 12 as char
  }

  /** The longest prefix of s made of decimal digits. */
  function LeadingDigits(s: string): (d: string)
    ensures |d| <= |s| && d == s[..|d|]
    ensures AllDigits(d)
    ensures |d| < |s| ==> !IsDigit(s[|d|])
  {
    if s != [] && IsDigit(s[0]) then [s[0]] + LeadingDigits(s[1..]) else []
  }

  /** The value of a digit string, most significant digit first. */
  function DigitsValue(d: string): nat
    requires AllDigits(d)
  {
    if d == [] then 0
    else DigitsValue(d[..|d| - 1]) * 10 + (d[|d| - 1] as int - '0' as int)
  }

  /** atoi over unbounded integers: leading white space is skipped, then
      the sign and digits are read. */
  function Atoi(s: string): int {
    if s != [] && IsSpace(s[0]) then Atoi(s[1..]) else SignedDigits(s)
  }

  /** An optional sign, then the longest run of digits. */
  function SignedDigits(t: string): int {
    if t != [] && t[0] == '-' then 0 - DigitsValue(LeadingDigits(t[1..])) as int
    else if t != [] && t[0] == '+' then DigitsValue(LeadingDigits(t[1..]))
    else DigitsValue(LeadingDigits(t))
  }

  function DigitChar(n: nat): (c: char)
    requires n < 10
    ensures IsDigit(c) && c as int - '0' as int == n
  {
    (n + '0' as int) as char
  }

  /** Util::toString of an unsigned value: its decimal digits, no sign,
      no leading zeros. */
  function ToDecimal(n: nat): (s: string)
    ensures s != [] && AllDigits(s)
    ensures n >= 10 ==> s[0] != '0'
  {
    if n < 10 then [DigitChar(n)] else ToDecimal(n / 10) + [DigitChar(n % 10)]
  }

  /** The digit string of ToDecimal reads back as the number it came from. */
  lemma {:induction false} DigitsValueToDecimal(n: nat)
    ensures DigitsValue(ToDecimal(n)) == n
  {
    if n >= 10 {
      var s := ToDecimal(n);
      assert s[..|s| - 1] == ToDecimal(n / 10);
      DigitsValueToDecimal(n / 10);
    }
  }

  lemma {:induction false} LeadingDigitsAll(s: string)
    requires AllDigits(s)
    ensures LeadingDigits(s) == s
  {
    if s != [] {
      LeadingDigitsAll(s[1..]);
    }
  }

  /** Round trip: parsing what Util::toString printed gives the value back. */
  lemma AtoiToDecimal(n: nat)
    ensures Atoi(ToDecimal(n)) == n
  {
    var s := ToDecimal(n);
    assert IsDigit(s[0]);
    LeadingDigitsAll(s);
    DigitsValueToDecimal(n);
  }

  /** Truncation to an unsigned width of 2^k: two's-complement wrap, which is
      Dafny's Euclidean remainder for a positive modulus. */
  function U8(n: int): (r: int)
    ensures 0 <= r < Two8 && (0 <= n < Two8 ==> r == n)
  {
    n % Two8
  }

  function U16(n: int): (r: int)
    ensures 0 <= r < Two16 && (0 <= n < Two16 ==> r == n)
  {
    n % Two16
  }

  function U32(n: int): (r: int)
    ensures 0 <= r < Two32 && (0 <= n < Two32 ==> r == n)
  {
    n % Two32
  }
}
