/** Java's fixed-width integer ranges and the decimal grammar of
    `Long.parseLong` / `Integer.parseInt` (which `Integer.valueOf` shares).
 */
module JavaNumbers {
  import opened Wrappers

  const Int32Min: int := -0x8000_0000
  const Int32Max: int := 0x7FFF_FFFF
  const Int64Min: int := -0x8000_0000_0000_0000
  const Int64Max: int := 0x7FFF_FFFF_FFFF_FFFF

  predicate IsDigit(c: char) {
    '0' <= c <= '9'
  }

  predicate AllDigits(s: string) {
    forall i :: 0 <= i < |s| ==> IsDigit(s[i])
  }

  function DigitValue(c: char): (d: nat)
    requires IsDigit(c)
    ensures d < 10
  {
    c as int - '0' as int
  }

  function DigitChar(d: nat): (c: char)
    requires d < 10
    ensures IsDigit(c) && DigitValue(c) == d
  {
    ('0' as int + d) as char
  }

  /** The value of a run of decimal digits, most significant first. */
  function DigitsValue(s: string): nat
    requires AllDigits(s)
  {
    if |s| == 0 then 0 else DigitsValue(s[..|s| - 1]) * 10 + DigitValue(s[|s| - 1])
  }

  predicate HasSign(s: string) {
    |s| > 0 && (s[0] == '-' || s[0] == '+')
  }

  /** The accepted syntax: an optional `-` or `+` followed by at least one digit. */
  predicate WellFormed(s: string) {
    if HasSign(s) then |s| > 1 && AllDigits(s[1..]) else |s| > 0 && AllDigits(s)
  }

  /** The mathematical value a well-formed numeral denotes. */
  function SignedValue(s: string): int
    requires WellFormed(s)
  {
    if HasSign(s) then (if s[0] == '-' then -(DigitsValue(s[1..]) as int) else DigitsValue(s[1..]))
    else DigitsValue(s)
  }

  /** Parsing into the range `lo..hi`: `None` wherever Java throws
      `NumberFormatException` (a null or empty string, a stray character, a
      lone sign, a value outside the type's range). */
  function ParseSigned(s: Option<string>, lo: int, hi: int): (r: Option<int>)
    ensures r.Some? <==> s.Some? && WellFormed(s.value) && lo <= SignedValue(s.value) <= hi
    ensures r.Some? ==> lo <= r.value <= hi && r.value == SignedValue(s.value)
  {
    if s.None? || !WellFormed(s.value) then None
    else
      var v := SignedValue(s.value);
      if lo <= v <= hi then Some(v) else None
  }

  /** `Long.parseLong`. */
  function ParseLong(s: Option<string>): Option<int> {
    ParseSigned(s, Int64Min, Int64Max)
  }

  /** `Integer.parseInt`, also `Integer.valueOf`. */
  function ParseInt(s: Option<string>): Option<int> {
    ParseSigned(s, Int32Min, Int32Max)
  }

  /** The shortest digit string of a natural number. */
  function NatDigits(n: nat): (s: string)
    ensures |s| > 0 && AllDigits(s) && DigitsValue(s) == n
    ensures n >= 10 ==> s[0] != '0'
  {
    if n < 10 then [DigitChar(n)]
    else
      var s := NatDigits(n / 10) + [DigitChar(n % 10)];
      assert s[..|s| - 1] == NatDigits(n / 10);
      s
  }

  /** `Long.toString` / `Integer.toString`: a minus sign for negatives, no
      plus sign and no leading zeros. */
  function ToDecimal(n: int): string {
    if n < 0 then "-" + NatDigits(-n) else NatDigits(n)
  }

  /** Parsing reads back what formatting wrote, for every value in range. */
  lemma ParseToDecimal(n: int, lo: int, hi: int)
    requires lo <= n <= hi
    ensures ParseSigned(Some(ToDecimal(n)), lo, hi) == Some(n)
  {
    var s := ToDecimal(n);
    if n < 0 {
      assert s[1..] == NatDigits(-n);
    } else {
      assert !HasSign(s) by {
        assert IsDigit(s[0]);
      }
    }
  }

  /** The result of `long` arithmetic: the exact value wrapped into 64 bits. */
  function WrapLong(x: int): (r: int)
    ensures Int64Min <= r <= Int64Max
    ensures Int64Min <= x <= Int64Max ==> r == x
    ensures (x - r) % 0x1_0000_0000_0000_0000 == 0
  {
    (x - Int64Min) % 0x1_0000_0000_0000_0000 + Int64Min
  }

  /** The `(int)` cast of a `long`: its low 32 bits read as a signed value. */
  function NarrowToInt(x: int): (r: int)
    ensures Int32Min <= r <= Int32Max
    ensures Int32Min <= x <= Int32Max ==> r == x
    ensures (x - r) % 0x1_0000_0000 == 0
  {
    (x - Int32Min) % 0x1_0000_0000 + Int32Min
  }
}
