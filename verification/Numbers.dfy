/** Decimal numbers as Rust prints and parses them. */
module Numbers {
  import opened Wrappers

  predicate IsDigit(c: char) {
    '0' <= c <= '9'
  }

  function DigitChar(d: nat): (c: char)
    requires d < 10
    ensures IsDigit(c)
  {
    '0' + d as char
  }

  function DigitValue(c: char): (d: nat)
    requires IsDigit(c)
    ensures d < 10
  {
    (c - '0') as nat
  }

  /** u64 / i32 Display for non-negative numbers. */
  function ToDec(n: nat): (s: string)
    ensures s != ""
    ensures forall i :: 0 <= i < |s| ==> IsDigit(s[i])
  {
    if n < 10 then [DigitChar(n)] else ToDec(n / 10) + [DigitChar(n % 10)]
  }

  /** The number a non-empty run of digits denotes. */
  function FromDec(s: string): (r: Option<nat>) {
    if s == "" then None
    else if !IsDigit(s[|s| - 1]) then None
    else if |s| == 1 then Some(DigitValue(s[0]))
    else
      match FromDec(s[..|s| - 1])
      case None => None
      case Some(n) => Some(n * 10 + DigitValue(s[|s| - 1]))
  }

  const U64_MAX: nat := 0xFFFF_FFFF_FFFF_FFFF

  /** str::parse::<u64>: an optional '+', digits, no overflow. */
  function ParseU64(s: string): Option<nat> {
    var digits := if s != "" && s[0] == '+' then s[1..] else s;
    match FromDec(digits)
    case Some(n) => if n <= U64_MAX then Some(n) else None
    case None => None
  }

  /** str::parse::<i32>: an optional sign, digits, no overflow. */
  function ParseI32(s: string): Option<int> {
    var negative := s != "" && s[0] == '-';
    var digits := if s != "" && (s[0] == '+' || s[0] == '-') then s[1..] else s;
    match FromDec(digits)
    case Some(n) =>
      var v: int := if negative then 0 - n else n;
      if -0x8000_0000 <= v <= 0x7FFF_FFFF then Some(v) else None
    case None => None
  }

  lemma {:induction false} FromDecToDec(n: nat)
    ensures FromDec(ToDec(n)) == Some(n)
  {
    if n >= 10 {
      FromDecToDec(n / 10);
      assert ToDec(n)[..|ToDec(n)| - 1] == ToDec(n / 10);
    }
  }

  lemma {:induction false} ParseU64RoundTrip(n: nat)
    requires n <= U64_MAX
    ensures ParseU64(ToDec(n)) == Some(n)
  {
    FromDecToDec(n);
    assert IsDigit(ToDec(n)[0]);
  }
}
