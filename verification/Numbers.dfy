/** Integers as the Go standard library reads and writes them. */
module Numbers {

  datatype Option<T> = None | Some(value: T)

  /** The value of one digit in any base up to 36; letters count in either case. */
  function DigitValue(c: char): Option<nat> {
    if '0' <= c <= '9' then Some((c - '0') as nat)
    else if 'a' <= c <= 'z' then Some((c - 'a') as nat + 10)
    else if 'A' <= c <= 'Z' then Some((c - 'A') as nat + 10)
    else None
  }

  function Magnitude(s: string, radix: nat): Option<nat> {
    if s == "" then Some(0)
    else
      var front, last := Magnitude(s[..|s| - 1], radix), DigitValue(s[|s| - 1]);
      if front.Some? && last.Some? && last.value < radix then Some(front.value * radix + last.value) else None
  }

  /** strconv.ParseInt: an optional sign, at least one digit, and a value between -limit and
      limit - 1. `limit` is two to the power of the width minus one. */
  function ParseInt(s: string, radix: nat, limit: nat): (r: Option<int>)
    requires limit > 0
    ensures r.Some? ==> 0 - limit <= r.value < limit
  {
    if s == "" then None
    else
      var signed := s[0] == '-' || s[0] == '+';
      var digits := if signed then s[1..] else s;
      if digits == "" then None
      else
        var m := Magnitude(digits, radix);
        if m.None? then None
        else if s[0] == '-' then (if m.value > limit then None else Some(0 - m.value))
        else if m.value >= limit then None
        else Some(m.value)
  }

  const INT32: nat := 0x8000_0000
  const INT64: nat := 0x8000_0000_0000_0000

  // ----- Decimal output -----

  function Digit(d: nat): (c: char)
    requires d < 10
    ensures '0' <= c <= '9' && DigitValue(c) == Some(d)
  {
    '0' + d as char
  }

  /** strconv.FormatInt and %d for a number that is not negative. */
  function Decimal(n: nat): (s: string)
    ensures s != "" && forall i :: 0 <= i < |s| ==> '0' <= s[i] <= '9'
  {
    if n < 10 then [Digit(n)] else Decimal(n / 10) + [Digit(n % 10)]
  }

  lemma {:induction false} DecimalMagnitude(n: nat)
    ensures Magnitude(Decimal(n), 10) == Some(n)
  {
    if n < 10 {
      assert Decimal(n)[..0] == "";
      assert Magnitude("", 10) == Some(0);
    } else {
      DecimalMagnitude(n / 10);
      var s := Decimal(n);
      assert s[..|s| - 1] == Decimal(n / 10) && s[|s| - 1] == Digit(n % 10);
    }
  }

  /** Writing a number in decimal and reading it back gives the number, up to the width. */
  lemma DecimalRoundTrip(n: nat, limit: nat)
    requires limit > 0
    ensures ParseInt(Decimal(n), 10, limit) == if n < limit then Some(n) else None
  {
    DecimalMagnitude(n);
  }
}
