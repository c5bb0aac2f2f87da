/** Decimal text of integers: Python's `str(int)`, zero-padded fields, and `int(str)` on plain digits. */
module Decimals {
  import opened Options

  predicate IsDigit(c: char) {
    '0' <= c <= '9'
  }

  function DigitChar(d: nat): (c: char)
    requires d < 10
    ensures IsDigit(c) && c as int - '0' as int == d
  {
    ('0' as int + d) as char
  }

  predicate AllDigits(s: string) {
    forall c :: c in s ==> IsDigit(c)
  }

  /** The number a digit string stands for. */
  function Value(s: string): nat
    requires AllDigits(s)
  {
    if s == [] then 0
    else
      var c := s[|s| - 1];
      assert IsDigit(c);
      10 * Value(s[..|s| - 1]) + (c as int - '0' as int)
  }

  function Digits(n: nat): (s: string)
    ensures AllDigits(s) && |s| >= 1 && Value(s) == n
  {
    var last := [DigitChar(n % 10)];
    if n < 10 then
      assert last[..0] == [];
      last
    else
      var front := Digits(n / 10);
      assert (front + last)[..|front|] == front;
      front + last
  }

  function Power10(w: nat): nat {
    if w == 0 then 1 else 10 * Power10(w - 1)
  }

  /** `n` in exactly `w` digits. */
  function Pad(n: nat, w: nat): (s: string)
    requires n < Power10(w)
    ensures AllDigits(s) && |s| == w && Value(s) == n
    decreases w
  {
    if w == 0 then []
    else
      var front := Pad(n / 10, w - 1);
      var last := [DigitChar(n % 10)];
      assert (front + last)[..|front|] == front;
      front + last
  }

  function Str(n: int): string {
    if n < 0 then "-" + Digits(-n) else Digits(n)
  }

  /** `int(s)`, `None` for its ValueError. */
  function ParseInt(s: string): Option<int> {
    if s == [] then None
    else if s[0] in "+-" then
      if |s| > 1 && AllDigits(s[1..])
      then
        var v: int := Value(s[1..]);
        Some(if s[0] == '-' then -v else v)
      else None
    else if AllDigits(s) then Some(Value(s))
    else None
  }

  lemma ParseStr(n: int)
    ensures ParseInt(Str(n)) == Some(n)
    ensures Str(n) != "" && forall c :: c in Str(n) ==> IsDigit(c) || c == '-'
  {
    if n < 0 {
      assert Str(n)[1..] == Digits(-n);
    } else {
      assert IsDigit(Str(n)[0]);
    }
  }
}
