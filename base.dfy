/** Small shared vocabulary: optional values, results, the two entry
    directions, grid positions, ASCII upper-casing and decimal numerals. */
module Base {

  datatype Option<T> = None | Some(value: T) {
    function GetOr(default: T): T {
      match this
      case Some(v) => v
      case None => default
    }
  }

  /** A value or the error that stopped its computation; `:-` passes the
      error on. */
  datatype Result<T, E> = Ok(value: T) | Err(error: E) {
    predicate IsFailure() { Err? }

    function PropagateFailure<U>(): Result<U, E>
      requires Err?
    {
      Err(error)
    }

    function Extract(): T
      requires Ok?
    {
      value
    }
  }

  /** The highlight (entry) direction of the grid cursor. */
  datatype Direction = Across | Down

  function Toggle(d: Direction): (r: Direction)
    ensures r != d
  {
    if d == Across then Down else Across
  }

  lemma ToggleInvolutive(d: Direction)
    ensures Toggle(Toggle(d)) == d
  {
  }

  /** A grid position, always written (row, col). */
  datatype Pos = Pos(row: int, col: int)

  function Min(a: int, b: int): (m: int)
    ensures m <= a && m <= b && (m == a || m == b)
  {
    if a <= b then a else b
  }

  function Max0(a: int): (m: nat)
    ensures m >= a && (a >= 0 ==> m == a)
  {
    if a < 0 then 0 else a
  }

  // ---------------------------------------------------------------
  // Upper-casing (ASCII letters only)
  // ---------------------------------------------------------------

  predicate IsLower(c: char) { 'a' <= c <= 'z' }

  function UpperChar(c: char): (u: char)
    ensures !IsLower(u)
    ensures !IsLower(c) ==> u == c
    ensures IsLower(c) ==> u as int == c as int - 32
  {
    if IsLower(c) then (c as int - 32) as char else c
  }

  function Upper(s: string): (u: string)
    ensures |u| == |s|
    ensures forall i :: 0 <= i < |s| ==> u[i] == UpperChar(s[i])
  {
    if s == [] then [] else Upper(s[..|s| - 1]) + [UpperChar(s[|s| - 1])]
  }

  lemma {:induction false} UpperIdempotent(s: string)
    ensures Upper(Upper(s)) == Upper(s)
  {
    if s != [] {
      UpperIdempotent(s[..|s| - 1]);
      assert Upper(s)[..|s| - 1] == Upper(s[..|s| - 1]);
    }
  }

  // ---------------------------------------------------------------
  // Decimal numerals
  // ---------------------------------------------------------------

  predicate IsDigit(c: char) { '0' <= c <= '9' }

  predicate AllDigits(s: string) { forall i :: 0 <= i < |s| ==> IsDigit(s[i]) }

  function DigitsValue(s: string): (n: nat)
    requires AllDigits(s)
  {
    if s == [] then 0
    else DigitsValue(s[..|s| - 1]) * 10 + (s[|s| - 1] as int - '0' as int)
  }

  /** The value of an optionally signed run of ASCII digits, as Python's
      int() reads it; anything else is None (a ValueError there). */
  function ParseInt(s: string): (r: Option<int>)
    ensures r.Some? ==> |s| > 0
    ensures AllDigits(s) && s != [] ==> r == Some(DigitsValue(s))
  {
    if |s| > 0 && AllDigits(s) then Some(DigitsValue(s))
    else if |s| > 1 && (s[0] == '-' || s[0] == '+') && AllDigits(s[1..]) then
      var v: int := DigitsValue(s[1..]);
      Some(if s[0] == '-' then -v else v)
    else None
  }

  function DigitChar(d: nat): (c: char)
    requires d < 10
    ensures IsDigit(c) && c as int - '0' as int == d
  {
    ('0' as int + d) as char
  }

  /** Decimal numeral of a natural number, without leading zeros. */
  function NatToString(n: nat): (s: string)
    ensures |s| > 0 && AllDigits(s)
    decreases n
  {
    if n < 10 then [DigitChar(n)] else NatToString(n / 10) + [DigitChar(n % 10)]
  }

  function IntToString(i: int): string {
    if i < 0 then "-" + NatToString(-i) else NatToString(i)
  }

  lemma {:induction false} DigitsOfNatToString(n: nat)
    ensures DigitsValue(NatToString(n)) == n
    decreases n
  {
    var s := NatToString(n);
    if n >= 10 {
      DigitsOfNatToString(n / 10);
      assert s[..|s| - 1] == NatToString(n / 10);
    }
  }

  /** Printing a natural number and reading it back gives the number. */
  lemma ParseIntOfNatToString(n: nat)
    ensures ParseInt(NatToString(n)) == Some(n)
  {
    DigitsOfNatToString(n);
  }
}
