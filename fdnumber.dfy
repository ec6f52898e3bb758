/**
  Parsing of the descriptor number written after `<&`, `>&` and `>>|`
  (redir.c:583-589 and 648-654): the first character must pass `isxdigit`,
  then `xstrtoi` converts the whole text in base 10, and a negative value is
  refused with ERANGE.
*/
module FdNumber {
  import opened Wrappers
  import opened Kernel

  predicate IsDigit(c: char) { '0' <= c <= '9' }

  /** `isxdigit` in the C locale. */
  predicate IsXDigit(c: char) { IsDigit(c) || 'a' <= c <= 'f' || 'A' <= c <= 'F' }

  predicate AllDigits(s: seq<char>) { forall i :: 0 <= i < |s| ==> IsDigit(s[i]) }

  /** The value of a string of decimal digits. */
  function DigitsValue(s: seq<char>): nat
    requires AllDigits(s)
    decreases |s|
  {
    if s == [] then 0 else DigitsValue(s[..|s| - 1]) * 10 + (s[|s| - 1] as int - '0' as int)
  }

  /**
    `xstrtoi(s, 10, &v)`: the whole text must be an optionally signed
    decimal numeral whose value fits a C `int`; `None` is the failure that
    leaves `errno` set (EINVAL or ERANGE).
  */
  function StrToInt(s: seq<char>): (r: Option<int>)
    ensures r.Some? ==> IntMin <= r.value <= IntMax
  {
    if |s| > 0 && (s[0] == '-' || s[0] == '+') then
      var m := s[1..];
      if m == [] || !AllDigits(m) then None
      else
        var v: int := if s[0] == '-' then 0 - DigitsValue(m) else DigitsValue(m);
        if IntMin <= v <= IntMax then Some(v) else None
    else if s == [] || !AllDigits(s) then None
    else if DigitsValue(s) <= IntMax then Some(DigitsValue(s))
    else None
  }

  /**
    The shared number check of `parse_and_check_dup` and
    `parse_and_exec_pipe`. `None` stands for every path that sets `errno`:
    a first character that is no hexadecimal digit (EINVAL), a failing
    `xstrtoi`, or a negative value (ERANGE).
  */
  function ParseFdNumber(num: seq<char>): (r: Option<int>)
    ensures r.Some? <==> |num| > 0 && AllDigits(num) && DigitsValue(num) <= IntMax
    ensures r.Some? ==> r.value == DigitsValue(num)
  {
    if num == [] || !IsXDigit(num[0]) then None
    else match StrToInt(num)
      case None => None
      case Some(v) => if v < 0 then None else Some(v)
  }

  /**
    The ERANGE branch for a negative result is dead: a text whose first
    character is a hexadecimal digit carries no sign, so `xstrtoi` never
    yields a negative number for it.
  */
  lemma NegativeParseUnreachable(num: seq<char>)
    requires |num| > 0 && IsXDigit(num[0])
    ensures StrToInt(num).Some? ==> StrToInt(num).value >= 0
  {
  }

  /** The decimal numeral of `n`, as `printf("%d")` writes it. */
  function Decimal(n: nat): (s: seq<char>)
    decreases n
  {
    if n < 10 then ['0' + n as char]
    else Decimal(n / 10) + ['0' + (n % 10) as char]
  }

  lemma {:induction false} DecimalDigits(n: nat)
    ensures |Decimal(n)| > 0 && AllDigits(Decimal(n)) && DigitsValue(Decimal(n)) == n
    decreases n
  {
    if n >= 10 {
      DecimalDigits(n / 10);
      var s := Decimal(n);
      assert s[..|s| - 1] == Decimal(n / 10);
    }
  }

  /** Every descriptor number an `int` can hold parses back from its numeral. */
  lemma ParseDecimal(n: nat)
    requires n <= IntMax
    ensures ParseFdNumber(Decimal(n)) == Some(n)
  {
    DecimalDigits(n);
  }
}
