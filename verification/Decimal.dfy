/** `std::to_string(int)` and `stoi`, which undo each other on every 32-bit integer. */
module Decimal {
  import opened Wrappers
  import opened Text

  const INT_MIN: int := -0x8000_0000
  const INT_MAX: int := 0x7fff_ffff

  function DigitChar(d: nat): (c: char)
    requires d < 10
    ensures c in DIGITS && DigitValue(c) == d
  {
    '0' + d as char
  }

  function DigitValue(c: char): int { c as int - '0' as int }

  function NatToString(n: nat): (s: string)
    ensures s != "" && forall i :: 0 <= i < |s| ==> s[i] in DIGITS
  {
    if n < 10 then [DigitChar(n)] else NatToString(n / 10) + [DigitChar(n % 10)]
  }

  /** `std::to_string`. */
  function ToString(z: int): string {
    if z < 0 then "-" + NatToString(-z) else NatToString(z)
  }

  /** The number a run of digits stands for. */
  function Value(digits: string): int {
    if digits == "" then 0 else 10 * Value(digits[..|digits| - 1]) + DigitValue(digits[|digits| - 1])
  }

  /** The two exceptions of `stoi`. */
  datatype Failure = InvalidArgument | OutOfRange

  const SPACES: set<char> := {' ', '\t', '\n', '\r', 11 as char, 12 as char}

  /** The number that the leading digits of `u` stand for. */
  function Magnitude(u: string): Result<int, Failure> {
    var n := SpanIn(u, DIGITS);
    if n == 0 then Err(InvalidArgument) else Ok(Value(u[..n]))
  }

  function Ranged(m: Result<int, Failure>, sign: int): Result<int, Failure> {
    if m.Ok? && !(INT_MIN <= sign * m.value <= INT_MAX) then Err(OutOfRange)
    else if m.Ok? then Ok(sign * m.value)
    else m
  }

  /** `stoi`: blanks, an optional sign, and as many digits as there are; what follows is ignored. */
  function Stoi(s: string): Result<int, Failure> {
    var t := s[SpanIn(s, SPACES)..];
    if t != "" && t[0] == '-' then Ranged(Magnitude(t[1..]), -1)
    else if t != "" && t[0] == '+' then Ranged(Magnitude(t[1..]), 1)
    else Ranged(Magnitude(t), 1)
  }

  lemma {:induction false} ValueOfNat(n: nat)
    ensures Value(NatToString(n)) == n
  {
    if n >= 10 {
      ValueOfNat(n / 10);
      var s := NatToString(n);
      assert s[..|s| - 1] == NatToString(n / 10);
    } else {
      assert NatToString(n)[..0] == "";
    }
  }

  lemma MagnitudeOfNat(n: nat, rest: string)
    requires rest != "" ==> rest[0] !in DIGITS
    ensures Magnitude(NatToString(n) + rest) == Ok(n)
  {
    var digits := NatToString(n);
    ValueOfNat(n);
    SpanInIs(digits + rest, DIGITS, |digits|);
    assert (digits + rest)[..|digits|] == digits;
  }

  lemma DigitIsPlain(c: char)
    requires c in DIGITS
    ensures c !in SPACES && c != '-' && c != '+'
  {}

  /** Printing an integer and reading it back gives the integer, whatever text that is no digit follows. */
  lemma StoiToString(z: int, rest: string)
    requires -0x8000_0000 <= z <= 0x7fff_ffff
    requires rest != "" ==> rest[0] !in DIGITS
    ensures Stoi(ToString(z) + rest) == Ok(z)
  {
    hide Magnitude, NatToString;
    var n: nat := if z < 0 then -z else z;
    MagnitudeOfNat(n, rest);
    var u := NatToString(n) + rest;
    DigitIsPlain(u[0]);
    if z < 0 {
      var s := "-" + NatToString(n) + rest;
      assert s[0] !in SPACES;
      SpanInIs(s, SPACES, 0);
      assert s[0..] == s && s[1..] == u;
    } else {
      SpanInIs(u, SPACES, 0);
      assert u[0..] == u;
    }
  }

  // ---------- the decimal system, spelled out ----------

  /** The last digit of a number is written last; a negative number has a sign in front. */
  lemma WrittenInDigits(n: nat, d: nat)
    requires d < 10
    ensures ToString(d) == ["0123456789"[d]]
    ensures n > 0 ==> ToString(10 * n + d) == ToString(n) + ["0123456789"[d]]
    ensures n > 0 ==> ToString(-(n as int)) == "-" + ToString(n)
  {
    assert DigitChar(d) == "0123456789"[d];
    assert (10 * n + d) / 10 == n && (10 * n + d) % 10 == d;
  }

  /** The value of a run of digits, read from the left. */
  lemma ValueGrows(digits: string, d: nat)
    requires d < 10
    ensures Value("") == 0 && Value(digits + ["0123456789"[d]]) == 10 * Value(digits) + d
  {
    var more := digits + ["0123456789"[d]];
    assert more[..|more| - 1] == digits && DigitChar(d) == "0123456789"[d];
  }

  predicate AreDigits(s: string) { forall i :: 0 <= i < |s| ==> '0' <= s[i] <= '9' }

  predicate AreBlanks(s: string) {
    forall i :: 0 <= i < |s| ==> s[i] == ' ' || s[i] == '\t' || s[i] == '\n' || s[i] == '\r'
                                 || s[i] == 11 as char || s[i] == 12 as char
  }

  lemma MagnitudeIs(digits: string, rest: string)
    requires AreDigits(digits) && (rest != "" ==> !('0' <= rest[0] <= '9'))
    ensures Magnitude(digits + rest) == if digits == "" then Err(InvalidArgument) else Ok(Value(digits))
  {
    var u := digits + rest;
    assert forall i :: 0 <= i < |digits| ==> u[i] == digits[i] && u[i] in DIGITS;
    SpanInIs(u, DIGITS, |digits|);
    assert u[..|digits|] == digits;
  }

  /**
  Reading: blanks are skipped, one sign is taken, and the digits up to the first other character are the
  number; without a digit there is none, and it has to fit 32 bits.
  */
  lemma StoiReads(blanks: string, sign: string, digits: string, rest: string)
    requires AreBlanks(blanks) && sign in {"", "-", "+"} && AreDigits(digits)
    requires rest != "" ==> !('0' <= rest[0] <= '9')
    requires sign == "" && digits == "" ==> rest == "" || (!AreBlanks([rest[0]]) && rest[0] != '-' && rest[0] != '+')
    ensures var z := if sign == "-" then -Value(digits) else Value(digits);
            Stoi(blanks + (sign + (digits + rest))) == if digits == "" then Err(InvalidArgument)
                                                       else if -2147483648 <= z <= 2147483647 then Ok(z)
                                                       else Err(OutOfRange)
  {
    hide Magnitude, Value, AreDigits, Text.SpanIn;
    var u := digits + rest;
    MagnitudeIs(digits, rest);
    NoSignInFront(sign, digits, rest);
    BlanksSkipped(blanks, sign + u);
    SignTaken(sign, u);
  }

  lemma NoSignInFront(sign: string, digits: string, rest: string)
    requires sign in {"", "-", "+"} && AreDigits(digits)
    requires sign == "" && digits == "" ==> rest == "" || (!AreBlanks([rest[0]]) && rest[0] != '-' && rest[0] != '+')
    ensures var t := sign + (digits + rest);
            && (t != "" ==> t[0] !in SPACES)
            && (sign == "" && t != "" ==> t[0] != '-' && t[0] != '+')
  {
    var u := digits + rest;
    assert digits != "" ==> u[0] == digits[0];
    assert sign == "" ==> sign + u == u;
  }

  lemma BlanksSkipped(blanks: string, t: string)
    requires AreBlanks(blanks) && (t != "" ==> t[0] !in SPACES)
    ensures SpanIn(blanks + t, SPACES) == |blanks| && (blanks + t)[|blanks|..] == t
  {
    SpanInIs(blanks + t, SPACES, |blanks|);
  }

  lemma SignTaken(sign: string, u: string)
    requires sign in {"", "-", "+"}
    ensures sign != "" ==> (sign + u)[0] == sign[0] && (sign + u)[1..] == u
    ensures sign == "" ==> sign + u == u
  {}
}
