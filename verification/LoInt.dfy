/** LibreOffice's lenient decimal numbers, as manifest attributes carry them. */
module LoInt {
  predicate IsSpace(c: char) {
    var u := c as int;
    (0 < u <= 32) || 0x2000 <= u <= 0x200B || 0x2028 <= u <= 0x2029
  }

  predicate IsDigit(c: char) {
    '0' <= c <= '9'
  }

  function Digit(c: char): nat
    requires IsDigit(c)
  {
    c as int - '0' as int
  }

  predicate Digits(s: string) {
    forall i :: 0 <= i < |s| ==> IsDigit(s[i])
  }

  /** The number a run of digits writes, however large. */
  function Value(s: string): nat
    requires Digits(s)
  {
    if s == "" then 0 else 10 * Value(s[..|s| - 1]) + Digit(s[|s| - 1])
  }

  /** How many leading characters satisfy `p`. */
  function Run(s: string, p: char -> bool): (n: nat)
    ensures n <= |s|
    ensures forall i :: 0 <= i < n ==> p(s[i])
    ensures n < |s| ==> !p(s[n])
  {
    if s == "" || !p(s[0]) then 0 else 1 + Run(s[1..], p)
  }

  lemma RunIs(s: string, p: char -> bool, n: nat)
    requires n <= |s| && (forall i :: 0 <= i < n ==> p(s[i])) && (n < |s| ==> !p(s[n]))
    ensures Run(s, p) == n
  {
    var r := Run(s, p);
    assert r < |s| ==> !p(s[r]);
  }

  function Unspaced(s: string): string {
    s[Run(s, IsSpace)..]
  }

  predicate Signed(t: string) {
    t != "" && (t[0] == '-' || t[0] == '+')
  }

  function Body(t: string): string {
    if Signed(t) then t[1..] else t
  }

  function Magnitude(s: string): nat {
    var body := Body(Unspaced(s));
    Value(body[..Run(body, IsDigit)])
  }

  predicate Negative(s: string) {
    var t := Unspaced(s);
    t != "" && t[0] == '-'
  }

  /** The number written, or 0 if it lies outside the range. */
  function Number(s: string, min: int, max: int): int {
    var n: int := if Negative(s) then 0 - Magnitude(s) else Magnitude(s);
    if min <= n <= max then n else 0
  }

  lemma {:induction false} ValueGrows(s: string, i: nat)
    requires Digits(s) && i <= |s|
    ensures Value(s[..i]) <= Value(s)
    decreases |s|
  {
    if i == |s| {
      assert s[..i] == s;
    } else {
      ValueGrows(s[..|s| - 1], i);
      assert s[..|s| - 1][..i] == s[..i];
    }
  }

  /** Multiplies up digit by digit, giving up before a product could leave the range. */
  method ParseDigits(body: string, limit: nat) returns (n: nat, over: bool)
    ensures var v := Value(body[..Run(body, IsDigit)]); over == (v > limit) && (!over ==> n == v)
  {
    var div, rem := limit / 10, limit % 10;
    var i := 0;
    n := 0;
    var run := body[..Run(body, IsDigit)];
    while i < |body| && IsDigit(body[i])
      invariant i <= |run| && n == Value(run[..i]) <= limit
    {
      assert i < |run| && run[..i + 1][..i] == run[..i];
      var d := Digit(body[i]);
      if n > div || (n == div && d > rem) {
        assert Value(run[..i + 1]) > limit;
        ValueGrows(run, i + 1);
        return 0, true;
      }
      n := n * 10 + d;
      i := i + 1;
    }
    assert run[..i] == run;
    over := false;
  }

  /** `parse_lo_int`: exact on the whole range, 0 outside it. */
  method ParseLoInt(s: string, min: int, max: int) returns (r: int)
    requires min <= 0 <= max
    ensures r == Number(s, min, max)
  {
    var i := 0;
    while i < |s| && IsSpace(s[i])
      invariant i <= |s| && forall k :: 0 <= k < i ==> IsSpace(s[k])
    {
      i := i + 1;
    }
    RunIs(s, IsSpace, i);
    var t := s[i..];
    if t == "" {
      return 0;
    }
    var neg := t[0] == '-';
    var body := if neg || t[0] == '+' then t[1..] else t;
    var n, over := ParseDigits(body, if neg then -min else max);
    r := n;
    if over {
      r := 0;
    } else if neg {
      r := -r;
    }
  }

  // --- Printing -----------------------------------------------------------------------

  function Decimal(n: nat): string {
    (if n < 10 then "" else Decimal(n / 10)) + [('0' as int + n % 10) as char]
  }

  /** `to_string`. */
  function Print(i: int): string {
    if i < 0 then "-" + Decimal(-i) else Decimal(i)
  }

  lemma LastDigit(s: string, k: nat)
    requires Digits(s) && k < 10
    ensures var c := ('0' as int + k) as char; Digits(s + [c]) && Value(s + [c]) == 10 * Value(s) + k
  {
    var c := ('0' as int + k) as char;
    assert IsDigit(c) && Digit(c) == k;
    assert (s + [c])[..|s|] == s;
  }

  lemma {:induction false} DecimalValue(n: nat)
    ensures Decimal(n) != "" && Digits(Decimal(n)) && Value(Decimal(n)) == n
  {
    if n >= 10 {
      DecimalValue(n / 10);
    }
    LastDigit(if n < 10 then "" else Decimal(n / 10), n % 10);
  }

  lemma PrintedParts(i: int, digits: string, s: string)
    requires digits != "" && Digits(digits) && s == if i < 0 then "-" + digits else digits
    ensures Magnitude(s) == Value(digits) && Negative(s) == (i < 0)
  {
    RunIs(s, IsSpace, 0);
    assert Unspaced(s) == s;
    assert Body(s) == digits;
    RunIs(digits, IsDigit, |digits|);
    assert digits[..|digits|] == digits;
  }

  /** A printed number reads back as itself over the whole range. */
  lemma PrintReadsBack(i: int, min: int, max: int)
    requires min <= i <= max
    ensures Number(Print(i), min, max) == i
  {
    var n := if i < 0 then -i else i;
    DecimalValue(n);
    PrintedParts(i, Decimal(n), Print(i));
  }

  // --- What a number may look like -----------------------------------------------------

  /** What LibreOffice skips in front of a number. */
  predicate Blank(c: char) {
    ('\U{1}' <= c <= ' ') || ('\U{2000}' <= c <= '\U{200B}') || c == '\U{2028}' || c == '\U{2029}'
  }

  datatype Sign = Unsigned | Plus | Minus

  function SignText(sign: Sign): string {
    match sign case Unsigned => "" case Plus => "+" case Minus => "-"
  }

  lemma BlanksSkipped(blanks: string, t: string)
    requires (forall i :: 0 <= i < |blanks| ==> Blank(blanks[i])) && (t != "" ==> !IsSpace(t[0]))
    ensures Unspaced(blanks + t) == t
  {
    var s := blanks + t;
    forall i | 0 <= i < |blanks|
      ensures IsSpace(s[i])
    {
      assert s[i] == blanks[i];
    }
    RunIs(s, IsSpace, |blanks|);
  }

  lemma SignTaken(sign: Sign, body: string)
    requires sign == Unsigned && body != "" ==> body[0] != '+' && body[0] != '-'
    ensures Body(SignText(sign) + body) == body
    ensures SignText(sign) + body != "" && (SignText(sign) + body)[0] == '-' <==> sign == Minus
  {
    var t := SignText(sign) + body;
    if sign == Unsigned {
      assert t == body;
    } else {
      assert t[1..] == body;
    }
  }

  lemma DigitsCut(digits: string, rest: string)
    requires Digits(digits) && (rest != "" ==> !IsDigit(rest[0]))
    ensures var body := digits + rest; body[..Run(body, IsDigit)] == digits
  {
    RunIs(digits + rest, IsDigit, |digits|);
  }

  /** What is read of blanks, a sign and a body that begins with these digits. */
  lemma PartsRead(blanks: string, sign: Sign, digits: string, rest: string)
    requires (forall i :: 0 <= i < |blanks| ==> Blank(blanks[i])) && Digits(digits)
    requires rest != "" ==> !IsDigit(rest[0])
    requires sign == Unsigned && digits == "" && rest != "" ==> rest[0] != '+' && rest[0] != '-' && !Blank(rest[0])
    ensures var s := blanks + (SignText(sign) + (digits + rest));
            Magnitude(s) == Value(digits) && Negative(s) == (sign == Minus)
  {
    var body := digits + rest;
    var t := SignText(sign) + body;
    SignTaken(sign, body);
    assert t != "" ==> !IsSpace(t[0]) by {
      if sign == Unsigned {
        assert t == body;
      }
    }
    BlanksSkipped(blanks, t);
    DigitsCut(digits, rest);
  }

  /**
   * Blanks, one sign, digits with any leading zeros, and then anything that is not a
   * digit: the number read is the one written, or 0 if it is out of range.
   */
  lemma NumberReads(blanks: string, sign: Sign, digits: string, rest: string, min: int, max: int)
    requires (forall i :: 0 <= i < |blanks| ==> Blank(blanks[i])) && Digits(digits)
    requires digits != "" && (rest != "" ==> !IsDigit(rest[0]))
    ensures var n: int := if sign == Minus then 0 - Value(digits) else Value(digits);
            Number(blanks + (SignText(sign) + (digits + rest)), min, max) == if min <= n <= max then n else 0
  {
    PartsRead(blanks, sign, digits, rest);
  }

  /** Without a digit there the number is 0, within any range that has it. */
  lemma NotANumber(blanks: string, sign: Sign, rest: string, min: int, max: int)
    requires (forall i :: 0 <= i < |blanks| ==> Blank(blanks[i])) && (rest != "" ==> !IsDigit(rest[0]) && !Blank(rest[0]))
    requires sign == Unsigned && rest != "" ==> rest[0] != '+' && rest[0] != '-'
    requires min <= 0 <= max
    ensures Number(blanks + (SignText(sign) + rest), min, max) == 0
  {
    PartsRead(blanks, sign, "", rest);
    assert "" + rest == rest;
  }
}
