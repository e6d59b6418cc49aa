/**
 * The two ActiveRecord checks the job schema applies to its attributes,
 * on the values as they were assigned:
 *  - presence (`validates_presence_of`): the value is not blank, where
 *    `nil` and a string of nothing but white space are blank;
 *  - integrality (`validates_numericality_of ..., :only_integer => true`):
 *    the value's `to_s` matches `\A[+-]?\d+\Z`.
 */
module Attributes {
  import opened Chars

  /** A value assigned to an integer column, before any conversion:
      `nil`, a Ruby integer, or a string such as `"42"` or `"junk"`. */
  datatype Raw = Nil | Int(n: int) | Text(s: string)

  /** The characters `\s` matches. */
  predicate IsSpace(c: char) {
    c == ' ' || c == '\t' || c == '\n' || c == '\r' || c == '\U{000C}'
  }

  /** `String#blank?`: no character other than white space. */
  predicate IsBlank(s: string) {
    forall i :: 0 <= i < |s| ==> IsSpace(s[i])
  }

  /** A value assigned to an integer column is present unless it is `nil`
      or a blank string (which the column turns into `nil`). */
  predicate Present(v: Raw) {
    match v
    case Nil => false
    case Int(_) => true
    case Text(s) => !IsBlank(s)
  }

  /** `\d+` without the `+`: every character is a decimal digit. */
  predicate AllDigits(s: string) {
    forall i :: 0 <= i < |s| ==> IsDigit(s[i])
  }

  function DigitChar(d: nat): (c: char)
    requires d < 10
    ensures IsDigit(c)
  {
    ('0' as int + d) as char
  }

  /** `Integer#to_s` of a natural number: its decimal digits. */
  function Digits(n: nat): (r: string)
    ensures |r| > 0 && AllDigits(r)
    decreases n
  {
    if n < 10 then [DigitChar(n)] else Digits(n / 10) + [DigitChar(n % 10)]
  }

  /** The number a string of decimal digits denotes (`String#to_i` on it). */
  function DigitsValue(s: string): nat
    requires AllDigits(s)
    decreases |s|
  {
    if |s| == 0 then 0
    else
      assert IsDigit(s[|s| - 1]);
      10 * DigitsValue(s[..|s| - 1]) + (s[|s| - 1] as int - '0' as int)
  }

  /** Reading the digits back gives the number they were written from. */
  lemma {:induction false} DigitsRoundTrip(n: nat)
    ensures DigitsValue(Digits(n)) == n
    decreases n
  {
    if n >= 10 {
      DigitsRoundTrip(n / 10);
      var r := Digits(n);
      assert r[..|r| - 1] == Digits(n / 10);
    }
  }

  /** `to_s` of a raw value: `nil.to_s` is the empty string. */
  function ToS(v: Raw): string {
    match v
    case Nil => ""
    case Int(n) => if n < 0 then "-" + Digits(-n) else Digits(n)
    case Text(s) => s
  }

  /** `[+-]?\d+`, matched against the whole of `s`. */
  predicate SignedDigits(s: string) {
    && |s| > 0
    && if s[0] == '+' || s[0] == '-' then |s| > 1 && AllDigits(s[1..]) else AllDigits(s)
  }

  /** `s =~ /\A[+-]?\d+\Z/`: `\Z` also matches in front of one final
      newline, so `"42\n"` passes as well as `"42"`. */
  predicate IntegerLiteral(s: string) {
    || SignedDigits(s)
    || (|s| > 0 && s[|s| - 1] == '\n' && SignedDigits(s[..|s| - 1]))
  }

  /** The `:only_integer` numericality check, by the kind of value
      assigned: `nil` fails, a Ruby integer passes, and a string passes
      exactly when it is written as an integer. */
  predicate Integral(v: Raw) {
    match v
    case Nil => false
    case Int(_) => true
    case Text(s) => IntegerLiteral(s)
  }

  /** `Integer#to_s` always writes an integer literal. */
  lemma IntegerToSIsLiteral(n: int)
    ensures IntegerLiteral(ToS(Int(n)))
  {
    if n < 0 {
      var s := "-" + Digits(-n);
      assert s[1..] == Digits(-n);
    }
  }

  /** The check case by case is the check as ActiveRecord states it:
      `v.to_s =~ /\A[+-]?\d+\Z/`. */
  lemma IntegralIsLiteralToS(v: Raw)
    ensures Integral(v) <==> IntegerLiteral(ToS(v))
  {
    if v.Int? {
      IntegerToSIsLiteral(v.n);
    }
  }

  /** A value that passes the integer check is never blank. */
  lemma IntegralIsPresent(v: Raw)
    requires Integral(v)
    ensures Present(v)
  {
    if v.Text? {
      var s := v.s;
      var body := if SignedDigits(s) then s else s[..|s| - 1];
      assert SignedDigits(body);
      var k := if body[0] == '+' || body[0] == '-' then 1 else 0;
      assert IsDigit(body[k]);
      assert s[k] == body[k];
      assert !IsSpace(s[k]);
    }
  }

  /** The values BetterBJ's tests reject and accept (test/test_job.rb:38-93). */
  lemma IntegerCheckExamples()
    ensures !Integral(Text("junk"))
    ensures !Integral(Text("3.14"))
    ensures Integral(Text("42")) && Integral(Text("-7")) && Integral(Text("+0"))
  {
    assert !IsDigit("3.14"[1]);
    assert !IsDigit("junk"[0]);
    assert "-7"[1..] == "7";
    assert "+0"[1..] == "0";
  }
}
