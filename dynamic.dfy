/** The dynamically typed values that travel in payload dictionaries, and
    Python's `int()` conversion on them. */
module Dynamic {
  import opened Outcomes

  /** A payload value: text, an integer, a boolean (an `int` subclass in
      Python), or any other object (None, a list, a dict). */
  datatype Value = Str(s: string) | Int(i: int) | Bool(b: bool) | Other

  predicate IsDigit(c: char) { '0' <= c <= '9' }

  predicate IsDigits(s: string) {
    |s| > 0 && forall i :: 0 <= i < |s| ==> IsDigit(s[i])
  }

  /** The number a non-empty run of decimal digits denotes. */
  function DigitsValue(s: string): nat
    requires forall i :: 0 <= i < |s| ==> IsDigit(s[i])
  {
    if s == [] then 0
    else
      assert IsDigit(s[|s| - 1]);
      10 * DigitsValue(s[..|s| - 1]) + (s[|s| - 1] as int - '0' as int)
  }

  /** `int(text)`: an optional sign followed by decimal digits. */
  function ParseInt(s: string): Option<int> {
    if |s| > 0 && (s[0] == '-' || s[0] == '+') then
      if IsDigits(s[1..]) then
        var magnitude: int := DigitsValue(s[1..]);
        Some(if s[0] == '-' then -magnitude else magnitude)
      else None
    else if IsDigits(s) then Some(DigitsValue(s))
    else None
  }

  /** `str(n)` for a natural number: its shortest decimal digits. */
  function DecimalText(n: nat): (s: string)
    ensures IsDigits(s)
    ensures n > 0 ==> s[0] != '0'
  {
    if n < 10 then [('0' as int + n) as char]
    else DecimalText(n / 10) + [('0' as int + n % 10) as char]
  }

  /** `str(i)` for any integer. */
  function IntText(i: int): string {
    if i < 0 then "-" + DecimalText(-i) else DecimalText(i)
  }

  /** `int(v)` on a payload value; None where Python raises. */
  function IntOf(v: Value): Option<int> {
    match v
    case Int(i) => Some(i)
    case Bool(b) => Some(if b then 1 else 0)
    case Str(s) => ParseInt(s)
    case Other => None
  }

  lemma {:induction false} DecimalTextValue(n: nat)
    ensures DigitsValue(DecimalText(n)) == n
  {
    if n >= 10 {
      var s := DecimalText(n);
      DecimalTextValue(n / 10);
      assert s[..|s| - 1] == DecimalText(n / 10);
    }
  }

  /** `int(str(i)) == i`: text produced from an integer converts back to it. */
  lemma IntTextRoundTrip(i: int)
    ensures ParseInt(IntText(i)) == Some(i)
  {
    if i < 0 {
      DecimalTextValue(-i);
      assert IntText(i)[1..] == DecimalText(-i);
    } else {
      DecimalTextValue(i);
    }
  }

  /** `int("50") == 50`, and text that is not a number does not convert. */
  lemma ParseIntExamples()
    ensures IntOf(Str("50")) == Some(50)
    ensures IntOf(Str("-7")) == Some(-7)
    ensures IntOf(Str("fifty")) == None
    ensures IntOf(Str("")) == None
    ensures IntOf(Int(50)) == Some(50)
  {
    assert "50"[..1] == "5";
    assert DigitsValue("5") == 5;
    assert DigitsValue("50") == 50;
    assert "-7"[1..] == "7";
    assert !IsDigit("fifty"[0]);
  }
}
