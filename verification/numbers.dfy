/** Integer parsing (`str::parse::<u16>`, `str::parse::<i32>`) and decimal printing
    (`Display` for integers), the primitives the entry and version parsers delegate to. */
module Numbers {
  import opened Wrappers
  import opened Text

  /** Rust's `u16`. */
  type U16 = x: int | 0 <= x < 0x1_0000

  /** Rust's `i32`. */
  type I32 = x: int | -0x8000_0000 <= x < 0x8000_0000

  /** std's `ParseIntError`, kept opaque: the model records the rejected text in
      place of std's error kind. */
  datatype ParseIntError = ParseIntError(text: string)

  predicate IsDigit(c: char) {
    '0' <= c <= '9'
  }

  predicate AllDigits(s: string) {
    forall j :: 0 <= j < |s| ==> IsDigit(s[j])
  }

  /** The value of a run of decimal digits, most significant first. */
  function DigitsValue(s: string): nat
    requires AllDigits(s)
    decreases |s|
  {
    if |s| == 0 then 0
    else DigitsValue(s[..|s| - 1]) * 10 + (s[|s| - 1] as int - '0' as int)
  }

  /** The value of `s` when it is one or more decimal digits. */
  function Magnitude(s: string): (r: Option<nat>)
    ensures r.Some? <==> |s| > 0 && AllDigits(s)
  {
    if |s| > 0 && AllDigits(s) then Some(DigitsValue(s)) else None
  }

  /** `s` without one leading `+`, the sign both integer parsers accept. */
  function DropPlus(s: string): string {
    if |s| > 0 && s[0] == '+' then s[1..] else s
  }

  /** `str::parse::<u16>`: an optional `+`, one or more decimal digits, at most 65535. */
  function ParseU16(s: string): (r: Result<U16, ParseIntError>)
    ensures r.Failure? ==> r.error == ParseIntError(s)
    ensures r.Success? ==> 0 < |s| && (IsDigit(s[0]) || s[0] == '+')
    ensures r.Success? ==> forall j :: 0 < j < |s| ==> IsDigit(s[j])
  {
    match Magnitude(DropPlus(s))
    case Some(n) => if n < 0x1_0000 then Success(n) else Failure(ParseIntError(s))
    case None => Failure(ParseIntError(s))
  }

  /** `str::parse::<i32>`: an optional `+` or `-`, one or more decimal digits, and a
      value in [-2^31, 2^31 - 1]. */
  function ParseI32(s: string): (r: Result<I32, ParseIntError>)
    ensures r.Failure? ==> r.error == ParseIntError(s)
    ensures r.Success? ==> 0 < |s| && (IsDigit(s[0]) || s[0] == '+' || s[0] == '-')
    ensures r.Success? ==> forall j :: 0 < j < |s| ==> IsDigit(s[j])
    ensures r.Success? && r.value < 0 ==> s[0] == '-'
  {
    if |s| > 0 && s[0] == '-' then
      match Magnitude(s[1..])
      case Some(n) => if n <= 0x8000_0000 then Success(-(n as int)) else Failure(ParseIntError(s))
      case None => Failure(ParseIntError(s))
    else
      match Magnitude(DropPlus(s))
      case Some(n) => if n < 0x8000_0000 then Success(n) else Failure(ParseIntError(s))
      case None => Failure(ParseIntError(s))
  }

  /** An unsigned token is accepted exactly when, after one optional `+`, it is a
      non-empty run of digits whose value fits in `u16`; that value is the result. */
  lemma ParseU16Value(s: string)
    ensures var digits := DropPlus(s);
      && (ParseU16(s).Success? <==> |digits| >= 1 && AllDigits(digits) && DigitsValue(digits) < 0x1_0000)
      && (ParseU16(s).Success? ==> ParseU16(s).value == DigitsValue(digits))
  {
  }

  /** A signed token with a leading `-` is accepted exactly when the rest is a non-empty
      run of digits of value at most 2^31, and gives its negation; any other token is
      accepted exactly when, after one optional `+`, it is a non-empty run of digits of
      value below 2^31, and gives that value. */
  lemma ParseI32Value(s: string)
    ensures |s| > 0 && s[0] == '-' ==>
      && (ParseI32(s).Success? <==> |s| >= 2 && AllDigits(s[1..]) && DigitsValue(s[1..]) <= 0x8000_0000)
      && (ParseI32(s).Success? ==> ParseI32(s).value == -(DigitsValue(s[1..]) as int))
    ensures !(|s| > 0 && s[0] == '-') ==> var digits := DropPlus(s);
      && (ParseI32(s).Success? <==> |digits| >= 1 && AllDigits(digits) && DigitsValue(digits) < 0x8000_0000)
      && (ParseI32(s).Success? ==> ParseI32(s).value == DigitsValue(digits))
  {
  }

  function Digit(d: nat): (c: char)
    requires d < 10
    ensures IsDigit(c)
  {
    ('0' as int + d) as char
  }

  /** Decimal text of `n` without leading zeros, as `Display` writes an unsigned integer. */
  function NatText(n: nat): (r: string)
    ensures |r| >= 1 && AllDigits(r)
    ensures DigitsValue(r) == n
    ensures r[0] == '0' ==> n == 0 && r == "0"
    decreases n
  {
    if n < 10 then [Digit(n)]
    else
      var r := NatText(n / 10) + [Digit(n % 10)];
      assert r[..|r| - 1] == NatText(n / 10);
      r
  }

  /** Decimal text of `x`, with a leading `-` when negative, as `Display` writes a signed integer. */
  function IntText(x: int): (r: string)
    ensures |r| >= 1
    ensures forall j :: 0 <= j < |r| ==> IsDigit(r[j]) || (j == 0 && r[j] == '-')
  {
    if x < 0 then "-" + NatText(-x) else NatText(x)
  }

  /** Parsing the printed form of an unsigned 16-bit integer gives it back. */
  lemma ParseU16NatText(n: U16)
    ensures ParseU16(NatText(n)) == Success(n)
  {
    assert DropPlus(NatText(n)) == NatText(n);
  }

  /** Parsing the printed form of a signed 32-bit integer gives it back. */
  lemma ParseI32IntText(x: I32)
    ensures ParseI32(IntText(x)) == Success(x)
  {
    if x < 0 {
      var t := NatText(-(x as int));
      assert IntText(x) == "-" + t;
      assert ("-" + t)[1..] == t;
      assert Magnitude(t) == Some(-(x as int));
    } else {
      assert DropPlus(NatText(x)) == NatText(x);
    }
  }

  /** Decimal texts contain no separator that the line and version formats use. */
  lemma IntTextNoneOf(x: int, seps: set<char>)
    requires forall c :: c in seps ==> !IsDigit(c) && c != '-'
    ensures NoneOf(IntText(x), seps)
  {
  }

  /** Leading zeros do not change the value of a run of digits. */
  lemma {:induction false} LeadingZero(s: string)
    requires AllDigits(s)
    ensures AllDigits("0" + s) && DigitsValue("0" + s) == DigitsValue(s)
    decreases |s|
  {
    if |s| > 0 {
      var init := s[..|s| - 1];
      assert ("0" + s)[..|s|] == "0" + init;
      LeadingZero(init);
    }
  }

  /** The unsigned parser accepts the largest `u16` and refuses the next number. */
  lemma ParseU16Limit()
    ensures ParseU16("65535") == Success(65535)
    ensures ParseU16("65536").Failure?
  {
    assert NatText(65535) == "65535";
    ParseU16NatText(65535);
    assert NatText(65536) == "65536";
    assert DropPlus("65536") == "65536";
  }

  /** A leading `+` and leading zeros are accepted, as Rust's integer parser does. */
  lemma ParseU16Plus()
    ensures ParseU16("+007") == Success(7)
  {
    assert NatText(7) == "7";
    LeadingZero("7");
    assert "0" + "7" == "07";
    LeadingZero("07");
    assert "0" + "07" == "007";
    assert DropPlus("+007") == "007";
  }

  /** No digits at all, or a minus sign, is rejected by the unsigned parser. */
  lemma ParseU16Rejects()
    ensures ParseU16("").Failure?
    ensures ParseU16("+").Failure?
    ensures ParseU16("-0").Failure?
  {
    assert DropPlus("-0") == "-0";
    assert !AllDigits("-0") by { assert !IsDigit("-0"[0]); }
  }

  /** The decimal texts of 2^31 and 2^31 - 1, one digit at a time. */
  lemma NatTextSteps()
    ensures NatText(0x8000_0000) == "2147483648"
    ensures NatText(0x7FFF_FFFF) == "2147483647"
  {
    assert NatText(21) == "21";
    assert NatText(214) == "214";
    assert NatText(2147) == "2147";
    assert NatText(21474) == "21474";
    assert NatText(214748) == "214748";
    assert NatText(2147483) == "2147483";
    assert NatText(21474836) == "21474836";
    assert NatText(214748364) == "214748364";
  }

  /** The signed parser accepts exactly the `i32` range at its two ends. */
  lemma ParseI32Bounds()
    ensures ParseI32("-2147483648") == Success(-0x8000_0000)
    ensures ParseI32("2147483647") == Success(0x7FFF_FFFF)
    ensures ParseI32("2147483648").Failure?
  {
    var top := NatText(0x8000_0000);
    NatTextSteps();
    assert "-2147483648"[1..] == top;
    assert DropPlus(top) == top;
    ParseI32IntText(0x7FFF_FFFF);
  }

  /** Signs and malformed text in the signed parser. */
  lemma ParseI32Examples()
    ensures ParseI32("+12") == Success(12)
    ensures ParseI32("-12") == Success(-12)
    ensures ParseI32("-").Failure?
    ensures ParseI32("abc").Failure?
  {
    assert NatText(12) == "12";
    assert DropPlus("+12") == "12";
    assert "-12"[1..] == "12";
    assert !AllDigits("abc") by { assert !IsDigit("abc"[0]); }
  }
}
