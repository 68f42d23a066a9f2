/**
 * fan_control.py: the level-to-duty mapping of `_set_pigpio_duty` and the
 * argv dispatch of `main`. Whether pigpio is importable, the daemon
 * connected and both PWM calls succeeded is one flag; what the model
 * reports is the exit code and the duty cycle written to the pin.
 */
module FanControl {
  import opened Common

  /** `LEVEL_TO_DUTY`: roughly 33 %, 66 % and 100 % of 255. */
  const LevelToDuty: seq<int> := [85, 170, 255]

  predicate IsDuty(d: int) {
    d == 0 || d == 85 || d == 170 || d == 255
  }

  /** The duty `_set_pigpio_duty(level)` selects: off below 0, else the clamped level's entry. */
  function Duty(level: int): (d: int)
    ensures IsDuty(d)
    ensures level < 0 <==> d == 0
    ensures level >= 2 ==> d == 255
    ensures 0 <= level <= 2 ==> d == 85 * (level + 1)
  {
    if level < 0 then 0 else LevelToDuty[Clamp(0, 2, level)]
  }

  /** More speed is never less air: the duty is monotone in the level. */
  lemma DutyMonotone(a: int, b: int)
    requires a <= b
    ensures Duty(a) <= Duty(b)
  {
  }

  // ---------------------------------------------------------------------
  // str.strip, str.lower and int() on strings
  // ---------------------------------------------------------------------

  /** The characters `str.isspace` accepts. */
  predicate IsSpace(c: char) {
    var k := c as int;
    || (0x09 <= k <= 0x0D) || (0x1C <= k <= 0x20) || k == 0x85 || k == 0xA0
    || k == 0x1680 || (0x2000 <= k <= 0x200A) || k == 0x2028 || k == 0x2029
    || k == 0x202F || k == 0x205F || k == 0x3000
  }

  /**
   * Which blanks a strip removes. `str.strip()` removes every `isspace`
   * character. `int()` maps non-ASCII whitespace to a space but leaves
   * ASCII characters as they are and then skips only the C whitespace
   * ' ', \t, \n, \v, \f, \r: the separators U+001C..U+001F are not
   * blanks to it.
   */
  datatype Blanks = StrBlanks | IntBlanks

  predicate IsBlank(b: Blanks, c: char) {
    IsSpace(c) && (b == IntBlanks ==> !(0x1C <= c as int <= 0x1F))
  }

  predicate AllBlank(b: Blanks, s: string) {
    forall i :: 0 <= i < |s| ==> IsBlank(b, s[i])
  }

  /** Strip the leading blanks: the suffix after them. */
  function LStrip(b: Blanks, s: string): (r: string)
    ensures |r| <= |s| && r == s[|s| - |r|..]
    ensures AllBlank(b, s[..|s| - |r|])
    ensures |r| == 0 || !IsBlank(b, r[0])
  {
    if |s| == 0 || !IsBlank(b, s[0]) then s
    else
      var r := LStrip(b, s[1..]);
      assert s[..|s| - |r|] == [s[0]] + s[1..][..|s| - 1 - |r|];
      r
  }

  /** Strip the trailing blanks: the prefix before them. */
  function RStrip(b: Blanks, s: string): (r: string)
    ensures |r| <= |s| && r == s[..|r|]
    ensures AllBlank(b, s[|r|..])
    ensures |r| == 0 || !IsBlank(b, r[|r| - 1])
  {
    if |s| == 0 || !IsBlank(b, s[|s| - 1]) then s
    else
      var r := RStrip(b, s[..|s| - 1]);
      assert s[|r|..] == s[..|s| - 1][|r|..] + [s[|s| - 1]];
      r
  }

  /** `s.strip()` for StrBlanks, the skipping `int()` does for IntBlanks (what was cut is `StripCutsWhitespace`). */
  function Strip(b: Blanks, s: string): (r: string)
    ensures |r| <= |s|
    ensures |r| == 0 || (!IsBlank(b, r[0]) && !IsBlank(b, r[|r| - 1]))
  {
    var l := LStrip(b, s);
    var r := RStrip(b, l);
    assert |r| == 0 || r[0] == l[0];
    r
  }

  /** Stripping returns a slice of its argument and cuts only blanks away. */
  lemma StripCutsWhitespace(b: Blanks, s: string)
    ensures exists a :: (0 <= a <= |s| - |Strip(b, s)| && Strip(b, s) == s[a..a + |Strip(b, s)|]
      && AllBlank(b, s[..a]) && AllBlank(b, s[a + |Strip(b, s)|..]))
  {
    StripSlice(b, s, LStrip(b, s), Strip(b, s));
  }

  /** A blank-free-ended prefix of a blank-free-started suffix is a trimmed slice. */
  lemma StripSlice(b: Blanks, s: string, l: string, r: string)
    requires |l| <= |s| && l == s[|s| - |l|..] && AllBlank(b, s[..|s| - |l|])
    requires |l| == 0 || !IsBlank(b, l[0])
    requires |r| <= |l| && r == l[..|r|] && AllBlank(b, l[|r|..])
    requires |r| == 0 || !IsBlank(b, r[|r| - 1])
    ensures exists a :: (0 <= a <= |s| - |r| && r == s[a..a + |r|]
      && AllBlank(b, s[..a]) && AllBlank(b, s[a + |r|..]))
    ensures |r| == 0 || (!IsBlank(b, r[0]) && !IsBlank(b, r[|r| - 1]))
  {
    var a := |s| - |l|;
    assert s[a + |r|..] == l[|r|..];
    assert |r| == 0 || r[0] == l[0];
    assert r == s[a..a + |r|];
    assert 0 <= a <= |s| - |r| && AllBlank(b, s[..a]) && AllBlank(b, s[a + |r|..]);
  }

  /** A string with no blank at either end is its own strip. */
  lemma {:induction false} StripTrimmed(b: Blanks, s: string)
    requires |s| == 0 || (!IsBlank(b, s[0]) && !IsBlank(b, s[|s| - 1]))
    ensures Strip(b, s) == s
  {
  }

  /** ASCII case folding. Only ASCII letters lower-case onto the letters of "off" and "level", so it decides those comparisons exactly. */
  function Lower(s: string): (r: string)
    ensures |r| == |s|
    ensures forall i :: 0 <= i < |s| ==>
      r[i] == if 'A' <= s[i] <= 'Z' then (s[i] as int + 32) as char else s[i]
  {
    seq(|s|, i requires 0 <= i < |s| => if 'A' <= s[i] <= 'Z' then (s[i] as int + 32) as char else s[i])
  }

  predicate IsDigit(c: char) {
    '0' <= c <= '9'
  }

  /** Digits with single underscores between them, as `int()` accepts them. */
  predicate DigitGroups(s: string) {
    && |s| >= 1 && IsDigit(s[0]) && IsDigit(s[|s| - 1])
    && (forall i :: 0 <= i < |s| ==> IsDigit(s[i]) || s[i] == '_')
    && (forall i, j :: 0 <= i < |s| && 0 <= j < |s| && j == i + 1 ==> !(s[i] == '_' && s[j] == '_'))
  }

  /**
   * The number the digits spell, underscores ignored. It is only read on
   * digit groups, so it needs no precondition.
   */
  function DigitsValue(s: string): int
  {
    if |s| == 0 then 0
    else
      var c := s[|s| - 1];
      if c == '_' then DigitsValue(s[..|s| - 1])
      else DigitsValue(s[..|s| - 1]) * 10 + (c as int - '0' as int)
  }

  /** Only decimal digits: nothing for `int()` to skip or refuse. */
  predicate Digits(s: string) {
    |s| == 0 || (Digits(s[..|s| - 1]) && IsDigit(s[|s| - 1]))
  }

  /** Every character of a digit string is a digit. */
  lemma {:induction false} DigitsIndex(s: string)
    requires Digits(s)
    ensures forall i :: 0 <= i < |s| ==> IsDigit(s[i])
  {
    if |s| > 0 {
      var p := s[..|s| - 1];
      DigitsIndex(p);
      assert forall i :: 0 <= i < |p| ==> s[i] == p[i];
    }
  }

  /** How many characters of the string are not underscores. */
  function DigitCount(s: string): (n: nat)
    ensures n <= |s|
  {
    if |s| == 0 then 0
    else DigitCount(s[..|s| - 1]) + (if s[|s| - 1] == '_' then 0 else 1)
  }

  /** The default limit on the digits `int()` converts in base 10 (`sys.get_int_max_str_digits()`). */
  const MaxStrDigits: nat := 4300

  /**
   * `int(s)` in base 10: blanks around, an optional sign, digit groups of
   * at most MaxStrDigits digits; None is the ValueError.
   */
  function ParsePyInt(s: string): (r: Option<int>)
    ensures r.Some? ==> Strip(IntBlanks, s) != ""
  {
    ParseSigned(Strip(IntBlanks, s), MaxStrDigits)
  }

  /** An optional sign, then digit groups of at most `limit` digits. */
  function ParseSigned(t: string, limit: nat): (r: Option<int>)
    ensures r.Some? ==> t != ""
  {
    var signed := |t| > 0 && (t[0] == '+' || t[0] == '-');
    var body := if signed then t[1..] else t;
    if DigitGroups(body) && DigitCount(body) <= limit then
      var v: int := DigitsValue(body);
      Some(if signed && t[0] == '-' then -v else v)
    else None
  }

  /** `str(n)` for n >= 0: decimal digits, most significant first. */
  function Decimal(n: nat): (s: string)
    ensures |s| >= 1 && Digits(s)
    ensures DigitsValue(s) == n
  {
    if n < 10 then
      var s := [('0' as int + n) as char];
      assert IsDigit(s[0]) && Digits(s[..0]);
      s
    else
      var p := Decimal(n / 10);
      var s := p + [('0' as int + n % 10) as char];
      assert s[..|s| - 1] == p;
      s
  }

  /** Every character of a digit string counts towards the limit. */
  lemma {:induction false} DigitCountOfDigits(s: string)
    requires Digits(s)
    ensures DigitCount(s) == |s|
  {
    if |s| > 0 {
      DigitCountOfDigits(s[..|s| - 1]);
    }
  }

  /**
   * `int(str(n)) == n`, also for the negative rendering, as long as the
   * rendering is within the digit limit; beyond it `int()` refuses both.
   */
  lemma ParseDecimal(n: nat)
    ensures ParsePyInt(Decimal(n)) == if |Decimal(n)| <= MaxStrDigits then Some(n) else None
    ensures ParsePyInt("-" + Decimal(n)) == if |Decimal(n)| <= MaxStrDigits then Some(-(n as int)) else None
  {
    ParseDecimalPositive(n);
    ParseDecimalNegative(n);
  }

  lemma ParseDecimalPositive(n: nat)
    ensures ParsePyInt(Decimal(n)) == if |Decimal(n)| <= MaxStrDigits then Some(n) else None
  {
    ParsePlainDigits(Decimal(n));
  }

  lemma ParseDecimalNegative(n: nat)
    ensures ParsePyInt("-" + Decimal(n)) == if |Decimal(n)| <= MaxStrDigits then Some(-(n as int)) else None
  {
    var d := Decimal(n);
    assert ("-" + d)[0] == '-' && ("-" + d)[1..] == d;
    ParseMinus("-" + d);
  }

  /** A digit string, nothing to strip. */
  lemma ParsePlainDigits(d: string)
    requires |d| >= 1 && Digits(d)
    ensures ParsePyInt(d) == if |d| <= MaxStrDigits then Some(DigitsValue(d)) else None
  {
    DigitsIndex(d);
    DigitsTrimmed(d);
    ParseTrimmed(d);
    UnsignedBody(d, MaxStrDigits);
  }

  /** A minus and digits, nothing to strip. */
  lemma ParseMinus(t: string)
    requires |t| >= 2 && t[0] == '-' && Digits(t[1..])
    ensures ParsePyInt(t) == if |t| - 1 <= MaxStrDigits then Some(-DigitsValue(t[1..])) else None
  {
    assert t[|t| - 1] == t[1..][|t| - 2];
    DigitsTrimmed(t);
    ParseTrimmed(t);
    MinusBody(t, MaxStrDigits);
  }

  /** Nothing to strip: `int()` reads the sign and digits directly. */
  lemma ParseTrimmed(t: string)
    requires Strip(IntBlanks, t) == t
    ensures ParsePyInt(t) == ParseSigned(t, MaxStrDigits)
  {
  }

  /** A string that starts with a sign or digit and ends in a digit is its own strip. */
  lemma DigitsTrimmed(m: string)
    requires |m| >= 1 && (m[0] == '-' || IsDigit(m[0])) && IsDigit(m[|m| - 1])
    ensures Strip(IntBlanks, m) == m
  {
    assert !IsBlank(IntBlanks, m[0]);
    assert !IsBlank(IntBlanks, m[|m| - 1]);
    StripTrimmed(IntBlanks, m);
  }

  lemma DigitsAreGroups(d: string)
    requires |d| >= 1 && Digits(d)
    ensures DigitGroups(d)
  {
    DigitsIndex(d);
  }

  /** A digit string has no sign: its body is itself. */
  lemma UnsignedBody(d: string, limit: nat)
    requires |d| >= 1 && Digits(d)
    ensures ParseSigned(d, limit) == if |d| <= limit then Some(DigitsValue(d)) else None
  {
    DigitsAreGroups(d);
    DigitCountOfDigits(d);
  }

  /** After a minus, the body is the digits and the value is negated. */
  lemma MinusBody(t: string, limit: nat)
    requires |t| >= 2 && t[0] == '-' && Digits(t[1..])
    ensures ParseSigned(t, limit) == if |t| - 1 <= limit then Some(-DigitsValue(t[1..])) else None
  {
    DigitsAreGroups(t[1..]);
    DigitCountOfDigits(t[1..]);
  }

  /** A sign with nothing after it, a doubled underscore, or nothing at all is rejected. */
  lemma ParseRejects()
    ensures ParsePyInt("-") == None
    ensures ParsePyInt("1__0") == None
    ensures ParsePyInt("") == None
  {
    RejectSign();
    RejectDoubleUnderscore();
    StripTrimmed(IntBlanks, "");
  }

  lemma RejectSign()
    ensures ParsePyInt("-") == None
  {
    assert !IsBlank(IntBlanks, "-"[0]);
    StripTrimmed(IntBlanks, "-");
    SignAloneRejected();
  }

  lemma SignAloneRejected()
    ensures ParseSigned("-", MaxStrDigits) == None
  {
    assert "-"[1..] == "";
  }

  lemma RejectDoubleUnderscore()
    ensures ParsePyInt("1__0") == None
  {
    assert !IsBlank(IntBlanks, "1__0"[0]) && !IsBlank(IntBlanks, "1__0"[3]);
    StripTrimmed(IntBlanks, "1__0");
    DoubleUnderscoreRejected();
  }

  lemma DoubleUnderscoreRejected()
    ensures ParseSigned("1__0", MaxStrDigits) == None
  {
    assert !DigitGroups("1__0") by {
      assert "1__0"[1] == '_' && "1__0"[2] == '_';
    }
  }

  /**
   * The information separator U+001C is whitespace to `str.strip()` but
   * not to `int()`: a command padded with it still matches, a level
   * padded with it is rejected.
   */
  lemma SeparatorNotIntBlank()
    ensures Strip(StrBlanks, [0x1C as char] + "1") == "1"
    ensures ParsePyInt([0x1C as char] + "1") == None
  {
    SeparatorStripped();
    SeparatorRejected();
  }

  lemma SeparatorStripped()
    ensures Strip(StrBlanks, [0x1C as char] + "1") == "1"
  {
    var s := [0x1C as char] + "1";
    assert LStrip(StrBlanks, s) == "1" by {
      assert IsBlank(StrBlanks, s[0]);
      assert s[1..] == "1";
      assert !IsBlank(StrBlanks, "1"[0]);
    }
    assert RStrip(StrBlanks, "1") == "1" by {
      assert !IsBlank(StrBlanks, "1"[0]);
    }
  }

  lemma SeparatorRejected()
    ensures ParsePyInt([0x1C as char] + "1") == None
  {
    var s := [0x1C as char] + "1";
    assert !IsBlank(IntBlanks, s[0]) && !IsBlank(IntBlanks, s[1]);
    StripTrimmed(IntBlanks, s);
    assert !DigitGroups(s) by {
      assert !IsDigit(s[0]);
    }
  }

  /** Blanks around a level are skipped, ASCII ones and non-ASCII ones alike. */
  lemma PaddedLevel()
    ensures ParsePyInt([0x3000 as char] + " 2\n") == Some(2)
  {
    var s := [0x3000 as char] + " 2\n";
    PaddedLevelStrip();
    UnsignedBody("2", MaxStrDigits);
    assert DigitsValue("2") == 2 by {
      assert "2"[..0] == "";
    }
  }

  lemma PaddedLevelStrip()
    ensures Strip(IntBlanks, [0x3000 as char] + " 2\n") == "2"
  {
    var s := [0x3000 as char] + " 2\n";
    assert LStrip(IntBlanks, "2\n") == "2\n" by {
      assert !IsBlank(IntBlanks, "2\n"[0]);
    }
    assert LStrip(IntBlanks, " 2\n") == "2\n" by {
      assert " 2\n"[1..] == "2\n";
      assert IsBlank(IntBlanks, " 2\n"[0]);
    }
    assert LStrip(IntBlanks, s) == "2\n" by {
      assert s[1..] == " 2\n";
      assert IsBlank(IntBlanks, s[0]);
    }
    assert RStrip(IntBlanks, "2\n") == "2" by {
      assert "2\n"[..1] == "2";
      assert !IsBlank(IntBlanks, "2"[0]);
    }
  }

  // ---------------------------------------------------------------------
  // main
  // ---------------------------------------------------------------------

  /** The exit code and the duty cycle left on the pin (None when nothing was set). */
  datatype FanRun = FanRun(code: int, duty: Option<int>)

  /** `_set_pigpio_duty(level)`: the duty is written only when pigpio works. */
  function SetDuty(level: int, pigpioOk: bool): (r: FanRun)
    ensures r.code == (if pigpioOk then 0 else 1)
    ensures r.duty.Some? <==> pigpioOk
    ensures r.duty.Some? ==> IsDuty(r.duty.value) && r.duty.value == Duty(level)
  {
    if pigpioOk then FanRun(0, Some(Duty(level))) else FanRun(1, None)
  }

  /** `main(argv)`: usage errors exit 2 without touching the fan. */
  function FanMain(argv: seq<string>, pigpioOk: bool): (r: FanRun)
    ensures r.code == 0 <==> r.duty.Some?
    ensures r.duty.Some? ==> IsDuty(r.duty.value)
    ensures r.code in {0, 1, 2}
  {
    if |argv| < 2 then FanRun(2, None)
    else
      var cmd := Lower(Strip(StrBlanks, argv[1]));
      if cmd == "off" then SetDuty(-1, pigpioOk)
      else if cmd == "level" then
        if |argv| < 3 then FanRun(2, None)
        else match ParsePyInt(argv[2])
          case None => FanRun(2, None)
          case Some(level) => SetDuty(level, pigpioOk)
      else FanRun(2, None)
  }

  /**
   * The exit codes: 2 for a missing command, a bad or missing level and
   * any unknown command; for `off` and a parsed level, 0 when pigpio set
   * the duty and 1 when it could not.
   */
  lemma FanMainCodes(argv: seq<string>, pigpioOk: bool)
    ensures |argv| < 2 ==> FanMain(argv, pigpioOk) == FanRun(2, None)
    ensures |argv| >= 2 && Lower(Strip(StrBlanks, argv[1])) == "off" ==>
      FanMain(argv, pigpioOk) == (if pigpioOk then FanRun(0, Some(0)) else FanRun(1, None))
    ensures |argv| >= 2 && Lower(Strip(StrBlanks, argv[1])) == "level" ==>
      (|argv| < 3 || ParsePyInt(argv[2]).None? <==> FanMain(argv, pigpioOk).code == 2)
    ensures |argv| >= 3 && Lower(Strip(StrBlanks, argv[1])) == "level" && ParsePyInt(argv[2]).Some? && pigpioOk ==>
      FanMain(argv, pigpioOk).duty == Some(Duty(ParsePyInt(argv[2]).value))
    ensures |argv| >= 3 && Lower(Strip(StrBlanks, argv[1])) == "level" && ParsePyInt(argv[2]).Some? && !pigpioOk ==>
      FanMain(argv, pigpioOk) == FanRun(1, None)
    ensures |argv| >= 2 && Lower(Strip(StrBlanks, argv[1])) != "off" && Lower(Strip(StrBlanks, argv[1])) != "level" ==>
      FanMain(argv, pigpioOk) == FanRun(2, None)
  {
  }

  /** `fan_control.py level 1` with a working daemon sets duty 170 and exits 0. */
  lemma LevelOne(prog: string)
    ensures FanMain([prog, "level", "1"], true) == FanRun(0, Some(170))
  {
    var argv := [prog, "level", "1"];
    assert argv[1] == "level" && argv[2] == "1";
    LevelCommand();
    ParseOne();
    assert "level" != "off" by {
      assert |"level"| != |"off"|;
    }
  }

  lemma ParseOne()
    ensures ParsePyInt("1") == Some(1)
  {
    ParseDecimal(1);
    assert Decimal(1) == "1";
  }

  lemma LevelCommand()
    ensures Lower(Strip(StrBlanks, "level")) == "level"
  {
    StripTrimmed(StrBlanks, "level");
    LowerLevel();
  }

  lemma LowerLevel()
    ensures Lower("level") == "level"
  {
    var l := Lower("level");
    assert l[0] == 'l' && l[1] == 'e' && l[2] == 'v' && l[3] == 'e' && l[4] == 'l';
  }

  /** The command is case- and whitespace-insensitive: ` OFF\n` switches the fan off. */
  lemma PaddedUpperOff(prog: string)
    ensures FanMain([prog, " OFF\n"], true) == FanRun(0, Some(0))
  {
    var argv := [prog, " OFF\n"];
    assert argv[1] == " OFF\n";
    StripPaddedOff();
    LowerOff();
  }

  lemma StripPaddedOff()
    ensures Strip(StrBlanks, " OFF\n") == "OFF"
  {
    LStripPadded();
    RStripNewline();
  }

  lemma LStripPadded()
    ensures LStrip(StrBlanks, " OFF\n") == "OFF\n"
  {
    assert " OFF\n"[1..] == "OFF\n";
    assert !IsBlank(StrBlanks, "OFF\n"[0]);
  }

  lemma RStripNewline()
    ensures RStrip(StrBlanks, "OFF\n") == "OFF"
  {
    assert "OFF\n"[..3] == "OFF";
    assert !IsBlank(StrBlanks, "OFF"[2]);
  }

  lemma LowerOff()
    ensures Lower("OFF") == "off"
  {
  }
}
