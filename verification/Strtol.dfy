// strtol (lib/string.c), and how it undoes the number printer.
module Strtol {
  import opened Numerals

  const LONG_MAX := 0x7fff_ffff

  // ------------------------------------------------------------------
  // Specification
  // ------------------------------------------------------------------

  datatype Parsed = Parsed(value: int, end: nat)

  predicate IsAlnum(c: char) {
    '0' <= c <= '9' || 'a' <= c <= 'z' || 'A' <= c <= 'Z'
  }

  function DigitOf(c: char): nat
    requires IsAlnum(c)
  {
    if '0' <= c <= '9' then c as int - '0' as int
    else if 'a' <= c <= 'z' then c as int - 'a' as int + 10
    else c as int - 'A' as int + 10
  }

  predicate IsDigit(c: char, base: int) {
    IsAlnum(c) && DigitOf(c) < base
  }

  predicate IsBlank(c: char) {
    c == ' ' || c == '\t'
  }

  function SkipBlanks(s: string, i: nat): (j: nat)
    requires i <= |s|
    ensures i <= j <= |s| && !IsBlank(At(s, j))
    ensures forall k :: i <= k < j ==> IsBlank(s[k])
    decreases |s| - i
  {
    if IsBlank(At(s, i)) then SkipBlanks(s, i + 1) else i
  }

  function SkipDigits(s: string, i: nat, base: int): (j: nat)
    requires i <= |s|
    ensures i <= j <= |s| && !IsDigit(At(s, j), base)
    ensures forall k :: i <= k < j ==> IsDigit(s[k], base)
    decreases |s| - i
  {
    if IsDigit(At(s, i), base) then SkipDigits(s, i + 1, base) else i
  }

  predicate AllDigits(s: string, base: int) {
    forall k :: 0 <= k < |s| ==> IsDigit(s[k], base)
  }

  // The number that a string of digits denotes, most significant digit first.
  function Value(digits: string, base: int): int
    requires AllDigits(digits, base)
  {
    if digits == "" then 0
    else
      var last := |digits| - 1;
      assert IsDigit(digits[last], base);
      Value(digits[..last], base) * base + DigitOf(digits[last])
  }

  function Unsigned(s: string, i: nat, base: int): Parsed
    requires i <= |s|
  {
    var (start, b) :=
      if (base == 0 || base == 16) && At(s, i) == '0' && At(s, i + 1) == 'x' then (i + 2, 16)
      else if base == 0 && At(s, i) == '0' then (i + 1, 8)
      else if base == 0 then (i, 10)
      else (i, base);
    var end := SkipDigits(s, start, b);
    Parsed(Value(s[start..end], b), end)
  }

  function Parse(s: string, base: int): Parsed {
    var i := SkipBlanks(s, 0);
    if At(s, i) == '+' then Unsigned(s, i + 1, base)
    else if At(s, i) == '-' then
      var p := Unsigned(s, i + 1, base);
      Parsed(-p.value, p.end)
    else Unsigned(s, i, base)
  }

  // ------------------------------------------------------------------
  // strtol
  // ------------------------------------------------------------------

  method ReadDigits(str: cstring, start: nat, base: int) returns (val: int, s: nat)
    requires start <= |str|
    ensures s == SkipDigits(str, start, base) && val == Value(str[start..s], base)
  {
    s, val := start, 0;
    while true
      invariant start <= s <= |str|
      invariant SkipDigits(str, s, base) == SkipDigits(str, start, base)
      invariant AllDigits(str[start..s], base)
      invariant val == Value(str[start..s], base)
      decreases |str| - s
    {
      var c := At(str, s);
      var dig;
      if '0' <= c <= '9' {
        dig := c as int - '0' as int;
      } else if 'a' <= c <= 'z' {
        dig := c as int - 'a' as int + 10;
      } else if 'A' <= c <= 'Z' {
        dig := c as int - 'A' as int + 10;
      } else {
        return;
      }
      if dig >= base {
        return;
      }
      assert str[start..s + 1][..s - start] == str[start..s];
      s, val := s + 1, val * base + dig;
    }
  }

  // What follows the sign: an optional prefix and the digits.
  method ReadUnsigned(str: cstring, start: nat, radix: int) returns (val: int, s: nat)
    requires start <= |str|
    ensures Parsed(val, s) == Unsigned(str, start, radix)
  {
    var base := radix;
    s := start;
    if (base == 0 || base == 16) && At(str, s) == '0' && At(str, s + 1) == 'x' {
      s, base := s + 2, 16;
    } else if base == 0 && At(str, s) == '0' {
      s, base := s + 1, 8;
    } else if base == 0 {
      base := 10;
    }
    val, s := ReadDigits(str, s, base);
  }

  // Overflow is not detected, so the caller must rule it out.
  method Strtol(str: cstring, radix: int) returns (result: int, end: nat)
    requires -LONG_MAX <= Parse(str, radix).value <= LONG_MAX
    ensures Parsed(result, end) == Parse(str, radix)
  {
    var neg, s := false, 0;
    while At(str, s) == ' ' || At(str, s) == '\t'
      invariant 0 <= s <= |str| && SkipBlanks(str, s) == SkipBlanks(str, 0)
      decreases |str| - s
    {
      s := s + 1;
    }
    if At(str, s) == '+' {
      s := s + 1;
    } else if At(str, s) == '-' {
      s, neg := s + 1, true;
    }
    result, end := ReadUnsigned(str, s, radix);
    if neg {
      result := -result;
    }
  }

  // ------------------------------------------------------------------
  // Numerals are read back
  // ------------------------------------------------------------------

  lemma DigitCharValue(d: nat, base: nat)
    requires d < base <= 16
    ensures IsDigit(DigitChar(d), base) && DigitOf(DigitChar(d)) == d && (DigitChar(d) == '0' <==> d == 0)
  {
  }

  lemma {:induction false} NumeralDigits(num: nat, base: nat)
    requires IsBase(base)
    ensures AllDigits(Numeral(num, base), base)
    ensures Numeral(num, base)[0] == '0' <==> num == 0
    decreases num
  {
    DigitCharValue(Remainder(num, base), base);
    if num < base {
    } else {
      NumeralDigits(Quotient(num, base), base);
    }
  }

  lemma {:induction false} NumeralValue(num: nat, base: nat)
    requires IsBase(base)
    ensures AllDigits(Numeral(num, base), base) && Value(Numeral(num, base), base) == num
    decreases num
  {
    NumeralDigits(num, base);
    DigitCharValue(Remainder(num, base), base);
    var digits := Numeral(num, base);
    if num < base {
      assert digits[..0] == "";
    } else {
      var q := Quotient(num, base);
      NumeralValue(q, base);
      assert digits[..|digits| - 1] == Numeral(q, base);
    }
  }

  lemma {:induction false} LeadingZeros(k: int, digits: string, base: nat)
    requires 0 < base && AllDigits(digits, base)
    ensures AllDigits(Padding('0', k) + digits, base)
    ensures Value(Padding('0', k) + digits, base) == Value(digits, base)
    decreases |digits|, k
  {
    var zeros := Padding('0', k);
    assert IsDigit('0', base);
    if digits == "" {
      assert zeros + digits == zeros;
      ZerosAreZero(k, base);
    } else {
      var last := |digits| - 1;
      assert AllDigits(digits[..last], base);
      LeadingZeros(k, digits[..last], base);
      assert (zeros + digits)[..|zeros| + last] == zeros + digits[..last];
    }
  }

  lemma {:induction false} ZerosAreZero(k: int, base: nat)
    requires 0 < base
    ensures AllDigits(Padding('0', k), base) && Value(Padding('0', k), base) == 0
  {
    if k <= 0 {
    } else {
      ZerosAreZero(k - 1, base);
      var zeros := Padding('0', k);
      assert zeros[..k - 1] == Padding('0', k - 1);
    }
  }

  // ------------------------------------------------------------------
  // Round trips.  'rest' is whatever follows the printed number; it must not continue it.
  // ------------------------------------------------------------------

  predicate Stops(rest: string, base: int) {
    !IsDigit(At(rest, 0), base)
  }

  // The text denotes the value, and its end is found.
  ghost predicate ReadBack(text: string, rest: string, base: int, value: int) {
    Parse(text + rest, base) == Parsed(value, |text|)
  }

  // A run of digits that starts at i and is followed by no other digit is read whole.
  lemma ReadsDigits(s: string, i: nat, digits: string, rest: string, base: nat)
    requires i <= |s| && s[i..] == digits + rest
    requires AllDigits(digits, base) && Stops(rest, base)
    ensures SkipDigits(s, i, base) == i + |digits|
    ensures s[i..i + |digits|] == digits
  {
    var e := i + |digits|;
    assert forall k :: i <= k < e ==> s[k] == digits[k - i];
    assert At(s, e) == At(rest, 0) by {
      assert e < |s| ==> s[e] == s[i..][|digits|];
    }
  }

  // A lone "0" followed by an x is taken for a hexadecimal prefix.
  predicate PrefixTrap(body: string, rest: string, base: int) {
    base == 16 && body == "0" && At(rest, 0) == 'x'
  }

  lemma UnsignedReads(s: string, i: nat, body: string, rest: string, base: nat)
    requires IsBase(base) && i <= |s| && s[i..] == body + rest && body != ""
    requires AllDigits(body, base) && Stops(rest, base)
    ensures Unsigned(s, i, base) == Parsed(Value(body, base), i + |body|) <==> !PrefixTrap(body, rest, base)
  {
    ReadsDigits(s, i, body, rest, base);
    assert At(s, i) == body[0] by { assert s[i] == s[i..][0]; }
    if |body| > 1 {
      assert At(s, i + 1) == body[1] by { assert s[i + 1] == s[i..][1]; }
      assert IsDigit(body[1], base);
    } else {
      assert At(s, i + 1) == At(rest, 0) by { assert |s| > i + 1 ==> s[i + 1] == s[i..][1]; }
    }
  }

  // A numeral: digits without leading zeros.
  predicate IsNumeral(digits: string, base: int) {
    digits != "" && AllDigits(digits, base) && (digits[0] == '0' ==> digits == "0")
  }

  // The part of a field that is made of digits.
  function Body(digits: string, width: int, padc: char): string {
    if padc == '0' then Field(digits, width, padc) else digits
  }

  lemma BodyReads(digits: string, base: nat, width: int, padc: char)
    requires IsBase(base) && IsNumeral(digits, base)
    ensures var body := Body(digits, width, padc);
      body != "" && AllDigits(body, base) && Value(body, base) == Value(digits, base)
    ensures Body(digits, width, padc) == "0" <==> digits == "0" && (padc != '0' || width <= 1)
  {
    LeadingZeros(width - |digits|, digits, base);
    var body := Body(digits, width, padc);
    assert body[|body| - |digits|..] == digits;
  }

  lemma SkipsPadding(k: int, body: string, rest: string, base: nat)
    requires IsBase(base) && body != "" && AllDigits(body, base)
    ensures var s, i := Padding(' ', k) + body + rest, |Padding(' ', k)|;
      s[i..] == body + rest && Parse(s, base) == Unsigned(s, i, base)
  {
    var blanks := Padding(' ', k);
    var s := blanks + body + rest;
    assert s[|blanks|..] == body + rest;
    assert s[|blanks|] == body[0] && IsDigit(body[0], base);
    assert SkipBlanks(s, 0) == |blanks|;
  }

  lemma PaddedReads(k: int, body: string, rest: string, base: nat)
    requires IsBase(base) && body != "" && AllDigits(body, base) && Stops(rest, base)
    ensures Parse(Padding(' ', k) + body + rest, base) == Parsed(Value(body, base), |Padding(' ', k) + body|)
       <==> !PrefixTrap(body, rest, base)
  {
    SkipsPadding(k, body, rest, base);
    UnsignedReads(Padding(' ', k) + body + rest, |Padding(' ', k)|, body, rest, base);
  }

  lemma BlankField(digits: string, base: nat, width: int, rest: string)
    requires IsBase(base) && IsNumeral(digits, base) && Stops(rest, base)
    ensures ReadBack(Field(digits, width, ' '), rest, base, Value(digits, base)) <==> !PrefixTrap(digits, rest, base)
  {
    PaddedReads(width - |digits|, digits, rest, base);
  }

  lemma ZeroField(digits: string, base: nat, width: int, rest: string)
    requires IsBase(base) && IsNumeral(digits, base) && Stops(rest, base)
    ensures ReadBack(Field(digits, width, '0'), rest, base, Value(digits, base))
       <==> !(PrefixTrap(digits, rest, base) && width <= 1)
  {
    var body := Body(digits, width, '0');
    BodyReads(digits, base, width, '0');
    PaddedReads(0, body, rest, base);
    assert Padding(' ', 0) + body == body;
  }

  lemma SignedField(digits: string, width: int, padc: padchar, rest: string)
    requires IsNumeral(digits, 10) && digits != "0" && Stops(rest, 10)
    ensures var text := "-" + Field(digits, width, padc);
      Parse(text + rest, 10) == Parsed(-Value(digits, 10), |text|) <==> padc == '0' || width <= |digits|
  {
    var number := Field(digits, width, padc);
    var s := "-" + number + rest;
    assert s[0] == '-' && s[1..] == number + rest;
    BodyReads(digits, 10, width, padc);
    if padc == '0' || width <= |digits| {
      assert number == Body(digits, width, padc);
      UnsignedReads(s, 1, number, rest, 10);
    } else {
      assert s[1] == number[0] == padc;
    }
  }

  lemma PointerField(digits: string, width: int, padc: padchar, rest: string, radix: int)
    requires (radix == 0 || radix == 16) && IsNumeral(digits, 16) && Stops(rest, 16)
    ensures var text := "0x" + Field(digits, width, padc);
      Parse(text + rest, radix) == Parsed(Value(digits, 16), |text|) <==> padc == '0' || width <= |digits|
  {
    var number := Field(digits, width, padc);
    var s := "0x" + number + rest;
    assert s[0] == '0' && s[1] == 'x' && s[2..] == number + rest;
    BodyReads(digits, 16, width, padc);
    if padc == '0' || width <= |digits| {
      assert number == Body(digits, width, padc);
      ReadsDigits(s, 2, number, rest, 16);
    } else {
      assert s[2] == number[0] == padc;
    }
  }

  lemma NumeralReads(num: nat, base: nat)
    requires IsBase(base)
    ensures IsNumeral(Numeral(num, base), base)
    ensures Value(Numeral(num, base), base) == num
    ensures num == 0 <==> Numeral(num, base) == "0"
  {
    NumeralDigits(num, base);
    NumeralValue(num, base);
  }

  // Digits padded with minus signs: the first sign is taken for that of the number, a second one ends it.
  lemma OneSign(digits: string, base: nat, rest: string)
    requires IsBase(base) && IsNumeral(digits, base) && Stops(rest, base)
    ensures Parse("-" + digits + rest, base) == Parsed(-Value(digits, base), 1 + |digits|)
       <==> !PrefixTrap(digits, rest, base)
  {
    var s := "-" + digits + rest;
    assert s[0] == '-' && s[1..] == digits + rest;
    assert SkipBlanks(s, 0) == 0;
    UnsignedReads(s, 1, digits, rest, base);
  }

  lemma TwoSigns(s: string, base: nat)
    requires IsBase(base) && |s| >= 2 && s[0] == '-' && s[1] == '-'
    ensures Parse(s, base) == Parsed(0, 1)
  {
    assert Unsigned(s, 1, base) == Parsed(0, 1) by {
      assert SkipDigits(s, 1, base) == 1;
      assert s[1..1] == "";
    }
  }

  // What a number padded with minus signs is read as, if it is read whole.
  function LeftParsed(num: int, size: nat, width: int): Parsed {
    if width <= size then Parsed(num, size) else if width == size + 1 then Parsed(-num, width) else Parsed(0, 1)
  }

  lemma LeftShape(digits: string, width: int)
    requires digits != ""
    ensures width <= |digits| ==> Field(digits, width, '-') == digits
    ensures width == |digits| + 1 ==> Field(digits, width, '-') == "-" + digits
    ensures width > |digits| + 1 ==> Field(digits, width, '-')[0] == Field(digits, width, '-')[1] == '-'
  {
  }

  lemma LeftReads(digits: string, base: nat, width: int, rest: string)
    requires IsBase(base) && IsNumeral(digits, base) && Stops(rest, base)
    ensures Parse(Field(digits, width, '-') + rest, base) == LeftParsed(Value(digits, base), |digits|, width)
       <==> width > |digits| + 1 || !PrefixTrap(digits, rest, base)
  {
    LeftShape(digits, width);
    if width > |digits| + 1 {
      TwoSigns(Field(digits, width, '-') + rest, base);
    } else if width == |digits| + 1 {
      OneSign(digits, base, rest);
    } else {
      PaddedReads(0, digits, rest, base);
      assert Padding(' ', 0) + digits == digits;
    }
  }

  // The left-justify flag pads numbers with minus signs.  A number so padded comes back exactly if there is no
  // padding, or a single minus sign before a 0; one sign negates it and more hide it.
  lemma LeftFlagLost(num: int, base: nat, width: int, rest: string)
    requires num >= 0 && IsBase(base) && Stops(rest, base)
    ensures var (text, size) := (NumText(num, base, width, '-'), |Numeral(num, base)|);
      var trap := base == 16 && num == 0 && At(rest, 0) == 'x';
      && (ReadBack(text, rest, base, num) <==> width <= size + (if num == 0 then 1 else 0) && !trap)
      && (width == size + 1 && !trap ==> ReadBack(text, rest, base, -num))
      && (width > size + 1 ==> Parse(text + rest, base) == Parsed(0, 1))
  {
    NumeralReads(num, base);
    LeftReads(Numeral(num, base), base, width, rest);
    assert |NumText(num, base, width, '-')| == if width <= |Numeral(num, base)| then |Numeral(num, base)| else width;
  }

  // Whatever the value, base and width, a number comes back and its end is found, unless minus signs were
  // printed as padding or a lone hexadecimal 0 is followed by an x.
  lemma UndoesPrintnum(num: nat, base: nat, width: int, padc: padchar, rest: string)
    requires IsBase(base) && Stops(rest, base)
    ensures var text := NumText(num, base, width, padc);
      ReadBack(text, rest, base, num)
      <==> && (padc == '-' ==> width <= |Numeral(num, base)| + if num == 0 then 1 else 0)
           && !(base == 16 && num == 0 && (padc != '0' || width <= 1) && At(rest, 0) == 'x')
  {
    if padc == '-' {
      LeftFlagLost(num, base, width, rest);
    } else {
      NumeralReads(num, base);
      if padc == ' ' {
        BlankField(Numeral(num, base), base, width, rest);
      } else {
        ZeroField(Numeral(num, base), base, width, rest);
      }
    }
  }

  // A negative %d comes back exactly when only zeros separate the sign from the digits.
  lemma UndoesNegative(num: int, width: int, padc: padchar, rest: string)
    requires num > 0 && Stops(rest, 10)
    ensures var text := "-" + NumText(num, 10, width, padc);
      ReadBack(text, rest, 10, -num) <==> padc == '0' || width <= |Numeral(num, 10)|
  {
    NumeralReads(num, 10);
    SignedField(Numeral(num, 10), width, padc, rest);
  }

  // So does %p, read with base 0 or 16.
  lemma UndoesPointer(num: nat, width: int, padc: padchar, rest: string, radix: int)
    requires (radix == 0 || radix == 16) && Stops(rest, 16)
    ensures var text := "0x" + NumText(num, 16, width, padc);
      ReadBack(text, rest, radix, num) <==> padc == '0' || width <= |Numeral(num, 16)|
  {
    NumeralReads(num, 16);
    PointerField(Numeral(num, 16), width, padc, rest, radix);
  }

  // ------------------------------------------------------------------
  // A hexadecimal prefix
  // ------------------------------------------------------------------

  // "0x" is taken for a prefix whatever follows it: without a digit after it, the value is 0 and the end is
  // after the x, and only then.  It may stand after blanks, up to n, and a sign.
  lemma BarePrefix(s: string, n: nat, sign: string, radix: int)
    requires (sign == "" || sign == "+" || sign == "-") && (radix == 0 || radix == 16)
    requires n + |sign| + 2 <= |s| && (forall k :: 0 <= k < n ==> IsBlank(s[k])) && s[n..n + |sign|] == sign
    requires s[n + |sign|] == '0' && s[n + |sign| + 1] == 'x'
    ensures var end := n + |sign| + 2;
      && (!IsDigit(At(s, end), 16) ==> Parse(s, radix) == Parsed(0, end))
      && (Parse(s, radix).end == end <==> !IsDigit(At(s, end), 16))
  {
    SignReads(s, n, sign, radix);
    PrefixReads(s, n + |sign|, radix);
  }

  lemma SignReads(s: string, n: nat, sign: string, radix: int)
    requires (sign == "" || sign == "+" || sign == "-") && n + |sign| < |s| && s[n + |sign|] == '0'
    requires s[n..n + |sign|] == sign && forall k :: 0 <= k < n ==> IsBlank(s[k])
    ensures var u := Unsigned(s, n + |sign|, radix);
      Parse(s, radix) == if sign == "-" then Parsed(-u.value, u.end) else u
  {
    assert sign != "" ==> s[n] == sign[0];
    assert SkipBlanks(s, 0) == n;
  }

  lemma PrefixReads(s: string, i: nat, radix: int)
    requires (radix == 0 || radix == 16) && i + 2 <= |s| && s[i] == '0' && s[i + 1] == 'x'
    ensures !IsDigit(At(s, i + 2), 16) ==> Unsigned(s, i, radix) == Parsed(0, i + 2)
    ensures Unsigned(s, i, radix).end == i + 2 <==> !IsDigit(At(s, i + 2), 16)
  {
    assert s[i + 2..i + 2] == "";
  }

  // ------------------------------------------------------------------
  // What is parsed, position by position
  // ------------------------------------------------------------------

  // The digits are 0 to 9, then the letters of either case from 10 on.
  lemma DigitMeans(c: char, base: int)
    ensures var n := c as int;
      && (IsDigit(c, base) <==>
            || (48 <= n <= 57 && n - 48 < base)
            || (97 <= n <= 122 && n - 97 + 10 < base)
            || (65 <= n <= 90 && n - 65 + 10 < base))
      && (48 <= n <= 57 ==> DigitOf(c) == n - 48)
      && (97 <= n <= 122 ==> DigitOf(c) == n - 97 + 10)
      && (65 <= n <= 90 ==> DigitOf(c) == n - 65 + 10)
  {
  }

  // Where the digits of an unsigned number at i start, and their base: "0x" may come first in base 16, and in
  // base 0, which otherwise takes a leading 0 for octal and anything else for decimal.
  predicate IsPrefix(s: string, i: nat, radix: int, start: nat, base: int)
    requires i <= |s|
  {
    if (radix == 0 || radix == 16) && i + 1 < |s| && s[i] == '0' && s[i + 1] == 'x' then start == i + 2 && base == 16
    else if radix == 0 && i < |s| && s[i] == '0' then start == i + 1 && base == 8
    else start == i && base == if radix == 0 then 10 else radix
  }

  // The digits from start on, as many as there are.
  predicate IsDigitRun(s: string, start: nat, end: nat, base: int) {
    && start <= end <= |s|
    && (forall k :: start <= k < end ==> IsDigit(s[k], base))
    && (end < |s| ==> !IsDigit(s[end], base))
  }

  // n blanks or tabs, a sign, a prefix and digits: each part is taken as far as it goes.
  predicate IsNumberText(s: string, n: nat, sign: string, radix: int, start: nat, base: int, end: nat) {
    && n + |sign| <= |s|
    && (forall k :: 0 <= k < n ==> s[k] as int == 32 || s[k] as int == 9)
    && (sign == "" || sign == "+" || sign == "-") && s[n..n + |sign|] == sign
    && (sign == "" && n < |s| ==> s[n] != '+' && s[n] != '-' && s[n] as int != 32 && s[n] as int != 9)
    && IsPrefix(s, n + |sign|, radix, start, base)
    && IsDigitRun(s, start, end, base)
  }

  lemma RunIsSkipped(s: string, start: nat, end: nat, base: int)
    requires IsDigitRun(s, start, end, base)
    ensures SkipDigits(s, start, base) == end
  {
  }

  lemma UnsignedMeans(s: string, i: nat, radix: int, start: nat, base: int, end: nat)
    requires i <= |s| && IsPrefix(s, i, radix, start, base) && IsDigitRun(s, start, end, base)
    ensures AllDigits(s[start..end], base)
    ensures Unsigned(s, i, radix) == Parsed(Value(s[start..end], base), end)
  {
    RunIsSkipped(s, start, end, base);
  }

  // Every text is parsed so, whatever the radix.
  lemma ParseMeans(s: string, n: nat, sign: string, radix: int, start: nat, base: int, end: nat)
    requires IsNumberText(s, n, sign, radix, start, base, end)
    ensures AllDigits(s[start..end], base)
    ensures var v := Value(s[start..end], base); Parse(s, radix) == Parsed(if sign == "-" then -v else v, end)
  {
    assert sign != "" ==> s[n] == sign[0];
    assert SkipBlanks(s, 0) == n;
    UnsignedMeans(s, n + |sign|, radix, start, base, end);
  }
}
