// C strings, numerals and padding, shared by the formatter and the number parser.
module Numerals {

  // The characters of a NUL-terminated string, without the NUL.
  type cstring = s: string | '\0' !in s witness ""

  // Reading a C string, which ends with its terminator.
  function At(s: string, i: nat): char
    requires i <= |s|
  {
    if i < |s| then s[i] else '\0'
  }

  predicate IsBase(base: int) {
    base == 8 || base == 10 || base == 16
  }

  function DigitChar(d: nat): char
    requires d < 16
  {
    "0123456789abcdef"[d]
  }

  function Quotient(num: nat, base: nat): (q: nat)
    requires IsBase(base)
    ensures num >= base ==> q < num
    ensures num < base <==> q == 0
  {
    if base == 8 then num / 8 else if base == 10 then num / 10 else num / 16
  }

  function Remainder(num: nat, base: nat): (r: nat)
    requires IsBase(base)
    ensures r < base && num == Quotient(num, base) * base + r
  {
    if base == 8 then num % 8 else if base == 10 then num % 10 else num % 16
  }

  // The shortest numeral of num.
  function Numeral(num: nat, base: nat): (digits: string)
    requires IsBase(base)
    ensures |digits| >= 1
    decreases num
  {
    (if num < base then "" else Numeral(Quotient(num, base), base)) + [DigitChar(Remainder(num, base))]
  }

  // k copies of c; none if k is not positive.
  function Padding(c: char, k: int): (s: string)
    ensures |s| == if k > 0 then k else 0
    ensures forall i :: 0 <= i < |s| ==> s[i] == c
  {
    if k <= 0 then "" else [c] + Padding(c, k - 1)
  }

  // Digits right-justified in a field.
  function Field(digits: string, width: int, padc: char): string {
    Padding(padc, width - |digits|) + digits
  }

  // The padding characters of a format; '-' is the flag for padding on the right, which printnum does not know.
  type padchar = c: char | c == ' ' || c == '0' || c == '-' witness ' '

  // What printnum prints.
  function NumText(num: nat, base: nat, width: int, padc: char): string
    requires IsBase(base)
  {
    Field(Numeral(num, base), width, padc)
  }

  lemma NumTextStep(num: nat, base: nat, width: int, padc: char)
    requires IsBase(base) && num >= base
    ensures NumText(num, base, width, padc)
         == NumText(Quotient(num, base), base, width - 1, padc) + [DigitChar(Remainder(num, base))]
  {
  }
}
