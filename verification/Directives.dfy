// What a conversion directive of a format means (lib/printfmt.c), stated without the functions that read it.
module Directives {
  import opened Machine
  import opened Numerals
  import opened Printfmt
  import Strtol

  // Decimal digits that do not start with a 0, or none.
  type digits = s: string | Strtol.AllDigits(s, 10) && (s != "" ==> s[0] != '0') witness ""

  // The parts of a directive; an empty width or precision stands for none.
  datatype Directive = Directive(padc: padchar, alt: bool, width: digits, precision: digits, longs: nat, conv: char)
  {
    function Width(): nat {
      Decimal(width)
    }

    function Precision(): nat {
      Decimal(precision)
    }
  }

  predicate IsDirective(d: Directive) {
    d.conv in "cesduopx%"
  }

  // ------------------------------------------------------------------
  // Writing a directive
  // ------------------------------------------------------------------

  function PadFlag(padc: padchar): string {
    if padc == ' ' then "" else [padc]
  }

  function AltFlag(alt: bool): string {
    if alt then "#" else ""
  }

  function DotFlag(precision: digits): string {
    if precision == "" then "" else "." + precision
  }

  function Longs(longs: nat): (s: string)
    ensures |s| == longs && forall k :: 0 <= k < longs ==> s[k] == 'l'
  {
    if longs == 0 then "" else "l" + Longs(longs - 1)
  }

  // The parts from the long flags on, from the dot on, and so forth.
  function Ending(d: Directive): string {
    Longs(d.longs) + [d.conv]
  }

  function Fraction(d: Directive): string {
    DotFlag(d.precision) + Ending(d)
  }

  function Size(d: Directive): string {
    d.width + Fraction(d)
  }

  function Shape(d: Directive): string {
    AltFlag(d.alt) + Size(d)
  }

  // For example "%08lx" or "%-#20.3s".
  function Written(d: Directive): string {
    "%" + (PadFlag(d.padc) + Shape(d))
  }

  // ------------------------------------------------------------------
  // Its meaning
  // ------------------------------------------------------------------

  // v is the signed 32-bit value of the word w.
  predicate IsSigned(v: int, w: uint32) {
    -0x8000_0000 <= v < 0x8000_0000 && (v == w || v == w - 0x1_0000_0000)
  }

  // The unsigned and signed arguments: one word of the stack, or two under "ll", the lower one first.
  function UnsignedArg(ap: Args, arg: nat, longs: nat): nat {
    if longs < 2 then ap.stack(arg) else ap.stack(arg) + 0x1_0000_0000 * ap.stack(arg + 1)
  }

  ghost predicate IsSignedArg(v: int, ap: Args, arg: nat, longs: nat) {
    if longs < 2 then IsSigned(v, ap.stack(arg))
    else exists high :: IsSigned(high, ap.stack(arg + 1)) && v == ap.stack(arg) + 0x1_0000_0000 * high
  }

  function WordsTaken(longs: nat): nat {
    if longs < 2 then 1 else 2
  }

  // Digits in a field: all of them at the right end, and the padding character before them.
  ghost predicate IsField(text: string, digits: string, width: nat, padc: char) {
    && |text| == (if width > |digits| then width else |digits|)
    && text[|text| - |digits|..] == digits
    && forall k :: 0 <= k < |text| - |digits| ==> text[k] == padc
  }

  // The numeral of n: its digits are lower-case digits of the base, without leading zeros, and denote n.
  ghost predicate IsNumeralOf(digits: string, n: nat, base: int) {
    && digits != ""
    && Strtol.AllDigits(digits, base) && Strtol.Value(digits, base) == n
    && (digits[0] == '0' ==> digits == "0")
    && forall k :: 0 <= k < |digits| ==> !('A' <= digits[k] <= 'Z')
  }

  ghost predicate IsNumber(text: string, n: nat, base: int, width: nat, padc: char) {
    exists digits :: IsNumeralOf(digits, n, base) && IsField(text, digits, width, padc)
  }

  // How a character of a string is shown: under '#', those that do not print become question marks.
  predicate IsShown(shown: char, c: char, alt: bool) {
    shown == if alt && !(0x20 <= c as int <= 0x7e) then '?' else c
  }

  // A string in a field, cut to the precision, to the left under '-' and to the right otherwise.
  ghost predicate IsString(text: string, s: string, d: Directive) {
    var n := if d.precision == "" || d.Precision() > |s| then |s| else d.Precision();
    var start := if d.padc == '-' || d.Width() <= n then 0 else d.Width() - n;
    && |text| == (if d.Width() > n then d.Width() else n)
    && (forall k :: 0 <= k < n ==> IsShown(text[start + k], s[k], d.alt))
    && (forall k :: 0 <= k < start ==> text[k] == d.padc)
    && (forall k :: start + n <= k < |text| ==> text[k] == ' ')
  }

  // The text after a prefix is a number.
  ghost predicate IsPrefixed(text: string, prefix: string, n: nat, base: int, width: nat, padc: char) {
    exists number :: text == prefix + number && IsNumber(number, n, base, width, padc)
  }

  predicate IsKnownError(text: string, e: int) {
    match e
    case 1 => text == "unspecified error"
    case 2 => text == "bad environment"
    case 3 => text == "invalid parameter"
    case 4 => text == "out of memory"
    case 5 => text == "out of environments"
    case 6 => text == "segmentation fault"
    case _ => false
  }

  ghost predicate IsErrorText(text: string, err: int) {
    var e := if err < 0 then -err else err;
    if 1 <= e <= 6 then IsKnownError(text, e) else IsPrefixed(text, "error ", e, 10, 0, ' ')
  }

  ghost predicate IsSignedText(text: string, v: int, d: Directive) {
    if v >= 0 then IsNumber(text, v, 10, d.Width(), d.padc)
    else IsPrefixed(text, "-", -v, 10, d.Width(), d.padc)
  }

  // One predicate for each kind of conversion: given the arguments from 'arg' on, it prints the text and leaves
  // the arguments from 'next' on.
  ghost predicate PrintsChar(ap: Args, arg: nat, text: string, next: nat) {
    |text| == 1 && text[0] as int == ap.stack(arg) % 0x100 && next == arg + 1
  }

  ghost predicate PrintsString(d: Directive, ap: Args, arg: nat, text: string, next: nat) {
    next == arg + 1 && IsString(text, if ap.stack(arg) == 0 then "(null)" else ap.strings(ap.stack(arg)), d)
  }

  ghost predicate PrintsError(ap: Args, arg: nat, text: string, next: nat) {
    next == arg + 1 && exists err :: IsSigned(err, ap.stack(arg)) && IsErrorText(text, err)
  }

  ghost predicate PrintsSigned(d: Directive, ap: Args, arg: nat, text: string, next: nat) {
    next == arg + WordsTaken(d.longs) && exists v :: IsSignedArg(v, ap, arg, d.longs) && IsSignedText(text, v, d)
  }

  ghost predicate PrintsPointer(d: Directive, ap: Args, arg: nat, text: string, next: nat) {
    next == arg + 1 && IsPrefixed(text, "0x", ap.stack(arg), 16, d.Width(), d.padc)
  }

  ghost predicate PrintsUnsigned(d: Directive, base: int, ap: Args, arg: nat, text: string, next: nat) {
    next == arg + WordsTaken(d.longs) && IsNumber(text, UnsignedArg(ap, arg, d.longs), base, d.Width(), d.padc)
  }

  ghost predicate Prints(d: Directive, ap: Args, arg: nat, text: string, next: nat) {
    match d.conv
    case '%' => text == "%" && next == arg
    case 'c' => PrintsChar(ap, arg, text, next)
    case 's' => PrintsString(d, ap, arg, text, next)
    case 'e' => PrintsError(ap, arg, text, next)
    case 'd' => PrintsSigned(d, ap, arg, text, next)
    case 'p' => PrintsPointer(d, ap, arg, text, next)
    case 'u' => PrintsUnsigned(d, 10, ap, arg, text, next)
    case 'o' => PrintsUnsigned(d, 8, ap, arg, text, next)
    case 'x' => PrintsUnsigned(d, 16, ap, arg, text, next)
    case _ => false
  }

  // ------------------------------------------------------------------
  // Reading it back
  // ------------------------------------------------------------------

  ghost predicate HasAt(fmt: string, i: nat, piece: string) {
    i + |piece| <= |fmt| && forall k :: 0 <= k < |piece| ==> fmt[i + k] == piece[k]
  }

  lemma HasParts(fmt: string, i: nat, a: string, b: string)
    requires HasAt(fmt, i, a + b)
    ensures HasAt(fmt, i, a) && HasAt(fmt, i + |a|, b)
  {
    assert forall k :: 0 <= k < |a| ==> (a + b)[k] == a[k];
    forall k | 0 <= k < |b| ensures fmt[i + |a| + k] == b[k] {
      assert (a + b)[|a| + k] == b[k] && fmt[i + (|a| + k)] == (a + b)[|a| + k];
    }
  }

  lemma HasFirst(fmt: string, i: nat, piece: string)
    requires piece != "" && HasAt(fmt, i, piece)
    ensures fmt[i] == piece[0]
  {
    assert fmt[i + 0] == piece[0];
  }

  lemma SliceIs(fmt: string, i: nat, piece: string)
    requires HasAt(fmt, i, piece)
    ensures fmt[i..i + |piece|] == piece
  {
  }

  // A numeral in the format, with something else after it.
  lemma NumeralStands(fmt: cstring, i: nat, n: digits)
    requires n != "" && HasAt(fmt, i, n) && !IsDecimal(At(fmt, i + |n|))
    ensures IsDigits(fmt, i, i + |n|) && fmt[i] == n[0]
  {
    HasFirst(fmt, i, n);
    forall k | i <= k < i + |n| ensures IsDecimal(fmt[k]) {
      assert fmt[i + (k - i)] == n[k - i] && Strtol.IsDigit(n[k - i], 10);
    }
  }

  lemma CountRead(fmt: cstring, ap: Args, i: nat, n: digits, s: Spec)
    requires n != "" && HasAt(fmt, i, n) && !IsDecimal(At(fmt, i + |n|))
    ensures IsDecimal(fmt[i])
    ensures s.width < 0 ==>
      ScanFlags(fmt, ap, i, s) == ScanFlags(fmt, ap, i + |n|, s.(width := Decimal(n), precision := -1))
    ensures s.width >= 0 ==>
      ScanFlags(fmt, ap, i, s) == ScanFlags(fmt, ap, i + |n|, s.(precision := Decimal(n)))
  {
    NumeralStands(fmt, i, n);
    SliceIs(fmt, i, n);
    NumberRead(fmt, ap, i, i + |n|, s);
  }

  lemma {:induction false} LongsRead(fmt: cstring, ap: Args, i: nat, n: nat, s: Spec)
    requires i + n <= |fmt| && forall k :: i <= k < i + n ==> fmt[k] == 'l'
    ensures ScanFlags(fmt, ap, i, s) == ScanFlags(fmt, ap, i + n, s.(lflag := s.lflag + n))
    decreases n
  {
    if n == 0 {
    } else {
      FlagRead(fmt, ap, i, s);
      LongsRead(fmt, ap, i + 1, n - 1, s.(lflag := s.lflag + 1));
    }
  }

  // What reading the directive leaves.
  function Read(d: Directive, arg: nat): Spec {
    Spec(d.padc, if d.width != "" then d.Width() else if d.precision != "" then 0 else -1,
         if d.precision != "" then d.Precision() else -1, d.longs, d.alt, arg)
  }

  // The end of the directive, from its long flags on, holds no digit and no dot.
  lemma TailRead(fmt: cstring, ap: Args, i: nat, d: Directive, s: Spec)
    requires IsDirective(d) && HasAt(fmt, i, Ending(d))
    ensures var j := i + d.longs;
      j < |fmt| && fmt[j] == d.conv && ScanFlags(fmt, ap, i, s) == (s.(lflag := s.lflag + d.longs), j)
    ensures !IsDecimal(fmt[i]) && fmt[i] != '.'
  {
    HasParts(fmt, i, Longs(d.longs), [d.conv]);
    forall k | i <= k < i + d.longs ensures fmt[k] == 'l' {
      assert fmt[i + (k - i)] == Longs(d.longs)[k - i];
    }
    HasFirst(fmt, i + d.longs, [d.conv]);
    LongsRead(fmt, ap, i, d.longs, s);
    PlainScanned(fmt, ap, i + d.longs, s.(lflag := s.lflag + d.longs));
  }

  function Precise(d: Directive, s: Spec): Spec {
    if d.precision == "" then s.(lflag := d.longs)
    else s.(width := if s.width < 0 then 0 else s.width, precision := d.Precision(), lflag := d.longs)
  }

  lemma FractionRead(fmt: cstring, ap: Args, i: nat, d: Directive, s: Spec)
    requires IsDirective(d) && d.precision != "" && s.lflag == 0 && s.width >= 0
    requires HasAt(fmt, i, d.precision) && HasAt(fmt, i + |d.precision|, Ending(d))
    ensures var j := i + |d.precision| + d.longs;
      j < |fmt| && fmt[j] == d.conv && ScanFlags(fmt, ap, i, s) == (Precise(d, s), j)
  {
    TailRead(fmt, ap, i + |d.precision|, d, s.(precision := d.Precision()));
    CountRead(fmt, ap, i, d.precision, s);
  }

  lemma DotRead(fmt: cstring, ap: Args, i: nat, d: Directive, s: Spec)
    requires IsDirective(d) && d.precision != "" && s.lflag == 0
    requires HasAt(fmt, i, ".") && HasAt(fmt, i + 1, d.precision)
    requires HasAt(fmt, i + 1 + |d.precision|, Ending(d))
    ensures var j := i + 1 + |d.precision| + d.longs;
      j < |fmt| && fmt[j] == d.conv && ScanFlags(fmt, ap, i, s) == (Precise(d, s), j)
    ensures fmt[i] == '.'
  {
    HasFirst(fmt, i, ".");
    FlagRead(fmt, ap, i, s);
    FractionRead(fmt, ap, i + 1, d, s.(width := if s.width < 0 then 0 else s.width));
  }

  lemma PrecisionRead(fmt: cstring, ap: Args, i: nat, d: Directive, s: Spec)
    requires IsDirective(d) && HasAt(fmt, i, Fraction(d))
    requires s.lflag == 0
    ensures var j := i + |DotFlag(d.precision)| + d.longs;
      j < |fmt| && fmt[j] == d.conv && ScanFlags(fmt, ap, i, s) == (Precise(d, s), j)
    ensures !IsDecimal(fmt[i])
  {
    HasParts(fmt, i, DotFlag(d.precision), Ending(d));
    if d.precision == "" {
      TailRead(fmt, ap, i, d, s);
    } else {
      HasParts(fmt, i, ".", d.precision);
      DotRead(fmt, ap, i, d, s);
    }
  }

  lemma WideRead(fmt: cstring, ap: Args, i: nat, d: Directive, s: Spec)
    requires IsDirective(d) && d.width != "" && s.width == -1 && s.lflag == 0
    requires HasAt(fmt, i, d.width) && HasAt(fmt, i + |d.width|, Fraction(d))
    ensures var j := i + |d.width| + |DotFlag(d.precision)| + d.longs;
      && j < |fmt| && fmt[j] == d.conv
      && ScanFlags(fmt, ap, i, s) == (Precise(d, s.(width := d.Width(), precision := -1)), j)
  {
    PrecisionRead(fmt, ap, i + |d.width|, d, s.(width := d.Width(), precision := -1));
    CountRead(fmt, ap, i, d.width, s);
  }

  lemma ReadIsPrecise(d: Directive, arg: nat)
    ensures var s := NoFlags(arg).(padc := d.padc, alt := d.alt);
      Read(d, arg) == Precise(d, if d.width == "" then s else s.(width := d.Width(), precision := -1))
  {
  }

  lemma WidthRead(fmt: cstring, ap: Args, i: nat, d: Directive, s: Spec)
    requires IsDirective(d)
    requires HasAt(fmt, i, Size(d))
    requires s == NoFlags(s.arg).(padc := d.padc, alt := d.alt)
    ensures var j := i + |d.width| + |DotFlag(d.precision)| + d.longs;
      j < |fmt| && fmt[j] == d.conv && ScanFlags(fmt, ap, i, s) == (Read(d, s.arg), j)
  {
    HasParts(fmt, i, d.width, Fraction(d));
    ReadIsPrecise(d, s.arg);
    if d.width == "" {
      PrecisionRead(fmt, ap, i, d, s);
    } else {
      WideRead(fmt, ap, i, d, s);
    }
  }

  lemma AltRead(fmt: cstring, ap: Args, i: nat, d: Directive, s: Spec)
    requires IsDirective(d)
    requires HasAt(fmt, i, Shape(d))
    requires s == NoFlags(s.arg).(padc := d.padc)
    ensures var j := i + |AltFlag(d.alt)| + |d.width| + |DotFlag(d.precision)| + d.longs;
      j < |fmt| && fmt[j] == d.conv && ScanFlags(fmt, ap, i, s) == (Read(d, s.arg), j)
  {
    HasParts(fmt, i, AltFlag(d.alt), Size(d));
    WidthRead(fmt, ap, i + |AltFlag(d.alt)|, d, s.(alt := d.alt));
    if d.alt {
      HasFirst(fmt, i, "#");
      FlagRead(fmt, ap, i, s);
    }
  }

  lemma PadRead(fmt: cstring, ap: Args, i: nat, d: Directive, arg: nat)
    requires IsDirective(d)
    requires HasAt(fmt, i, PadFlag(d.padc) + Shape(d))
    ensures var j := i + |PadFlag(d.padc)| + |AltFlag(d.alt)| + |d.width| + |DotFlag(d.precision)| + d.longs;
      j < |fmt| && fmt[j] == d.conv && ScanFlags(fmt, ap, i, NoFlags(arg)) == (Read(d, arg), j)
  {
    HasParts(fmt, i, PadFlag(d.padc), Shape(d));
    AltRead(fmt, ap, i + |PadFlag(d.padc)|, d, NoFlags(arg).(padc := d.padc));
    if d.padc != ' ' {
      HasFirst(fmt, i, PadFlag(d.padc));
      FlagRead(fmt, ap, i, NoFlags(arg));
    }
  }

  // Wherever a directive stands in a format, reading it gives back its parts.
  lemma DirectiveRead(fmt: cstring, ap: Args, i: nat, d: Directive, arg: nat)
    requires IsDirective(d) && HasAt(fmt, i, Written(d))
    ensures var j := i + |Written(d)| - 1;
      j < |fmt| && fmt[j] == d.conv && ScanFlags(fmt, ap, i + 1, NoFlags(arg)) == (Read(d, arg), j)
    ensures fmt[i] == '%'
  {
    HasFirst(fmt, i, Written(d));
    HasParts(fmt, i, "%", PadFlag(d.padc) + Shape(d));
    PadRead(fmt, ap, i + 1, d, arg);
  }

  // ------------------------------------------------------------------
  // Every conversion prints what it means
  // ------------------------------------------------------------------

  lemma {:induction false} NumeralLower(num: nat, base: nat)
    requires IsBase(base)
    ensures forall k :: 0 <= k < |Numeral(num, base)| ==> !('A' <= Numeral(num, base)[k] <= 'Z')
    decreases num
  {
    if num < base {
    } else {
      NumeralLower(Quotient(num, base), base);
    }
  }

  lemma NumeralIs(num: nat, base: nat)
    requires IsBase(base)
    ensures IsNumeralOf(Numeral(num, base), num, base)
  {
    Strtol.NumeralReads(num, base);
    NumeralLower(num, base);
  }

  lemma FieldIs(digits: string, width: int, w: nat, padc: char)
    requires width == w || (width <= 0 && w == 0)
    ensures IsField(Field(digits, width, padc), digits, w, padc)
  {
  }

  lemma NumberPrinted(num: nat, base: nat, width: int, w: nat, padc: char)
    requires IsBase(base) && (width == w || (width <= 0 && w == 0))
    ensures IsNumber(NumText(num, base, width, padc), num, base, w, padc)
  {
    NumeralIs(num, base);
    FieldIs(Numeral(num, base), width, w, padc);
  }

  lemma SignedValue(w: uint32)
    ensures IsSigned(ToInt(w), w)
  {
  }

  lemma PrefixPrinted(prefix: string, num: nat, base: nat, width: int, w: nat, padc: char)
    requires IsBase(base) && (width == w || (width <= 0 && w == 0))
    ensures IsPrefixed(prefix + NumText(num, base, width, padc), prefix, num, base, w, padc)
  {
    NumberPrinted(num, base, width, w, padc);
  }

  lemma SignedPrinted(v: int, d: Directive, arg: nat)
    ensures IsSignedText(SignedText(v, Read(d, arg).width, d.padc), v, d)
  {
    if v >= 0 {
      NumberPrinted(v, 10, Read(d, arg).width, d.Width(), d.padc);
    } else {
      PrefixPrinted("-", -v, 10, Read(d, arg).width, d.Width(), d.padc);
    }
  }

  lemma StringPrinted(s: string, d: Directive, arg: nat)
    ensures IsString(StringText(s, Read(d, arg)), s, d)
  {
    var spec := Read(d, arg);
    var n, text := Shown(s, spec.precision), StringText(s, spec);
    var shown, pad := Clean(s[..n], d.alt), spec.width - n;
    var start := if d.padc == '-' || pad <= 0 then 0 else pad;
    assert text == if d.padc == '-' then shown + Padding(' ', pad) else Padding(d.padc, pad) + shown;
    forall k | 0 <= k < n ensures IsShown(text[start + k], s[k], d.alt) {
      assert text[start + k] == shown[k] && s[..n][k] == s[k];
    }
  }

  lemma KnownErrorPrinted(err: int)
    requires -7 < err < 7 && err != 0
    ensures IsErrorText(ErrorText(err), err)
  {
    assert ErrorText(err) == ErrorString(if err < 0 then -err else err);
  }

  lemma OtherErrorPrinted(err: int)
    requires !(-7 < err < 7) || err == 0
    ensures IsErrorText(ErrorText(err), err)
  {
    PrefixPrinted("error ", if err < 0 then -err else err, 10, -1, 0, ' ');
  }

  lemma StringPrints(d: Directive, ap: Args, arg: nat)
    requires d.conv == 's'
    ensures var (text, next) := Convert(ap, Read(d, arg), 's'); PrintsString(d, ap, arg, text, next)
  {
    StringPrinted(StringArg(ap, arg), d, arg);
  }

  lemma ErrorPrints(d: Directive, ap: Args, arg: nat)
    ensures var (text, next) := Convert(ap, Read(d, arg), 'e'); PrintsError(ap, arg, text, next)
  {
    var err := ToInt(ap.stack(arg));
    SignedValue(ap.stack(arg));
    if -7 < err < 7 && err != 0 {
      KnownErrorPrinted(err);
    } else {
      OtherErrorPrinted(err);
    }
  }

  lemma SignedArgument(ap: Args, arg: nat, longs: nat)
    ensures IsSignedArg(GetInt(ap, arg, longs).0, ap, arg, longs) && GetInt(ap, arg, longs).1 == arg + WordsTaken(longs)
  {
    SignedValue(ap.stack(arg));
    SignedValue(ap.stack(arg + 1));
    if longs >= 2 {
      assert GetInt(ap, arg, longs).0 == ap.stack(arg) + 0x1_0000_0000 * ToInt(ap.stack(arg + 1));
    }
  }

  lemma SignedPrints(d: Directive, ap: Args, arg: nat)
    ensures var (text, next) := Convert(ap, Read(d, arg), 'd'); PrintsSigned(d, ap, arg, text, next)
  {
    SignedArgument(ap, arg, d.longs);
    SignedPrinted(GetInt(ap, arg, d.longs).0, d, arg);
  }

  lemma PointerPrints(d: Directive, ap: Args, arg: nat)
    ensures var (text, next) := Convert(ap, Read(d, arg), 'p'); PrintsPointer(d, ap, arg, text, next)
  {
    PrefixPrinted("0x", ap.stack(arg), 16, Read(d, arg).width, d.Width(), d.padc);
  }

  lemma UnsignedArgument(ap: Args, arg: nat, longs: nat)
    ensures GetUint(ap, arg, longs) == (UnsignedArg(ap, arg, longs), arg + WordsTaken(longs))
  {
  }

  lemma UnsignedConverts(d: Directive, base: nat, ap: Args, arg: nat)
    requires (d.conv == 'u' && base == 10) || (d.conv == 'o' && base == 8) || (d.conv == 'x' && base == 16)
    ensures Convert(ap, Read(d, arg), d.conv)
         == (NumText(UnsignedArg(ap, arg, d.longs), base, Read(d, arg).width, d.padc), arg + WordsTaken(d.longs))
  {
    UnsignedArgument(ap, arg, d.longs);
  }

  lemma UnsignedPrints(d: Directive, base: nat, ap: Args, arg: nat)
    requires (d.conv == 'u' && base == 10) || (d.conv == 'o' && base == 8) || (d.conv == 'x' && base == 16)
    ensures PrintsUnsigned(d, base, ap, arg, Convert(ap, Read(d, arg), d.conv).0, Convert(ap, Read(d, arg), d.conv).1)
  {
    UnsignedConverts(d, base, ap, arg);
    NumberPrinted(UnsignedArg(ap, arg, d.longs), base, Read(d, arg).width, d.Width(), d.padc);
  }

  lemma ConversionPrints(d: Directive, ap: Args, arg: nat) returns (text: string, next: nat)
    requires IsDirective(d)
    ensures (text, next) == Convert(ap, Read(d, arg), d.conv)
    ensures Prints(d, ap, arg, text, next)
  {
    text, next := Convert(ap, Read(d, arg), d.conv).0, Convert(ap, Read(d, arg), d.conv).1;
    match d.conv
    case 's' => StringPrints(d, ap, arg);
    case 'e' => ErrorPrints(d, ap, arg);
    case 'd' => SignedPrints(d, ap, arg);
    case 'p' => PointerPrints(d, ap, arg);
    case 'u' => UnsignedPrints(d, 10, ap, arg);
    case 'o' => UnsignedPrints(d, 8, ap, arg);
    case 'x' => UnsignedPrints(d, 16, ap, arg);
    case _ =>
  }

  lemma DirectiveText(fmt: cstring, ap: Args, i: nat, d: Directive, arg: nat)
    requires IsDirective(d) && HasAt(fmt, i, Written(d))
    ensures var (text, next) := Convert(ap, Read(d, arg), d.conv);
      && i + |Written(d)| <= |fmt|
      && Format(fmt, ap, i, arg) == text + Format(fmt, ap, i + |Written(d)|, next)
  {
    DirectiveRead(fmt, ap, i, d, arg);
    ConversionEscape(fmt, ap, i, arg, Read(d, arg), i + |Written(d)| - 1);
  }

  // Wherever a directive stands in a format, it prints what it means, and the rest follows with the arguments
  // that it leaves.
  lemma DirectivePrints(fmt: cstring, ap: Args, i: nat, d: Directive, arg: nat) returns (text: string, next: nat)
    requires IsDirective(d) && HasAt(fmt, i, Written(d))
    ensures Prints(d, ap, arg, text, next)
    ensures i + |Written(d)| <= |fmt|
    ensures Format(fmt, ap, i, arg) == text + Format(fmt, ap, i + |Written(d)|, next)
  {
    DirectiveText(fmt, ap, i, d, arg);
    text, next := ConversionPrints(d, ap, arg);
  }

  // Any other escape stands for itself, and the '*'s in it still take their arguments.
  lemma OtherEscape(fmt: cstring, ap: Args, i: nat, arg: nat)
    requires i < |fmt| && fmt[i] == '%'
    requires At(fmt, ScanFlags(fmt, ap, i + 1, NoFlags(arg)).1) !in "cesduopx%"
    ensures Format(fmt, ap, i, arg) == "%" + Format(fmt, ap, i + 1, ScanFlags(fmt, ap, i + 1, NoFlags(arg)).0.arg)
  {
    Rewinds(fmt, ap, i, arg);
  }

  // The address of a symbol, as the monitor prints it.
  lemma EightDigits(ap: Args)
    ensures IsNumber(Format("%08x", ap, 0, 0), ap.stack(0), 16, 8, '0')
  {
    var fmt: cstring, d := "%08x", Directive('0', false, "8", "", 0, 'x');
    assert d.width[..0] == "" && d.Width() == 8;
    assert Written(d) == fmt;
    var text, next := DirectivePrints(fmt, ap, 0, d, 0);
    assert Format(fmt, ap, 4, next) == "";
  }
}
