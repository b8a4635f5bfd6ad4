// The formatted printer (lib/printfmt.c).
module Printfmt {
  import opened Machine
  import opened Numerals
  import Strtol

  const E_INVAL := 3
  const MAXERROR := 7
  const INT_MIN_WORD: uint32 := 0x8000_0000

  // ------------------------------------------------------------------
  // Arguments.  va_arg reads consecutive 32-bit words of the caller's stack; a string argument is a
  // pointer, and what it points at is given by 'strings'.
  // ------------------------------------------------------------------

  datatype Args = Args(stack: nat -> uint32, strings: uint32 -> cstring)

  function ToInt(w: uint32): int {
    if w < 0x8000_0000 then w else w - TWO_TO_32
  }

  function GetUint(ap: Args, arg: nat, lflag: nat): (nat, nat) {
    if lflag >= 2 then (ap.stack(arg) + ap.stack(arg + 1) * TWO_TO_32, arg + 2)
    else (ap.stack(arg), arg + 1)
  }

  function GetInt(ap: Args, arg: nat, lflag: nat): (int, nat) {
    if lflag >= 2 then (ap.stack(arg) + ToInt(ap.stack(arg + 1)) * TWO_TO_32, arg + 2)
    else (ToInt(ap.stack(arg)), arg + 1)
  }

  // ------------------------------------------------------------------
  // Specification: the text that a format produces
  // ------------------------------------------------------------------

  // The flags, width and precision read so far, and the next argument.
  datatype Spec = Spec(padc: padchar, width: int, precision: int, lflag: nat, alt: bool, arg: nat)

  function NoFlags(arg: nat): Spec {
    Spec(' ', -1, -1, 0, false, arg)
  }

  // The first number is the width, any later one the precision.
  function WithNumber(s: Spec, n: int): Spec {
    if s.width < 0 then s.(width := n, precision := -1) else s.(precision := n)
  }

  predicate IsDecimal(c: char) {
    '0' <= c <= '9'
  }

  function DecimalOf(c: char): nat
    requires IsDecimal(c)
  {
    c as int - '0' as int
  }

  // Reads the digits from i on into n, and says where they end.
  function ScanNumber(fmt: cstring, i: nat, n: nat): (r: (nat, nat))
    requires i <= |fmt|
    ensures i <= r.1 <= |fmt|
    ensures forall k :: i <= k < r.1 ==> fmt[k] != '%'
    decreases |fmt| - i
  {
    if IsDecimal(At(fmt, i)) then ScanNumber(fmt, i + 1, n * 10 + DecimalOf(At(fmt, i))) else (n, i)
  }

  // The one-character flags, '.' and '*'.
  predicate IsFlag(ch: char) {
    ch == '-' || ch == '0' || ch == '*' || ch == '.' || ch == '#' || ch == 'l'
  }

  function WithFlag(ap: Args, s: Spec, ch: char): Spec
    requires IsFlag(ch)
  {
    match ch
    case '-' => s.(padc := '-')
    case '0' => s.(padc := '0')
    case '*' => WithNumber(s.(arg := s.arg + 1), ToInt(ap.stack(s.arg)))
    case '.' => if s.width < 0 then s.(width := 0) else s
    case '#' => s.(alt := true)
    case _ => s.(lflag := s.lflag + 1)
  }

  // Reads flags, widths and precisions from i on, up to the conversion character.
  function ScanFlags(fmt: cstring, ap: Args, i: nat, s: Spec): (r: (Spec, nat))
    requires i <= |fmt|
    ensures i <= r.1 <= |fmt|
    ensures forall k :: i <= k < r.1 ==> fmt[k] != '%'
    decreases |fmt| - i
  {
    var ch := At(fmt, i);
    if IsFlag(ch) then
      ScanFlags(fmt, ap, i + 1, WithFlag(ap, s, ch))
    else if IsDecimal(ch) then
      var (n, j) := ScanNumber(fmt, i + 1, DecimalOf(ch));
      ScanFlags(fmt, ap, j, WithNumber(s, n))
    else
      (s, i)
  }

  predicate IsConversion(ch: char) {
    ch == 'c' || ch == 'e' || ch == 's' || ch == 'd' || ch == 'u' || ch == 'o' || ch == 'p' || ch == 'x' || ch == '%'
  }

  function ErrorString(err: int): cstring {
    if err == 1 then "unspecified error"
    else if err == 2 then "bad environment"
    else if err == 3 then "invalid parameter"
    else if err == 4 then "out of memory"
    else if err == 5 then "out of environments"
    else "segmentation fault"
  }

  function ErrorText(err: int): string {
    var e := if err < 0 then -err else err;
    if 0 < e < MAXERROR then ErrorString(e) else "error " + NumText(e, 10, -1, ' ')
  }

  // With the '#' flag, characters that do not print are replaced.
  function CleanChar(c: char, alt: bool): char {
    if alt && (c < ' ' || c > '~') then '?' else c
  }

  function Clean(s: string, alt: bool): (t: string)
    ensures |t| == |s|
    ensures forall k :: 0 <= k < |s| ==> t[k] == CleanChar(s[k], alt)
  {
    if s == "" then "" else [CleanChar(s[0], alt)] + Clean(s[1..], alt)
  }

  // How much of a string is shown.
  function Shown(s: string, precision: int): (n: nat)
    ensures n <= |s|
  {
    if precision < 0 || precision > |s| then |s| else precision
  }

  function StringText(s: string, spec: Spec): string {
    var n := Shown(s, spec.precision);
    var shown := Clean(s[..n], spec.alt);
    if spec.padc == '-' then shown + Padding(' ', spec.width - n) else Padding(spec.padc, spec.width - n) + shown
  }

  function StringArg(ap: Args, arg: nat): cstring {
    var p := ap.stack(arg);
    if p == 0 then "(null)" else ap.strings(p)
  }

  function SignedText(v: int, width: int, padc: char): string {
    if v < 0 then "-" + NumText(-v, 10, width, padc) else NumText(v, 10, width, padc)
  }

  // The text of one conversion, and the next argument.
  function Convert(ap: Args, s: Spec, ch: char): (string, nat)
    requires IsConversion(ch)
  {
    match ch
    case '%' => ("%", s.arg)
    case 'c' => ([(ap.stack(s.arg) % 256) as char], s.arg + 1)
    case 'e' => (ErrorText(ToInt(ap.stack(s.arg))), s.arg + 1)
    case 's' => (StringText(StringArg(ap, s.arg), s), s.arg + 1)
    case 'd' =>
      var (v, next) := GetInt(ap, s.arg, s.lflag);
      (SignedText(v, s.width, s.padc), next)
    case 'p' => ("0x" + NumText(ap.stack(s.arg), 16, s.width, s.padc), s.arg + 1)
    case _ =>
      var (v, next) := GetUint(ap, s.arg, s.lflag);
      (NumText(v, if ch == 'u' then 10 else if ch == 'o' then 8 else 16, s.width, s.padc), next)
  }

  // The escape at i: its text, the position after it and the next argument.
  // An escape that is not recognised, or cut short by the end of the format, stands for itself.
  function Escape(fmt: cstring, ap: Args, i: nat, arg: nat): (r: (string, nat, nat))
    requires i < |fmt|
    ensures i < r.1 <= |fmt|
  {
    var (s, j) := ScanFlags(fmt, ap, i + 1, NoFlags(arg));
    if IsConversion(At(fmt, j)) then
      var (text, next) := Convert(ap, s, fmt[j]);
      (text, j + 1, next)
    else
      (fmt[i..j], j, s.arg)
  }

  // The text that fmt produces from position i on, with the next argument at 'arg'.
  function Format(fmt: cstring, ap: Args, i: nat, arg: nat): string
    requires i <= |fmt|
    decreases |fmt| - i
  {
    if i == |fmt| then ""
    else if fmt[i] != '%' then [fmt[i]] + Format(fmt, ap, i + 1, arg)
    else
      var (text, j, next) := Escape(fmt, ap, i, arg);
      text + Format(fmt, ap, j, next)
  }

  // The escape at i does not hand %e the one int whose negation overflows.
  predicate EscapeDefined(fmt: cstring, ap: Args, i: nat, arg: nat)
    requires i < |fmt|
  {
    var (s, j) := ScanFlags(fmt, ap, i + 1, NoFlags(arg));
    At(fmt, j) == 'e' ==> ap.stack(s.arg) != INT_MIN_WORD
  }

  predicate Defined(fmt: cstring, ap: Args, i: nat, arg: nat)
    requires i <= |fmt|
    decreases |fmt| - i
  {
    if i == |fmt| then true
    else if fmt[i] != '%' then Defined(fmt, ap, i + 1, arg)
    else
      var (_, j, next) := Escape(fmt, ap, i, arg);
      EscapeDefined(fmt, ap, i, arg) && Defined(fmt, ap, j, next)
  }

  lemma Assoc(a: string, b: string, c: string)
    ensures a + (b + c) == (a + b) + c
  {
  }

  // ------------------------------------------------------------------
  // The bounded sink of vsnprintf
  // ------------------------------------------------------------------

  class Sprintbuf {
    const buf: array<char>
    const limit: nat  // the position of ebuf
    var next: nat     // the position of buf
    var cnt: int
    ghost const before: string
    ghost var emitted: string

    ghost predicate Valid()
      reads this, buf
    {
      && limit < buf.Length == |before|
      && cnt == |emitted|
      && next == (if |emitted| < limit then |emitted| else limit)
      && forall k :: 0 <= k < buf.Length ==> buf[k] == if k < next then emitted[k] else before[k]
    }

    constructor (buf: array<char>, n: nat)
      requires 1 <= n <= buf.Length
      ensures Valid() && emitted == "" && this.buf == buf && limit == n - 1 && before == buf[..]
    {
      this.buf, limit, next, cnt, before, emitted := buf, n - 1, 0, 0, buf[..], "";
    }

    // sprintputch
    method Putch(ch: char)
      requires Valid()
      modifies this, buf
      ensures Valid() && emitted == old(emitted) + [ch]
    {
      cnt := cnt + 1;
      if next < limit {
        buf[next] := ch;
        next := next + 1;
      }
      emitted := emitted + [ch];
    }
  }

  // ------------------------------------------------------------------
  // printnum and the string conversion
  // ------------------------------------------------------------------

  method Pad(b: Sprintbuf, c: char, k: int)
    requires b.Valid()
    modifies b, b.buf
    ensures b.Valid() && b.emitted == old(b.emitted) + Padding(c, k)
  {
    var width := k;
    while width > 0
      invariant b.Valid() && b.emitted + Padding(c, width) == old(b.emitted) + Padding(c, k)
    {
      b.Putch(c);
      width := width - 1;
    }
  }

  // Prints the more significant digits first; the innermost call prints the padding.
  method Printnum(b: Sprintbuf, num: nat, base: nat, width: int, padc: char)
    requires b.Valid() && IsBase(base)
    modifies b, b.buf
    ensures b.Valid() && b.emitted == old(b.emitted) + NumText(num, base, width, padc)
    decreases num
  {
    if num >= base {
      NumTextStep(num, base, width, padc);
      Printnum(b, Quotient(num, base), base, width - 1, padc);
    } else {
      Pad(b, padc, width - 1);
    }
    b.Putch(DigitChar(Remainder(num, base)));
  }

  // strnlen; a negative size is a huge unsigned one
  method Strnlen(s: string, size: int) returns (n: nat)
    ensures n == Shown(s, size)
  {
    n := 0;
    while size < 0 || n < size
      invariant n <= Shown(s, size)
      decreases |s| - n
    {
      if n == |s| {
        break;
      }
      n := n + 1;
    }
  }

  // The characters of the string, up to the precision.
  method PutString(b: Sprintbuf, s: string, precision: int, alt: bool) returns (n: nat)
    requires b.Valid()
    modifies b, b.buf
    ensures n == Shown(s, precision)
    ensures b.Valid() && b.emitted == old(b.emitted) + Clean(s[..n], alt)
  {
    n := 0;
    var left := precision;
    ghost var before, out := b.emitted, "";
    while n < |s| && (left < 0 || left - 1 >= 0)
      invariant n <= Shown(s, precision) && b.Valid()
      invariant left == if precision < 0 then precision else precision - n
      invariant out == Clean(s[..n], alt) && b.emitted == before + out
    {
      var ch := CleanChar(s[n], alt);
      CleanNext(s, n, alt);
      Assoc(before, out, [ch]);
      b.Putch(ch);
      out := out + [ch];
      if left >= 0 {
        left := left - 1;
      }
      n := n + 1;
    }
  }

  lemma CleanNext(s: string, n: nat, alt: bool)
    requires n < |s|
    ensures Clean(s[..n + 1], alt) == Clean(s[..n], alt) + [CleanChar(s[n], alt)]
  {
  }

  // The padding printed before and after a string.
  function LeftPadding(n: nat, spec: Spec): string {
    if spec.width > 0 && spec.padc != '-' then Padding(spec.padc, spec.width - n) else ""
  }

  function RightPadding(n: nat, spec: Spec): string {
    if spec.padc == '-' then Padding(' ', spec.width - n) else ""
  }

  lemma StringPieces(before: string, s: string, spec: Spec)
    ensures var n := Shown(s, spec.precision);
      before + StringText(s, spec)
      == ((before + LeftPadding(n, spec)) + Clean(s[..n], spec.alt)) + RightPadding(n, spec)
  {
  }

  method PrintString(b: Sprintbuf, s: string, spec: Spec)
    requires b.Valid()
    modifies b, b.buf
    ensures b.Valid() && b.emitted == old(b.emitted) + StringText(s, spec)
  {
    StringPieces(b.emitted, s, spec);
    var width := spec.width;
    if width > 0 && spec.padc != '-' {
      var len := Strnlen(s, spec.precision);
      Pad(b, spec.padc, width - len);
      width := if width - len > 0 then 0 else width - len;
    }
    assert b.emitted == old(b.emitted) + LeftPadding(Shown(s, spec.precision), spec);
    var n := PutString(b, s, spec.precision, spec.alt);
    assert Padding(' ', width - n) == RightPadding(n, spec);
    Pad(b, ' ', width - n);
  }

  // ------------------------------------------------------------------
  // vprintfmt
  // ------------------------------------------------------------------

  lemma {:induction false} LiteralRun(fmt: cstring, ap: Args, i: nat, j: nat, arg: nat)
    requires i <= j <= |fmt| && forall k :: i <= k < j ==> fmt[k] != '%'
    ensures Format(fmt, ap, i, arg) == fmt[i..j] + Format(fmt, ap, j, arg)
    decreases j - i
  {
    if i < j {
      var rest := Format(fmt, ap, j, arg);
      LiteralRun(fmt, ap, i + 1, j, arg);
      assert fmt[i..j] == [fmt[i]] + fmt[i + 1..j];
      Assoc([fmt[i]], fmt[i + 1..j], rest);
    } else {
      assert fmt[i..j] == "";
    }
  }

  lemma {:induction false} LiteralRunDefined(fmt: cstring, ap: Args, i: nat, j: nat, arg: nat)
    requires i <= j <= |fmt| && forall k :: i <= k < j ==> fmt[k] != '%'
    ensures Defined(fmt, ap, i, arg) == Defined(fmt, ap, j, arg)
    decreases j - i
  {
    if i >= j {
    } else {
      LiteralRunDefined(fmt, ap, i + 1, j, arg);
    }
  }

  // Printing '%' and resuming just after it prints an unrecognised escape verbatim.
  lemma Rewinds(fmt: cstring, ap: Args, i: nat, arg: nat)
    requires i < |fmt| && fmt[i] == '%'
    requires !IsConversion(At(fmt, ScanFlags(fmt, ap, i + 1, NoFlags(arg)).1))
    ensures var s := ScanFlags(fmt, ap, i + 1, NoFlags(arg)).0;
      && Format(fmt, ap, i, arg) == "%" + Format(fmt, ap, i + 1, s.arg)
      && Defined(fmt, ap, i, arg) == Defined(fmt, ap, i + 1, s.arg)
  {
    var (s, j) := ScanFlags(fmt, ap, i + 1, NoFlags(arg));
    LiteralRun(fmt, ap, i + 1, j, s.arg);
    LiteralRunDefined(fmt, ap, i + 1, j, s.arg);
    assert fmt[i..j] == "%" + fmt[i + 1..j];
    Assoc("%", fmt[i + 1..j], Format(fmt, ap, j, s.arg));
  }

  // An escape that ends in a conversion character.
  lemma ConversionEscape(fmt: cstring, ap: Args, i: nat, arg: nat, s: Spec, j: nat)
    requires i < |fmt| && fmt[i] == '%'
    requires ScanFlags(fmt, ap, i + 1, NoFlags(arg)) == (s, j) && j < |fmt| && IsConversion(fmt[j])
    ensures var (text, next) := Convert(ap, s, fmt[j]); Format(fmt, ap, i, arg) == text + Format(fmt, ap, j + 1, next)
  {
    assert Escape(fmt, ap, i, arg).0 == Convert(ap, s, fmt[j]).0;
    assert Escape(fmt, ap, i, arg).1 == j + 1;
    assert Escape(fmt, ap, i, arg).2 == Convert(ap, s, fmt[j]).1;
  }

  lemma ConversionDefined(fmt: cstring, ap: Args, i: nat, arg: nat, s: Spec, j: nat)
    requires i < |fmt| && fmt[i] == '%' && Defined(fmt, ap, i, arg)
    requires ScanFlags(fmt, ap, i + 1, NoFlags(arg)) == (s, j) && j < |fmt| && IsConversion(fmt[j])
    ensures Defined(fmt, ap, j + 1, Convert(ap, s, fmt[j]).1)
    ensures fmt[j] == 'e' ==> ap.stack(s.arg) != INT_MIN_WORD
  {
    assert EscapeDefined(fmt, ap, i, arg);
    assert Escape(fmt, ap, i, arg).1 == j + 1;
    assert Escape(fmt, ap, i, arg).2 == Convert(ap, s, fmt[j]).1;
  }

  // The code from 'reswitch' to the conversion character, which is returned with the position after it.
  method ReadFlags(fmt: cstring, ap: Args, start: nat, first: nat) returns (s: Spec, ch: char, i: nat)
    requires start <= |fmt|
    ensures start < i <= |fmt| + 1 && ch == At(fmt, i - 1)
    ensures (s, i - 1) == ScanFlags(fmt, ap, start, NoFlags(first))
  {
    var padc: padchar, width, precision, lflag, altflag, arg := ' ', -1, -1, 0, false, first;
    i := start;
    while true
      invariant start <= i <= |fmt| && arg >= 0 && lflag >= 0
      invariant ScanFlags(fmt, ap, i, Spec(padc, width, precision, lflag, altflag, arg))
             == ScanFlags(fmt, ap, start, NoFlags(first))
      decreases |fmt| - i
    {
      ch := At(fmt, i);
      i := i + 1;
      if ch == '-' {
        padc := '-';
      } else if ch == '0' {
        padc := '0';
      } else if IsDecimal(ch) {
        precision, i := ReadNumber(fmt, ch, i);
        if width < 0 {
          width, precision := precision, -1;
        }
      } else if ch == '*' {
        precision, arg := ToInt(ap.stack(arg)), arg + 1;
        if width < 0 {
          width, precision := precision, -1;
        }
      } else if ch == '.' {
        if width < 0 {
          width := 0;
        }
      } else if ch == '#' {
        altflag := true;
      } else if ch == 'l' {
        lflag := lflag + 1;
      } else {
        return Spec(padc, width, precision, lflag, altflag, arg), ch, i;
      }
    }
  }

  method ReadNumber(fmt: cstring, first: char, start: nat) returns (n: nat, i: nat)
    requires IsDecimal(first) && start <= |fmt|
    ensures (n, i) == ScanNumber(fmt, start, DecimalOf(first))
  {
    var ch := first;
    n, i := 0, start;
    while true
      invariant start <= i <= |fmt| && IsDecimal(ch)
      invariant ScanNumber(fmt, i, n * 10 + DecimalOf(ch)) == ScanNumber(fmt, start, DecimalOf(first))
      decreases |fmt| - i
    {
      n := n * 10 + DecimalOf(ch);
      ch := At(fmt, i);
      if !IsDecimal(ch) {
        return;
      }
      i := i + 1;
    }
  }

  ghost predicate MayPrintError(fmt: cstring) {
    exists i, j :: 0 <= i < j < |fmt| && fmt[i] == '%' && fmt[j] == 'e'
  }

  function OneArg(w: uint32, s: cstring): Args {
    Args(k => w, p => s)
  }

  lemma UnknownErrorFormat(err: int)
    requires 0 <= err < 0x8000_0000
    ensures Format("error %d", OneArg(err, ""), 0, 0) == "error " + NumText(err, 10, -1, ' ')
    ensures Defined("error %d", OneArg(err, ""), 0, 0)
    ensures !MayPrintError("error %d")
  {
    var fmt: cstring, ap := "error %d", OneArg(err, "");
    LiteralRun(fmt, ap, 0, 6, 0);
    LiteralRunDefined(fmt, ap, 0, 6, 0);
    assert fmt[0..6] == "error ";
    assert ScanFlags(fmt, ap, 7, NoFlags(0)) == (NoFlags(0), 7);
    assert Convert(ap, NoFlags(0), 'd') == (NumText(err, 10, -1, ' '), 1);
    assert Format(fmt, ap, 8, 1) == "";
  }

  lemma PlainString(s: string, spec: Spec)
    requires spec == NoFlags(spec.arg)
    ensures StringText(s, spec) == s
  {
    assert s[..|s|] == s;
    assert Clean(s, false) == s;
  }

  lemma KnownErrorFormat(s: cstring)
    ensures Format("%s", OneArg(1, s), 0, 0) == s
    ensures Defined("%s", OneArg(1, s), 0, 0)
    ensures !MayPrintError("%s")
  {
    var fmt: cstring, ap := "%s", OneArg(1, s);
    assert ScanFlags(fmt, ap, 1, NoFlags(0)) == (NoFlags(0), 1);
    assert Convert(ap, NoFlags(0), 's') == (s, 1) by {
      assert StringArg(ap, 0) == s;
      PlainString(s, NoFlags(0));
    }
    assert Format(fmt, ap, 2, 1) == "";
  }

  // The two nested calls of printfmt.
  method PrintErrorNumber(b: Sprintbuf, err: int)
    requires b.Valid() && 0 <= err < 0x8000_0000
    modifies b, b.buf
    ensures b.Valid() && b.emitted == old(b.emitted) + ("error " + NumText(err, 10, -1, ' '))
    decreases 0, 5
  {
    UnknownErrorFormat(err);
    Vprintfmt(b, "error %d", OneArg(err, ""));
  }

  method PrintErrorString(b: Sprintbuf, s: cstring)
    requires b.Valid()
    modifies b, b.buf
    ensures b.Valid() && b.emitted == old(b.emitted) + s
    decreases 0, 5
  {
    KnownErrorFormat(s);
    Vprintfmt(b, "%s", OneArg(1, s));
  }

  method PrintError(b: Sprintbuf, arg: int)
    requires b.Valid() && -0x8000_0000 < arg < 0x8000_0000
    modifies b, b.buf
    ensures b.Valid() && b.emitted == old(b.emitted) + ErrorText(arg)
    decreases 1, 0
  {
    var err := arg;
    if err < 0 {
      err := -err;
    }
    if err >= MAXERROR || err == 0 {
      PrintErrorNumber(b, err);
    } else {
      PrintErrorString(b, ErrorString(err));
    }
  }

  method PrintSigned(b: Sprintbuf, v: int, width: int, padc: char)
    requires b.Valid()
    modifies b, b.buf
    ensures b.Valid() && b.emitted == old(b.emitted) + SignedText(v, width, padc)
  {
    var num := v;
    if num < 0 {
      b.Putch('-');
      num := -num;
      Assoc(old(b.emitted), "-", NumText(num, 10, width, padc));
    }
    Printnum(b, num, 10, width, padc);
  }

  method PrintPointer(b: Sprintbuf, p: uint32, width: int, padc: char)
    requires b.Valid()
    modifies b, b.buf
    ensures b.Valid() && b.emitted == old(b.emitted) + ("0x" + NumText(p, 16, width, padc))
  {
    b.Putch('0');
    b.Putch('x');
    assert b.emitted == old(b.emitted) + "0x";
    Assoc(old(b.emitted), "0x", NumText(p, 16, width, padc));
    Printnum(b, p, 16, width, padc);
  }

  // One conversion, with the cases of the switch.
  method PrintConversion(b: Sprintbuf, ap: Args, s: Spec, ch: char) returns (next: nat)
    requires b.Valid() && IsConversion(ch)
    requires ch == 'e' ==> ap.stack(s.arg) != INT_MIN_WORD
    modifies b, b.buf
    ensures b.Valid() && b.emitted == old(b.emitted) + Convert(ap, s, ch).0
    ensures next == Convert(ap, s, ch).1
    decreases if ch == 'e' then 1 else 0, 1
  {
    next := s.arg + 1;
    match ch
    case 'c' =>
      b.Putch((ap.stack(s.arg) % 256) as char);
    case 'e' =>
      PrintError(b, ToInt(ap.stack(s.arg)));
    case 's' =>
      PrintString(b, StringArg(ap, s.arg), s);
    case 'd' =>
      var (v, after) := GetInt(ap, s.arg, s.lflag);
      next := after;
      PrintSigned(b, v, s.width, s.padc);
    case 'p' =>
      PrintPointer(b, ap.stack(s.arg), s.width, s.padc);
    case '%' =>
      b.Putch('%');
      next := s.arg;
    case _ =>
      var (num, after) := GetUint(ap, s.arg, s.lflag);
      next := after;
      Printnum(b, num, if ch == 'u' then 10 else if ch == 'o' then 8 else 16, s.width, s.padc);
  }

  // Ordinary characters, up to and including the next '%'.
  method PutLiteral(b: Sprintbuf, fmt: cstring, ghost ap: Args, start: nat, ghost arg: nat) returns (i: nat, done: bool)
    requires start <= |fmt| && b.Valid() && Defined(fmt, ap, start, arg)
    modifies b, b.buf
    ensures b.Valid()
    ensures done ==> b.emitted == old(b.emitted) + Format(fmt, ap, start, arg)
    ensures !done ==> start < i <= |fmt| && fmt[i - 1] == '%' && Defined(fmt, ap, i - 1, arg)
    ensures !done ==> b.emitted + Format(fmt, ap, i - 1, arg) == old(b.emitted) + Format(fmt, ap, start, arg)
  {
    var ch := At(fmt, start);
    i := start + 1;
    while ch != '%'
      invariant start < i <= |fmt| + 1 && ch == At(fmt, i - 1)
      invariant b.Valid() && Defined(fmt, ap, i - 1, arg)
      invariant b.emitted + Format(fmt, ap, i - 1, arg) == old(b.emitted) + Format(fmt, ap, start, arg)
      decreases |fmt| + 1 - i
    {
      if ch == '\0' {
        return i, true;
      }
      Assoc(b.emitted, [ch], Format(fmt, ap, i, arg));
      b.Putch(ch);
      ch := At(fmt, i);
      i := i + 1;
    }
    done := false;
  }

  // The default case: prints the '%' and backs up to just after it.
  method PutUnknown(b: Sprintbuf, fmt: cstring, ghost ap: Args, start: nat, end: nat, ghost arg: nat, ghost s: Spec)
    returns (i: nat)
    requires 0 < start <= end <= |fmt| && fmt[start - 1] == '%' && b.Valid() && Defined(fmt, ap, start - 1, arg)
    requires ScanFlags(fmt, ap, start, NoFlags(arg)) == (s, end) && !IsConversion(At(fmt, end))
    modifies b, b.buf
    ensures i == start && b.Valid() && Defined(fmt, ap, i, s.arg)
    ensures b.emitted + Format(fmt, ap, i, s.arg) == old(b.emitted) + Format(fmt, ap, start - 1, arg)
  {
    Rewinds(fmt, ap, start - 1, arg);
    Assoc(b.emitted, "%", Format(fmt, ap, start, s.arg));
    b.Putch('%');
    i := end;
    while At(fmt, i - 1) != '%'
      invariant start <= i <= |fmt|
      invariant forall k :: start <= k < i ==> fmt[k] != '%'
      decreases i
    {
      i := i - 1;
    }
  }

  // The switch on a conversion character, at position 'end'.
  method PutConversion(b: Sprintbuf, fmt: cstring, ap: Args, ghost start: nat, end: nat, ghost arg: nat, s: Spec)
    returns (next: nat)
    requires 0 < start <= end < |fmt| && fmt[start - 1] == '%' && b.Valid() && Defined(fmt, ap, start - 1, arg)
    requires ScanFlags(fmt, ap, start, NoFlags(arg)) == (s, end) && IsConversion(fmt[end])
    modifies b, b.buf
    ensures b.Valid() && Defined(fmt, ap, end + 1, next)
    ensures b.emitted + Format(fmt, ap, end + 1, next) == old(b.emitted) + Format(fmt, ap, start - 1, arg)
    decreases if MayPrintError(fmt) then 1 else 0, 2
  {
    ghost var text, after := Convert(ap, s, fmt[end]).0, Convert(ap, s, fmt[end]).1;
    ConversionEscape(fmt, ap, start - 1, arg, s, end);
    ConversionDefined(fmt, ap, start - 1, arg, s, end);
    Assoc(b.emitted, text, Format(fmt, ap, end + 1, after));
    next := PrintConversion(b, ap, s, fmt[end]);
  }

  // One escape, from just after its '%'.
  method PutEscape(b: Sprintbuf, fmt: cstring, ap: Args, start: nat, arg: nat) returns (i: nat, next: nat)
    requires 0 < start <= |fmt| && fmt[start - 1] == '%' && b.Valid() && Defined(fmt, ap, start - 1, arg)
    modifies b, b.buf
    ensures start <= i <= |fmt| && b.Valid() && Defined(fmt, ap, i, next)
    ensures b.emitted + Format(fmt, ap, i, next) == old(b.emitted) + Format(fmt, ap, start - 1, arg)
    decreases if MayPrintError(fmt) then 1 else 0, 3
  {
    var s, ch;
    s, ch, i := ReadFlags(fmt, ap, start, arg);
    if IsConversion(ch) {
      next := PutConversion(b, fmt, ap, start, i - 1, arg, s);
    } else {
      i := PutUnknown(b, fmt, ap, start, i - 1, arg, s);
      next := s.arg;
    }
  }

  method Vprintfmt(b: Sprintbuf, fmt: cstring, ap: Args)
    requires b.Valid() && Defined(fmt, ap, 0, 0)
    modifies b, b.buf
    ensures b.Valid() && b.emitted == old(b.emitted) + Format(fmt, ap, 0, 0)
    decreases if MayPrintError(fmt) then 1 else 0, 4
  {
    var i, arg := 0, 0;
    while true
      invariant 0 <= i <= |fmt| && 0 <= arg && b.Valid() && Defined(fmt, ap, i, arg)
      invariant b.emitted + Format(fmt, ap, i, arg) == old(b.emitted) + Format(fmt, ap, 0, 0)
      decreases |fmt| - i
    {
      var done;
      i, done := PutLiteral(b, fmt, ap, i, arg);
      if done {
        return;
      }
      i, arg := PutEscape(b, fmt, ap, i, arg);
    }
  }

  // The buffer receives as much of the text as fits, then a NUL; the rest of it is not touched; the
  // result is the length of the whole text.
  method Vsnprintf(buf: array?<char>, n: int, fmt: cstring, ap: Args) returns (rc: int)
    requires buf != null ==> n <= buf.Length
    requires Defined(fmt, ap, 0, 0)
    modifies if buf != null then {buf} else {}
    ensures buf == null || n < 1 ==> rc == -3 && (buf != null ==> buf[..] == old(buf[..]))
    ensures buf != null && n >= 1 ==>
      var text := Format(fmt, ap, 0, 0);
      var kept := if |text| < n then |text| else n - 1;
      && rc == |text|
      && buf[..kept] == text[..kept]
      && buf[kept] == '\0'
      && buf[kept + 1..] == old(buf[kept + 1..])
  {
    if buf == null || n < 1 {
      return -E_INVAL;
    }
    var b := new Sprintbuf(buf, n);
    Vprintfmt(b, fmt, ap);
    assert b.emitted == Format(fmt, ap, 0, 0);
    ghost var k := b.next;
    assert buf[..k] == b.emitted[..k] && buf[k + 1..] == old(buf[k + 1..]);
    buf[b.next] := '\0';
    return b.cnt;
  }

  // ------------------------------------------------------------------
  // Formats in sequence
  // ------------------------------------------------------------------

  // No escape of the format, from position i on, is cut short by its end.
  predicate Closed(fmt: cstring, ap: Args, i: nat, arg: nat)
    requires i <= |fmt|
    decreases |fmt| - i
  {
    if i == |fmt| then true
    else if fmt[i] != '%' then Closed(fmt, ap, i + 1, arg)
    else
      var (_, j, next) := Escape(fmt, ap, i, arg);
      ScanFlags(fmt, ap, i + 1, NoFlags(arg)).1 < |fmt| && Closed(fmt, ap, j, next)
  }

  // The next argument once the format has been printed.
  function ArgAfter(fmt: cstring, ap: Args, i: nat, arg: nat): nat
    requires i <= |fmt|
    decreases |fmt| - i
  {
    if i == |fmt| then arg
    else if fmt[i] != '%' then ArgAfter(fmt, ap, i + 1, arg)
    else
      var (_, j, next) := Escape(fmt, ap, i, arg);
      ArgAfter(fmt, ap, j, next)
  }

  // A character that ends the flags of an escape.
  predicate EndsFlags(ch: char) {
    !IsFlag(ch) && !IsDecimal(ch)
  }

  lemma {:induction false} NumberStable(f: cstring, g: cstring, i: nat, n: nat)
    requires i <= |f| && (ScanNumber(f, i, n).1 < |f| || EndsFlags(At(g, 0)))
    ensures ScanNumber(f + g, i, n) == ScanNumber(f, i, n)
    decreases |f| - i
  {
    assert At(f + g, i) == if i < |f| then f[i] else At(g, 0);
    if !IsDecimal(At(f, i)) {
    } else {
      NumberStable(f, g, i + 1, n * 10 + DecimalOf(f[i]));
    }
  }

  lemma {:induction false} FlagsStable(f: cstring, g: cstring, ap: Args, i: nat, s: Spec)
    requires i <= |f| && (ScanFlags(f, ap, i, s).1 < |f| || EndsFlags(At(g, 0)))
    ensures ScanFlags(f + g, ap, i, s) == ScanFlags(f, ap, i, s)
    decreases |f| - i
  {
    var ch := At(f, i);
    assert At(f + g, i) == if i < |f| then ch else At(g, 0);
    if IsFlag(ch) {
      FlagsStable(f, g, ap, i + 1, WithFlag(ap, s, ch));
    } else if IsDecimal(ch) {
      var (n, j) := ScanNumber(f, i + 1, DecimalOf(ch));
      NumberStable(f, g, i + 1, DecimalOf(ch));
      FlagsStable(f, g, ap, j, WithNumber(s, n));
    }
  }

  lemma EscapeStable(f: cstring, g: cstring, ap: Args, i: nat, arg: nat)
    requires i < |f| && ScanFlags(f, ap, i + 1, NoFlags(arg)).1 < |f|
    ensures Escape(f + g, ap, i, arg) == Escape(f, ap, i, arg)
  {
    FlagsStable(f, g, ap, i + 1, NoFlags(arg));
    var k := ScanFlags(f, ap, i + 1, NoFlags(arg)).1;
    assert (f + g)[i..k] == f[i..k];
  }

  // Position d + k of 'whole' is position k of g.
  ghost predicate EndsWith(whole: cstring, d: nat, g: cstring) {
    |whole| == d + |g| && forall k :: 0 <= k < |g| ==> whole[d + k] == g[k]
  }

  lemma {:induction false} NumberShifts(whole: cstring, d: nat, g: cstring, k: nat, n: nat)
    requires k <= |g| && EndsWith(whole, d, g)
    ensures ScanNumber(whole, d + k, n) == (ScanNumber(g, k, n).0, d + ScanNumber(g, k, n).1)
    decreases |g| - k
  {
    if !IsDecimal(At(g, k)) {
    } else {
      NumberShifts(whole, d, g, k + 1, n * 10 + DecimalOf(g[k]));
    }
  }

  lemma {:induction false} FlagsShift(whole: cstring, d: nat, g: cstring, ap: Args, k: nat, i: nat, s: Spec)
    requires k <= |g| && EndsWith(whole, d, g) && i == d + k
    ensures ScanFlags(whole, ap, i, s).0 == ScanFlags(g, ap, k, s).0
    ensures ScanFlags(whole, ap, i, s).1 == d + ScanFlags(g, ap, k, s).1
    decreases |g| - k
  {
    var ch := At(g, k);
    assert At(whole, i) == ch;
    if IsFlag(ch) {
      FlagsShift(whole, d, g, ap, k + 1, i + 1, WithFlag(ap, s, ch));
    } else if IsDecimal(ch) {
      var (n, j) := ScanNumber(g, k + 1, DecimalOf(ch));
      NumberShifts(whole, d, g, k + 1, DecimalOf(ch));
      FlagsShift(whole, d, g, ap, j, ScanNumber(whole, i + 1, DecimalOf(ch)).1, WithNumber(s, n));
    }
  }

  lemma EscapeShifts(whole: cstring, d: nat, g: cstring, ap: Args, k: nat, i: nat, arg: nat)
    requires k < |g| && EndsWith(whole, d, g) && i == d + k
    ensures Escape(whole, ap, i, arg).0 == Escape(g, ap, k, arg).0
    ensures Escape(whole, ap, i, arg).1 == d + Escape(g, ap, k, arg).1
    ensures Escape(whole, ap, i, arg).2 == Escape(g, ap, k, arg).2
  {
    FlagsShift(whole, d, g, ap, k + 1, i + 1, NoFlags(arg));
    var j, j' := ScanFlags(g, ap, k + 1, NoFlags(arg)).1, ScanFlags(whole, ap, i + 1, NoFlags(arg)).1;
    assert At(whole, j') == At(g, j);
    assert whole[i..j'] == g[k..j];
  }

  lemma {:induction false} FormatShifts(whole: cstring, d: nat, g: cstring, ap: Args, k: nat, i: nat, arg: nat)
    requires k <= |g| && EndsWith(whole, d, g) && i == d + k
    ensures Format(whole, ap, i, arg) == Format(g, ap, k, arg)
    decreases |g| - k
  {
    if k >= |g| {
    } else {
      if g[k] != '%' {
        FormatShifts(whole, d, g, ap, k + 1, i + 1, arg);
      } else {
        EscapeShifts(whole, d, g, ap, k, i, arg);
        FormatShifts(whole, d, g, ap, Escape(g, ap, k, arg).1, Escape(whole, ap, i, arg).1, Escape(g, ap, k, arg).2);
      }
    }
  }

  lemma {:induction false} FormatFrom(f: cstring, g: cstring, ap: Args, i: nat, arg: nat)
    requires i <= |f| && Closed(f, ap, i, arg)
    ensures Format(f + g, ap, i, arg) == Format(f, ap, i, arg) + Format(g, ap, 0, ArgAfter(f, ap, i, arg))
    decreases |f| - i
  {
    var rest := Format(g, ap, 0, ArgAfter(f, ap, i, arg));
    if i == |f| {
      FormatShifts(f + g, |f|, g, ap, 0, |f|, arg);
    } else if f[i] != '%' {
      FormatFrom(f, g, ap, i + 1, arg);
      Assoc([f[i]], Format(f, ap, i + 1, arg), rest);
    } else {
      EscapeStable(f, g, ap, i, arg);
      var (text, j, next) := Escape(f, ap, i, arg);
      FormatFrom(f, g, ap, j, next);
      Assoc(text, Format(f, ap, j, next), rest);
    }
  }

  // An escape that the end of the format cuts short is completed by a '%', which is all it prints then.
  lemma PercentEnds(f: cstring, ap: Args, i: nat, arg: nat)
    requires i < |f| && ScanFlags(f, ap, i + 1, NoFlags(arg)).1 == |f|
    ensures Escape(f + "%", ap, i, arg).0 == "%" && Escape(f + "%", ap, i, arg).1 == |f| + 1
    ensures Escape(f, ap, i, arg).0 == f[i..]
  {
    FlagsStable(f, "%", ap, i + 1, NoFlags(arg));
    assert f[i..] == f[i..|f|];
  }

  lemma {:induction false} PercentCompletes(f: cstring, ap: Args, i: nat, arg: nat)
    requires i <= |f| && !Closed(f, ap, i, arg)
    ensures |Format(f + "%", ap, i, arg)| <= |Format(f, ap, i, arg)|
    decreases |f| - i
  {
    if f[i] != '%' {
      PercentCompletes(f, ap, i + 1, arg);
    } else if ScanFlags(f, ap, i + 1, NoFlags(arg)).1 == |f| {
      PercentEnds(f, ap, i, arg);
    } else {
      EscapeStable(f, "%", ap, i, arg);
      var (_, j, next) := Escape(f, ap, i, arg);
      PercentCompletes(f, ap, j, next);
    }
  }

  // The text of f followed by g is the text of f, and then that of g for the arguments that f leaves.
  ghost predicate Joins(f: cstring, g: cstring, ap: Args) {
    Format(f + g, ap, 0, 0) == Format(f, ap, 0, 0) + Format(g, ap, 0, ArgAfter(f, ap, 0, 0))
  }

  // A format can be extended freely exactly when it does not end inside an escape.
  lemma JoinsIff(f: cstring, ap: Args)
    ensures (forall g: cstring :: Joins(f, g, ap)) <==> Closed(f, ap, 0, 0)
  {
    if Closed(f, ap, 0, 0) {
      forall g: cstring ensures Joins(f, g, ap) {
        FormatFrom(f, g, ap, 0, 0);
      }
    } else {
      PercentCompletes(f, ap, 0, 0);
      PercentAlone(ap, ArgAfter(f, ap, 0, 0));
      assert !Joins(f, "%", ap);
    }
  }

  lemma PercentAlone(ap: Args, arg: nat)
    ensures Format("%", ap, 0, arg) == "%"
  {
    var fmt: cstring := "%";
    assert ScanFlags(fmt, ap, 1, NoFlags(arg)) == (NoFlags(arg), 1);
    assert Escape(fmt, ap, 0, arg) == (fmt[0..1], 1, arg);
  }

  // ------------------------------------------------------------------
  // Quoting
  // ------------------------------------------------------------------

  // A string with every '%' doubled.
  function Quote(s: cstring): (q: cstring) {
    if s == "" then ""
    else (if s[0] == '%' then "%%" else [s[0]]) + Quote(s[1..])
  }

  // Quoting protects any string from interpretation, whatever the arguments.
  lemma {:induction false} QuotedPrintsItself(s: cstring, ap: Args, arg: nat)
    ensures Format(Quote(s), ap, 0, arg) == s
    decreases |s|
  {
    if s == "" {
    } else {
      var fmt, rest := Quote(s), Quote(s[1..]);
      QuotedPrintsItself(s[1..], ap, arg);
      if s[0] == '%' {
        assert ScanFlags(fmt, ap, 1, NoFlags(arg)) == (NoFlags(arg), 1);
        assert Escape(fmt, ap, 0, arg) == ("%", 2, arg);
        FormatShifts(fmt, 2, rest, ap, 0, 2, arg);
      } else {
        FormatShifts(fmt, 1, rest, ap, 0, 1, arg);
      }
    }
  }

  // ------------------------------------------------------------------
  // Precisions
  // ------------------------------------------------------------------

  predicate AllZeros(digits: string) {
    forall k :: 0 <= k < |digits| ==> digits[k] == '0'
  }

  // Positions i to j of the format are decimal digits, and no other follows them.
  predicate IsDigits(fmt: cstring, i: nat, j: nat) {
    && i <= j <= |fmt|
    && (forall k :: i <= k < j ==> IsDecimal(fmt[k]))
    && !IsDecimal(At(fmt, j))
  }

  // What follows them ends the escape.
  predicate IsPrecision(fmt: cstring, i: nat, j: nat) {
    IsDigits(fmt, i, j) && EndsFlags(At(fmt, j))
  }

  // The number that decimal digits denote.
  function Decimal(digits: string): (n: nat)
    requires Strtol.AllDigits(digits, 10)
    ensures n == Strtol.Value(digits, 10)
  {
    if digits == "" then 0
    else
      var last := |digits| - 1;
      assert Strtol.IsDigit(digits[last], 10);
      10 * Decimal(digits[..last]) + Strtol.DigitOf(digits[last])
  }

  lemma {:induction false} NumberValue(fmt: cstring, i: nat, k: nat, j: nat)
    requires IsDigits(fmt, i, j) && i <= k <= j
    ensures Strtol.AllDigits(fmt[i..k], 10) && Strtol.AllDigits(fmt[i..j], 10)
    ensures ScanNumber(fmt, k, Decimal(fmt[i..k])) == (Decimal(fmt[i..j]), j)
    decreases j - k
  {
    if k == j {
    } else {
      NumberValue(fmt, i, k + 1, j);
      DecimalNext(fmt, i, k);
    }
  }

  lemma DecimalNext(fmt: cstring, i: nat, k: nat)
    requires i <= k < |fmt| && forall m :: i <= m <= k ==> IsDecimal(fmt[m])
    ensures Strtol.AllDigits(fmt[i..k], 10) && Strtol.AllDigits(fmt[i..k + 1], 10)
    ensures Decimal(fmt[i..k + 1]) == Decimal(fmt[i..k]) * 10 + DecimalOf(fmt[k])
  {
    assert fmt[i..k + 1][..k - i] == fmt[i..k];
  }

  lemma {:induction false} ZerosScanned(fmt: cstring, ap: Args, i: nat, z: nat, s: Spec)
    requires i <= z <= |fmt| && forall k :: i <= k < z ==> fmt[k] == '0'
    ensures ScanFlags(fmt, ap, i, s) == ScanFlags(fmt, ap, z, if i < z then s.(padc := '0') else s)
    decreases z - i
  {
    if i == z {
    } else {
      ZerosScanned(fmt, ap, i + 1, z, s.(padc := '0'));
    }
  }

  function SkipZeros(fmt: cstring, i: nat): (z: nat)
    requires i <= |fmt|
    ensures i <= z <= |fmt| && At(fmt, z) != '0'
    ensures forall k :: i <= k < z ==> fmt[k] == '0'
    decreases |fmt| - i
  {
    if At(fmt, i) == '0' then SkipZeros(fmt, i + 1) else i
  }

  lemma ZerosAddNothing(fmt: cstring, i: nat, z: nat, j: nat)
    requires IsPrecision(fmt, i, j) && i <= z <= j && forall k :: i <= k < z ==> fmt[k] == '0'
    ensures Strtol.AllDigits(fmt[z..j], 10) && Strtol.AllDigits(fmt[i..j], 10)
    ensures Decimal(fmt[z..j]) == Decimal(fmt[i..j])
  {
    Strtol.LeadingZeros(z - i, fmt[z..j], 10);
    assert fmt[i..j] == Padding('0', z - i) + fmt[z..j];
  }

  // Digits that do not start with a 0 are the width, and the precision once there is a width.
  lemma NumberRead(fmt: cstring, ap: Args, i: nat, j: nat, s: Spec)
    requires IsDigits(fmt, i, j) && i < j && fmt[i] != '0'
    ensures Strtol.AllDigits(fmt[i..j], 10)
    ensures s.width < 0 ==>
      ScanFlags(fmt, ap, i, s) == ScanFlags(fmt, ap, j, s.(width := Decimal(fmt[i..j]), precision := -1))
    ensures s.width >= 0 ==>
      ScanFlags(fmt, ap, i, s) == ScanFlags(fmt, ap, j, s.(precision := Decimal(fmt[i..j])))
  {
    NumberValue(fmt, i, i + 1, j);
    assert fmt[i..i + 1] == [fmt[i]] && [fmt[i]][..0] == "";
    assert Decimal([fmt[i]]) == DecimalOf(fmt[i]);
  }

  // What each flag sets; a '*' stands for a number that is taken from the arguments.
  lemma FlagRead(fmt: cstring, ap: Args, i: nat, s: Spec)
    requires i < |fmt|
    ensures fmt[i] == '-' ==> ScanFlags(fmt, ap, i, s) == ScanFlags(fmt, ap, i + 1, s.(padc := '-'))
    ensures fmt[i] == '0' ==> ScanFlags(fmt, ap, i, s) == ScanFlags(fmt, ap, i + 1, s.(padc := '0'))
    ensures fmt[i] == '#' ==> ScanFlags(fmt, ap, i, s) == ScanFlags(fmt, ap, i + 1, s.(alt := true))
    ensures fmt[i] == 'l' ==> ScanFlags(fmt, ap, i, s) == ScanFlags(fmt, ap, i + 1, s.(lflag := s.lflag + 1))
    ensures fmt[i] == '.' ==>
      ScanFlags(fmt, ap, i, s) == ScanFlags(fmt, ap, i + 1, s.(width := if s.width < 0 then 0 else s.width))
    ensures fmt[i] == '*' && s.width < 0 ==>
      ScanFlags(fmt, ap, i, s)
      == ScanFlags(fmt, ap, i + 1, s.(width := ToInt(ap.stack(s.arg)), precision := -1, arg := s.arg + 1))
    ensures fmt[i] == '*' && s.width >= 0 ==>
      ScanFlags(fmt, ap, i, s)
      == ScanFlags(fmt, ap, i + 1, s.(precision := ToInt(ap.stack(s.arg)), arg := s.arg + 1))
  {
  }

  lemma PlainScanned(fmt: cstring, ap: Args, i: nat, s: Spec)
    requires i <= |fmt| && EndsFlags(At(fmt, i))
    ensures ScanFlags(fmt, ap, i, s) == (s, i)
  {
  }
  // Digits after a '.' that do not start with a 0 are the precision.
  lemma DigitsScanned(fmt: cstring, ap: Args, z: nat, j: nat, s: Spec)
    requires IsPrecision(fmt, z, j) && z < j && fmt[z] != '0' && s.width >= 0
    ensures Strtol.AllDigits(fmt[z..j], 10)
    ensures ScanFlags(fmt, ap, z, s) == (s.(precision := Decimal(fmt[z..j])), j)
  {
    NumberRead(fmt, ap, z, j, s);
    PlainScanned(fmt, ap, j, s.(precision := Decimal(fmt[z..j])));
  }

  // The flags once a '.', and some zeros, have been read.
  function Dotted(s: Spec, zeros: bool): Spec {
    var dot := if s.width < 0 then s.(width := 0) else s;
    if zeros then dot.(padc := '0') else dot
  }

  lemma DotScanned(fmt: cstring, ap: Args, i: nat, z: nat, s: Spec)
    requires i < z <= |fmt| && fmt[i] == '.' && forall k :: i < k < z ==> fmt[k] == '0'
    ensures ScanFlags(fmt, ap, i, s) == ScanFlags(fmt, ap, z, Dotted(s, i + 1 < z))
  {
    ZerosScanned(fmt, ap, i + 1, z, Dotted(s, false));
  }

  // Zeros up to z and then other digits are a precision.
  lemma SomePrecision(fmt: cstring, ap: Args, i: nat, z: nat, j: nat, s: Spec)
    requires i < z < j && IsPrecision(fmt, z, j) && fmt[i] == '.' && fmt[z] != '0'
    requires forall k :: i < k < z ==> fmt[k] == '0'
    ensures Strtol.AllDigits(fmt[z..j], 10)
    ensures ScanFlags(fmt, ap, i, s) == (Dotted(s, i + 1 < z).(precision := Decimal(fmt[z..j])), j)
  {
    DotScanned(fmt, ap, i, z, s);
    DigitsScanned(fmt, ap, z, j, Dotted(s, i + 1 < z));
  }

  lemma NoPrecision(fmt: cstring, ap: Args, i: nat, j: nat, s: Spec)
    requires i < j <= |fmt| && fmt[i] == '.' && EndsFlags(At(fmt, j))
    requires forall k :: i < k < j ==> fmt[k] == '0'
    ensures ScanFlags(fmt, ap, i, s) == (Dotted(s, i + 1 < j), j)
  {
    DotScanned(fmt, ap, i, j, s);
    PlainScanned(fmt, ap, j, Dotted(s, i + 1 < j));
  }

  // The digits after a '.' are the precision if and only if they are not all zeros: leading zeros are taken for
  // the flag that pads with zeros, and if nothing else comes there is no precision.
  lemma PrecisionIff(fmt: cstring, ap: Args, i: nat, j: nat, s: Spec)
    requires i < |fmt| && fmt[i] == '.' && IsPrecision(fmt, i + 1, j) && s.precision < 0
    ensures Strtol.AllDigits(fmt[i + 1..j], 10) && ScanFlags(fmt, ap, i, s).1 == j
    ensures var precision := ScanFlags(fmt, ap, i, s).0.precision;
      && (precision == Decimal(fmt[i + 1..j]) <==> !AllZeros(fmt[i + 1..j]))
      && (AllZeros(fmt[i + 1..j]) ==> precision == s.precision)
  {
    var z, digits := SkipZeros(fmt, i + 1), fmt[i + 1..j];
    ZerosAddNothing(fmt, i + 1, z, j);
    if z < j {
      SomePrecision(fmt, ap, i, z, j, s);
      assert digits[z - (i + 1)] == fmt[z];
      assert !AllZeros(digits);
      assert ScanFlags(fmt, ap, i, s).0.precision == Decimal(digits);
    } else {
      NoPrecision(fmt, ap, i, j, s);
      assert Dotted(s, i + 1 < j).precision == s.precision;
      forall k | 0 <= k < |digits| ensures digits[k] == '0' {
        assert digits[k] == fmt[i + 1 + k];
      }
    }
  }

  // So "%.0s" prints all of its string, and not none of it.
  lemma ZeroPrecisionIgnored(ap: Args)
    ensures Format("%.0s", ap, 0, 0) == StringArg(ap, 0)
  {
    var fmt: cstring, arg := "%.0s", StringArg(ap, 0);
    var s := NoFlags(0).(padc := '0', width := 0);
    NoPrecision(fmt, ap, 1, 3, NoFlags(0));
    assert StringText(arg, s) == arg by {
      assert arg[..|arg|] == arg;
      assert Clean(arg, false) == arg;
    }
    assert Escape(fmt, ap, 0, 0) == (arg, 4, 1);
    assert Format(fmt, ap, 4, 1) == "";
  }

  // ------------------------------------------------------------------
  // Widths, and reading back
  // ------------------------------------------------------------------

  function Max(x: int, y: int): int {
    if x > y then x else y
  }

  // The width counts the digits or the characters shown, and never the sign or the 0x.
  lemma WidthLaw(ap: Args, s: Spec, ch: char)
    requires IsConversion(ch)
    ensures var text := Convert(ap, s, ch).0;
      && (ch == 's' ==> |text| == Max(s.width, Shown(StringArg(ap, s.arg), s.precision)))
      && (ch == 'd' ==> var v := GetInt(ap, s.arg, s.lflag).0;
            |text| == if v < 0 then 1 + Max(s.width, |Numeral(-v, 10)|) else Max(s.width, |Numeral(v, 10)|))
      && (ch == 'p' ==> |text| == 2 + Max(s.width, |Numeral(ap.stack(s.arg), 16)|))
      && (ch == 'u' ==> |text| == Max(s.width, |Numeral(GetUint(ap, s.arg, s.lflag).0, 10)|))
      && (ch == 'o' ==> |text| == Max(s.width, |Numeral(GetUint(ap, s.arg, s.lflag).0, 8)|))
      && (ch == 'x' ==> |text| == Max(s.width, |Numeral(GetUint(ap, s.arg, s.lflag).0, 16)|))
  {
  }

  // Nothing but zeros is printed between the sign of v, if it has one, and its digits.
  predicate SignSurvives(v: int, width: int, padc: padchar) {
    if v < 0 then padc == '0' || width <= |Numeral(-v, 10)|
    else padc == '-' ==> width <= |Numeral(v, 10)| + if v == 0 then 1 else 0
  }

  lemma SignedTextReadsBack(v: int, width: int, padc: padchar, rest: string)
    requires Strtol.Stops(rest, 10)
    ensures Strtol.ReadBack(SignedText(v, width, padc), rest, 10, v) <==> SignSurvives(v, width, padc)
  {
    if v >= 0 {
      Strtol.UndoesPrintnum(v, 10, width, padc, rest);
    } else {
      Strtol.UndoesNegative(-v, width, padc, rest);
    }
  }

  // strtol reads back what a conversion printed, whatever comes after it that does not continue the
  // number.  A %d is lost exactly when blanks or minus signs come between its sign and its digits, or minus
  // signs before a number that has none (though one minus sign does no harm to a 0).
  lemma SignedReadsBack(ap: Args, s: Spec, rest: string)
    requires Strtol.Stops(rest, 10)
    ensures var v := GetInt(ap, s.arg, s.lflag).0;
      Strtol.ReadBack(Convert(ap, s, 'd').0, rest, 10, v) <==> SignSurvives(v, s.width, s.padc)
  {
    var v := GetInt(ap, s.arg, s.lflag).0;
    assert Convert(ap, s, 'd').0 == SignedText(v, s.width, s.padc);
    SignedTextReadsBack(v, s.width, s.padc, rest);
  }

  lemma UnsignedReadsBack(ap: Args, s: Spec, ch: char, base: nat, rest: string)
    requires (ch == 'u' && base == 10) || (ch == 'o' && base == 8) || (ch == 'x' && base == 16)
    requires Strtol.Stops(rest, base)
    ensures var v := GetUint(ap, s.arg, s.lflag).0;
      Strtol.ReadBack(Convert(ap, s, ch).0, rest, base, v)
      <==> && (s.padc == '-' ==> s.width <= |Numeral(v, base)| + if v == 0 then 1 else 0)
           && !(ch == 'x' && v == 0 && (s.padc != '0' || s.width <= 1) && At(rest, 0) == 'x')
  {
    var v := GetUint(ap, s.arg, s.lflag).0;
    assert Convert(ap, s, ch).0 == NumText(v, base, s.width, s.padc);
    Strtol.UndoesPrintnum(v, base, s.width, s.padc, rest);
  }

  lemma PointerReadsBack(ap: Args, s: Spec, rest: string)
    requires Strtol.Stops(rest, 16)
    ensures Strtol.ReadBack(Convert(ap, s, 'p').0, rest, 0, ap.stack(s.arg))
       <==> s.padc == '0' || s.width <= |Numeral(ap.stack(s.arg), 16)|
  {
    assert Convert(ap, s, 'p').0 == "0x" + NumText(ap.stack(s.arg), 16, s.width, s.padc);
    Strtol.UndoesPointer(ap.stack(s.arg), s.width, s.padc, rest, 0);
  }
}
