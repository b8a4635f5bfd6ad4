// The console input ring and the keyboard's modifier state (kern/console.c).
module ConsoleInput {
  import opened Machine

  const CONSBUFSIZE := 512

  // ------------------------------------------------------------------
  // The ring as a queue
  // ------------------------------------------------------------------

  // One byte from a device.  NUL is dropped, and a 512th unread byte makes the ring look empty.
  function Push(q: seq<uint8>, c: uint8): (r: seq<uint8>)
    requires |q| < CONSBUFSIZE
    ensures |r| < CONSBUFSIZE
  {
    if c == 0 then q else if |q| == CONSBUFSIZE - 1 then [] else q + [c]
  }

  function PushAll(q: seq<uint8>, batch: seq<uint8>): (r: seq<uint8>)
    requires |q| < CONSBUFSIZE
    ensures |r| < CONSBUFSIZE
    decreases |batch|
  {
    if batch == [] then q else PushAll(Push(q, batch[0]), batch[1..])
  }

  class Cons {
    const buf: array<uint8>
    var rpos: nat
    var wpos: nat

    ghost predicate Valid()
      reads this
    {
      buf.Length == CONSBUFSIZE && rpos < CONSBUFSIZE && wpos < CONSBUFSIZE
    }

    // The unread bytes, oldest first.
    ghost function Unread(): (q: seq<uint8>)
      requires Valid()
      reads this, buf
      ensures |q| < CONSBUFSIZE
    {
      if rpos <= wpos then buf[rpos..wpos] else buf[rpos..] + buf[..wpos]
    }

    constructor ()
      ensures Valid() && Unread() == []
    {
      buf := new uint8[CONSBUFSIZE](_ => 0);
      rpos, wpos := 0, 0;
    }

    // cons_intr: the device procedure yields the bytes of 'batch' and then -1.
    method Intr(batch: seq<uint8>)
      requires Valid()
      modifies this, buf
      ensures Valid() && Unread() == PushAll(old(Unread()), batch)
    {
      var i := 0;
      while i < |batch|
        invariant i <= |batch| && Valid()
        invariant PushAll(Unread(), batch[i..]) == PushAll(old(Unread()), batch)
      {
        var c := batch[i];
        assert batch[i..][1..] == batch[i + 1..];
        i := i + 1;
        if c == 0 {
          continue;
        }
        Put(c);
      }
    }

    method Put(c: uint8)
      requires Valid() && c != 0
      modifies this, buf
      ensures Valid() && Unread() == Push(old(Unread()), c)
    {
      buf[wpos] := c;
      wpos := wpos + 1;
      if wpos == CONSBUFSIZE {
        wpos := 0;
      }
    }

    // cons_getc: polls the serial port and the keyboard, then takes the oldest byte; 0 if there is none.
    method Getc(serial: seq<uint8>, keyboard: seq<uint8>) returns (c: uint8)
      requires Valid()
      modifies this, buf
      ensures Valid()
      ensures var q := PushAll(PushAll(old(Unread()), serial), keyboard);
        if q == [] then c == 0 && Unread() == [] else c == q[0] && Unread() == q[1..]
    {
      Intr(serial);
      Intr(keyboard);
      c := Take();
    }

    method Take() returns (c: uint8)
      requires Valid()
      modifies this
      ensures Valid()
      ensures var q := old(Unread()); if q == [] then c == 0 && Unread() == [] else c == q[0] && Unread() == q[1..]
    {
      if rpos != wpos {
        c := buf[rpos];
        rpos := rpos + 1;
        if rpos == CONSBUFSIZE {
          rpos := 0;
        }
      } else {
        c := 0;
      }
    }
  }

  // ------------------------------------------------------------------
  // Whole runs: any interleaving of arriving bytes and reads
  // ------------------------------------------------------------------

  datatype Op = In(c: uint8) | Out

  datatype State = State(queue: seq<uint8>, delivered: seq<uint8>)

  function Run(ops: seq<Op>): (s: State)
    ensures |s.queue| < CONSBUFSIZE
  {
    if ops == [] then State([], [])
    else
      var s := Run(ops[..|ops| - 1]);
      match ops[|ops| - 1]
      case In(c) => State(Push(s.queue, c), s.delivered)
      case Out => if s.queue == [] then s else State(s.queue[1..], s.delivered + [s.queue[0]])
  }

  // The calls of cons_intr and cons_getc as runs.
  function Arrivals(batch: seq<uint8>): (ops: seq<Op>)
    ensures |ops| == |batch| && forall i :: 0 <= i < |ops| ==> ops[i] == In(batch[i])
  {
    seq(|batch|, i requires 0 <= i < |batch| => In(batch[i]))
  }

  lemma {:induction false} IntrIsRun(ops: seq<Op>, batch: seq<uint8>)
    ensures Run(ops + Arrivals(batch)) == State(PushAll(Run(ops).queue, batch), Run(ops).delivered)
    decreases |batch|
  {
    if batch == [] {
      assert ops + Arrivals(batch) == ops;
    } else {
      var next := ops + [In(batch[0])];
      assert next[..|ops|] == ops;
      IntrIsRun(next, batch[1..]);
      assert ops + Arrivals(batch) == next + Arrivals(batch[1..]);
    }
  }

  lemma GetcIsRun(ops: seq<Op>, serial: seq<uint8>, keyboard: seq<uint8>)
    ensures var q := PushAll(PushAll(Run(ops).queue, serial), keyboard);
      Run(ops + Arrivals(serial) + Arrivals(keyboard) + [Out])
      == State(if q == [] then [] else q[1..], Run(ops).delivered + if q == [] then [] else [q[0]])
  {
    var before := ops + Arrivals(serial) + Arrivals(keyboard);
    IntrIsRun(ops, serial);
    IntrIsRun(ops + Arrivals(serial), keyboard);
    assert (before + [Out])[..|before|] == before;
  }

  // The bytes that were offered, without the NULs.
  function Arrived(ops: seq<Op>): seq<uint8> {
    if ops == [] then []
    else
      var a := Arrived(ops[..|ops| - 1]);
      match ops[|ops| - 1]
      case In(c) => if c == 0 then a else a + [c]
      case Out => a
  }

  // How many times a 512th unread byte arrived.
  function Overflows(ops: seq<Op>): nat {
    if ops == [] then 0
    else
      var last := ops[|ops| - 1];
      Overflows(ops[..|ops| - 1])
      + if last.In? && last.c != 0 && |Run(ops[..|ops| - 1]).queue| == 511 then 1 else 0
  }

  // Where in Arrived each delivered byte comes from, and where the queue begins.
  datatype Origin = Origin(taken: seq<nat>, next: nat)

  function Trace(ops: seq<Op>): Origin {
    if ops == [] then Origin([], 0)
    else
      var before := ops[..|ops| - 1];
      var t := Trace(before);
      match ops[|ops| - 1]
      case In(c) =>
        if c != 0 && |Run(before).queue| == CONSBUFSIZE - 1 then t.(next := |Arrived(ops)|) else t
      case Out => if Run(before).queue == [] then t else Origin(t.taken + [t.next], t.next + 1)
  }

  // The bytes come out in the order in which they arrived: the queue is the end of what arrived, and a
  // byte is missing only in a block of 512 that an overflow discarded.
  lemma {:induction false} OrderKept(ops: seq<Op>)
    ensures var (s, a, t) := (Run(ops), Arrived(ops), Trace(ops));
      && t.next <= |a| && s.queue == a[t.next..]
      && |t.taken| == |s.delivered|
      && (forall k :: 0 <= k < |t.taken| ==> t.taken[k] < t.next && s.delivered[k] == a[t.taken[k]])
      && (forall j, k :: 0 <= j < k < |t.taken| ==> t.taken[j] < t.taken[k])
      && |a| == |s.delivered| + |s.queue| + 512 * Overflows(ops)
  {
    if ops == [] {
    } else {
      OrderKept(ops[..|ops| - 1]);
    }
  }

  // Between two delivered bytes, a multiple of 512 was discarded.
  lemma {:induction false} WholeRingsLost(ops: seq<Op>)
    ensures var t := Trace(ops); forall k :: 0 <= k < |t.taken| ==> (t.taken[k] - k) % 512 == 0
  {
    if ops == [] {
    } else {
      var before := ops[..|ops| - 1];
      WholeRingsLost(before);
      OrderKept(before);
      assert Trace(before).next - |Trace(before).taken| == 512 * Overflows(before);
    }
  }

  // Everything that arrived is delivered or still queued, in order, exactly when the ring never overflowed.
  lemma {:induction false} ExactIff(ops: seq<Op>)
    ensures Run(ops).delivered + Run(ops).queue == Arrived(ops) <==> Overflows(ops) == 0
  {
    OrderKept(ops);
    if Overflows(ops) == 0 {
      NothingDropped(ops);
    }
  }

  lemma {:induction false} NothingDropped(ops: seq<Op>)
    requires Overflows(ops) == 0
    ensures Run(ops).delivered + Run(ops).queue == Arrived(ops)
  {
    if ops == [] {
    } else {
      NothingDropped(ops[..|ops| - 1]);
    }
  }

  // ------------------------------------------------------------------
  // The keyboard's modifier state
  // ------------------------------------------------------------------

  const SHIFT: bv8 := 0x01
  const CTL: bv8 := 0x02
  const ALT: bv8 := 0x04
  const CAPSLOCK: bv8 := 0x08
  const NUMLOCK: bv8 := 0x10
  const SCROLLLOCK: bv8 := 0x20
  const E0ESC: bv8 := 0x40

  function Shiftcode(data: bv8): bv8 {
    if data == 0x1d || data == 0x9d then CTL
    else if data == 0x2a || data == 0x36 then SHIFT
    else if data == 0x38 || data == 0xb8 then ALT
    else 0
  }

  function Togglecode(data: bv8): bv8 {
    if data == 0x3a then CAPSLOCK else if data == 0x45 then NUMLOCK else if data == 0x46 then SCROLLLOCK else 0
  }

  // A key goes down.
  function Make(shift: bv8, data: bv8): bv8 {
    (shift | Shiftcode(data)) ^ Togglecode(data)
  }

  // One scan code.
  function Scan(shift: bv8, data: bv8): bv8 {
    if data == 0xe0 then
      shift | E0ESC
    else if data & 0x80 != 0 then
      var d := if shift & E0ESC != 0 then data else data & 0x7f;
      shift & !(Shiftcode(d) | E0ESC)
    else if shift & E0ESC != 0 then
      Make(shift & !E0ESC, data | 0x80)
    else
      Make(shift, data)
  }

  // The state after a history of scan codes.
  function ShiftAfter(h: seq<bv8>): bv8 {
    if h == [] then 0 else Scan(ShiftAfter(h[..|h| - 1]), h[|h| - 1])
  }

  // Code k of the history follows an 0xE0 prefix.
  predicate Escaped(h: seq<bv8>, k: int)
    requires 0 <= k < |h|
  {
    k > 0 && h[k - 1] == 0xe0
  }

  // A code that presses (or releases) a key with the given modifier.  The codes that a keyboard sends as
  // fake shifts, 2A and AA after a prefix, are neither.
  predicate PressCode(data: bv8, modifier: bv8, escaped: bool) {
    if modifier == SHIFT then (data == 0x2a || data == 0x36) && !escaped
    else if modifier == CTL then data == 0x1d
    else data == 0x38
  }

  predicate ReleaseCode(data: bv8, modifier: bv8, escaped: bool) {
    if modifier == SHIFT then (data == 0xaa || data == 0xb6) && !escaped
    else if modifier == CTL then data == 0x9d
    else data == 0xb8
  }

  predicate Presses(h: seq<bv8>, k: int, modifier: bv8)
    requires 0 <= k < |h|
  {
    PressCode(h[k], modifier, Escaped(h, k))
  }

  predicate Releases(h: seq<bv8>, k: int, modifier: bv8)
    requires 0 <= k < |h|
  {
    ReleaseCode(h[k], modifier, Escaped(h, k))
  }

  // The latest event for the modifier was a press.
  ghost predicate Held(h: seq<bv8>, modifier: bv8) {
    exists k :: 0 <= k < |h| && Presses(h, k, modifier) && forall j :: k < j < |h| ==> !Releases(h, j, modifier)
  }

  // How often a key has been pressed without a prefix.
  function Count(h: seq<bv8>, code: bv8): nat {
    if h == [] then 0
    else Count(h[..|h| - 1], code) + if h[|h| - 1] == code && !Escaped(h, |h| - 1) then 1 else 0
  }

  lemma {:induction false} EscapeState(h: seq<bv8>)
    ensures ShiftAfter(h) & E0ESC != 0 <==> h != [] && h[|h| - 1] == 0xe0
  {
    if h == [] {
    } else {
      EscapeState(h[..|h| - 1]);
    }
  }

  // What one scan code does to a modifier bit, and to a lock bit.
  lemma ScanModifier(shift: bv8, data: bv8, modifier: bv8, escaped: bool)
    requires modifier == SHIFT || modifier == CTL || modifier == ALT
    requires escaped <==> shift & E0ESC != 0
    ensures Scan(shift, data) & modifier != 0
       <==> PressCode(data, modifier, escaped) || (shift & modifier != 0 && !ReleaseCode(data, modifier, escaped))
  {
    if modifier == SHIFT {
    } else if modifier == CTL {
    } else {
    }
  }

  lemma ScanLock(shift: bv8, data: bv8, lock: bv8, code: bv8)
    requires IsLock(lock, code)
    ensures (Scan(shift, data) & lock != 0) <==> ((shift & lock != 0) != (data == code && shift & E0ESC == 0))
  {
  }

  lemma HeldStep(h: seq<bv8>, modifier: bv8)
    requires h != [] && (modifier == SHIFT || modifier == CTL || modifier == ALT)
    ensures var last := |h| - 1;
      Held(h, modifier) <==> Presses(h, last, modifier) || (Held(h[..last], modifier) && !Releases(h, last, modifier))
  {
    var last := |h| - 1;
    var before := h[..last];
    assert forall k :: 0 <= k < last ==> (Presses(h, k, modifier) <==> Presses(before, k, modifier));
    assert forall k :: 0 <= k < last ==> (Releases(h, k, modifier) <==> Releases(before, k, modifier));
    if Held(h, modifier) && !Presses(h, last, modifier) {
      var k :| 0 <= k < |h| && Presses(h, k, modifier) && forall j :: k < j < |h| ==> !Releases(h, j, modifier);
      assert Presses(before, k, modifier);
    }
    if Held(before, modifier) && !Releases(h, last, modifier) {
      var k :| 0 <= k < last && Presses(before, k, modifier)
            && forall j :: k < j < last ==> !Releases(before, j, modifier);
      assert Presses(h, k, modifier);
    }
  }

  // Over every history: shift, control and alt are set exactly while the latest event for them is a press.
  lemma {:induction false} ModifierState(h: seq<bv8>, modifier: bv8)
    requires modifier == SHIFT || modifier == CTL || modifier == ALT
    ensures ShiftAfter(h) & modifier != 0 <==> Held(h, modifier)
  {
    if h == [] {
    } else {
      var last := |h| - 1;
      ModifierState(h[..last], modifier);
      EscapeState(h[..last]);
      HeldStep(h, modifier);
      ScanModifier(ShiftAfter(h[..last]), h[last], modifier, Escaped(h, last));
    }
  }

  // The key has been pressed an odd number of times.
  predicate Odd(h: seq<bv8>, code: bv8) {
    Count(h, code) % 2 == 1
  }

  lemma OddStep(h: seq<bv8>, code: bv8)
    requires h != []
    ensures Odd(h, code) <==> Odd(h[..|h| - 1], code) != (h[|h| - 1] == code && !Escaped(h, |h| - 1))
  {
  }

  predicate IsLock(lock: bv8, code: bv8) {
    (lock == CAPSLOCK && code == 0x3a) || (lock == NUMLOCK && code == 0x45) || (lock == SCROLLLOCK && code == 0x46)
  }

  // A lock is set exactly after an odd number of unprefixed presses of its key.
  lemma {:induction false} LockState(h: seq<bv8>, lock: bv8, code: bv8)
    requires IsLock(lock, code)
    ensures ShiftAfter(h) & lock != 0 <==> Odd(h, code)
  {
    if h == [] {
    } else {
      var last := |h| - 1;
      LockState(h[..last], lock, code);
      EscapeState(h[..last]);
      OddStep(h, code);
      ScanLock(ShiftAfter(h[..last]), h[last], lock, code);
    }
  }

  // ------------------------------------------------------------------
  // kbd_proc_data
  // ------------------------------------------------------------------

  type Charcode = (bv8, bv8) -> uint8

  function SwapCase(c: uint8): uint8 {
    if 'a' as int <= c <= 'z' as int then c - 32 else if 'A' as int <= c <= 'Z' as int then c + 32 else c
  }

  // The character of a key that has gone down.
  function MakeChar(charcode: Charcode, shift: bv8, data: bv8): uint8 {
    var c := charcode(shift & (CTL | SHIFT), data);
    if shift & CAPSLOCK != 0 then SwapCase(c) else c
  }

  // The character of a scan code: none (0) for a prefix or a release.
  function KeyChar(charcode: Charcode, shift: bv8, data: bv8): uint8 {
    if data == 0xe0 || data & 0x80 != 0 then 0
    else MakeChar(charcode, Scan(shift, data), if shift & E0ESC != 0 then data | 0x80 else data)
  }

  const KEY_DEL: uint8 := 0xe9

  // Ctrl-Alt-Del
  predicate Reboots(shift: bv8, c: uint8) {
    !shift & (CTL | ALT) == 0 && c == KEY_DEL
  }

  // The characters of the keyboard over whole histories: the table is chosen by whether control and shift are
  // held, and upper and lower case are swapped after an odd number of presses of caps lock.
  function Column(control: bool, shift: bool): bv8 {
    (if control then 0x02 else 0x00) | (if shift then 0x01 else 0x00)
  }

  lemma ColumnBits(shift: bv8)
    ensures shift & (CTL | SHIFT) == Column(shift & CTL != 0, shift & SHIFT != 0)
  {
  }

  lemma RebootBits(shift: bv8)
    ensures !shift & (CTL | ALT) == 0 <==> shift & CTL != 0 && shift & ALT != 0
  {
  }

  lemma ScannedChar(charcode: Charcode, shift: bv8, data: bv8)
    requires data & 0x80 == 0
    ensures KeyChar(charcode, shift, data)
         == MakeChar(charcode, Scan(shift, data), if shift & E0ESC != 0 then data | 0x80 else data)
  {
    assert data != 0xe0;
  }

  lemma HistoryState(h: seq<bv8>)
    ensures ShiftAfter(h) & (CTL | SHIFT) == Column(Held(h, CTL), Held(h, SHIFT))
    ensures ShiftAfter(h) & CAPSLOCK != 0 <==> Odd(h, 0x3a)
  {
    ModifierState(h, CTL);
    ModifierState(h, SHIFT);
    LockState(h, CAPSLOCK, 0x3a);
    ColumnBits(ShiftAfter(h));
  }

  // The character of a key that has gone down, as the history up to it decides.
  ghost function CharOf(charcode: Charcode, now: seq<bv8>, code: bv8): uint8 {
    var c := charcode(Column(Held(now, CTL), Held(now, SHIFT)), code);
    if Odd(now, 0x3a) then SwapCase(c) else c
  }

  // The character of a key press after a history.
  ghost function PressChar(charcode: Charcode, h: seq<bv8>, data: bv8): uint8 {
    CharOf(charcode, h + [data], if h != [] && h[|h| - 1] == 0xe0 then data | 0x80 else data)
  }

  lemma MadeChar(charcode: Charcode, now: seq<bv8>, code: bv8)
    ensures MakeChar(charcode, ShiftAfter(now), code) == CharOf(charcode, now, code)
  {
    HistoryState(now);
  }

  lemma LastShift(h: seq<bv8>, data: bv8)
    ensures ShiftAfter(h + [data]) == Scan(ShiftAfter(h), data)
  {
    assert (h + [data])[..|h|] == h;
  }

  lemma TypedChar(charcode: Charcode, h: seq<bv8>, data: bv8)
    requires data & 0x80 == 0
    ensures KeyChar(charcode, ShiftAfter(h), data) == PressChar(charcode, h, data)
  {
    var code := if ShiftAfter(h) & E0ESC != 0 then data | 0x80 else data;
    LastShift(h, data);
    ScannedChar(charcode, ShiftAfter(h), data);
    MadeChar(charcode, h + [data], code);
    EscapeState(h);
  }

  // Every prefix and every release yields no character, and no reboot.
  lemma ReleaseSilent(charcode: Charcode, shift: bv8, data: bv8)
    requires data & 0x80 != 0
    ensures KeyChar(charcode, shift, data) == 0 && !Reboots(Scan(shift, data), KeyChar(charcode, shift, data))
  {
  }

  // What kbd_proc_data returns for each code of a history, and what the presses alone would type.
  ghost function Returned(charcode: Charcode, h: seq<bv8>): (cs: seq<uint8>)
    ensures |cs| == |h|
  {
    seq(|h|, k requires 0 <= k < |h| => KeyChar(charcode, ShiftAfter(h[..k]), h[k]))
  }

  ghost function Typed(charcode: Charcode, h: seq<bv8>): (cs: seq<uint8>)
    ensures |cs| == |h|
  {
    seq(|h|, k requires 0 <= k < |h| => if h[k] & 0x80 == 0 then PressChar(charcode, h[..k], h[k]) else 0)
  }

  // cons_intr drops the zeros.
  function NonZero(cs: seq<uint8>): seq<uint8> {
    if cs == [] then [] else (if cs[0] == 0 then [] else [cs[0]]) + NonZero(cs[1..])
  }

  lemma CodeGives(charcode: Charcode, h: seq<bv8>, k: nat)
    requires k < |h|
    ensures Returned(charcode, h)[k] == Typed(charcode, h)[k]
  {
    if h[k] & 0x80 == 0 {
      TypedChar(charcode, h[..k], h[k]);
    } else {
      ReleaseSilent(charcode, ShiftAfter(h[..k]), h[k]);
    }
  }

  // Over every history, the characters that reach the ring are those of the presses alone, in order.
  lemma PressesAlone(charcode: Charcode, h: seq<bv8>)
    ensures NonZero(Returned(charcode, h)) == NonZero(Typed(charcode, h))
  {
    forall k | 0 <= k < |h| ensures Returned(charcode, h)[k] == Typed(charcode, h)[k] {
      CodeGives(charcode, h, k);
    }
    assert Returned(charcode, h) == Typed(charcode, h);
  }

  // The ring takes them as if no zero had been returned.
  lemma {:induction false} ZerosDropped(q: seq<uint8>, cs: seq<uint8>)
    requires |q| < CONSBUFSIZE
    ensures PushAll(q, cs) == PushAll(q, NonZero(cs))
    decreases |cs|
  {
    if cs == [] {
    } else {
      ZerosDropped(Push(q, cs[0]), cs[1..]);
      if cs[0] == 0 {
        assert NonZero(cs) == NonZero(cs[1..]);
      } else {
        assert NonZero(cs) == [cs[0]] + NonZero(cs[1..]);
        assert NonZero(cs)[1..] == NonZero(cs[1..]);
      }
    }
  }

  // Case is swapped letter by letter, and nothing else changes.
  lemma SwapsCase(c: uint8)
    ensures 0x41 <= c <= 0x5a ==> SwapCase(c) == c + 0x20
    ensures 0x61 <= c <= 0x7a ==> SwapCase(c) == c - 0x20
    ensures !(0x41 <= c <= 0x5a) && !(0x61 <= c <= 0x7a) ==> SwapCase(c) == c
    ensures SwapCase(SwapCase(c)) == c
  {
  }

  // Ctrl-Alt-Del reboots exactly if both modifiers are held when the key goes down.
  lemma RebootIff(h: seq<bv8>, c: uint8)
    ensures Reboots(ShiftAfter(h), c) <==> Held(h, CTL) && Held(h, ALT) && c == 0xe9
  {
    ModifierState(h, CTL);
    ModifierState(h, ALT);
    RebootBits(ShiftAfter(h));
  }

  class Keyboard {
    var shift: bv8

    constructor ()
      ensures shift == ShiftAfter([])
    {
      shift := 0;
    }

    // 'ready' and 'mouse' are the status bits; 'charcode' stands for the four key tables.
    method ProcData(ready: bool, mouse: bool, input: bv8, charcode: Charcode)
      returns (c: int, reboot: bool)
      modifies this
      ensures !ready || mouse ==> c == -1 && shift == old(shift) && !reboot
      ensures ready && !mouse ==> shift == Scan(old(shift), input) && c == KeyChar(charcode, old(shift), input)
      ensures ready && !mouse ==> (reboot <==> Reboots(shift, c))
      ensures ready && !mouse && input & 0x80 != 0 ==> c == 0 && !reboot
    {
      reboot := false;
      if !ready || mouse {
        return -1, false;
      }
      var data := input;
      if data == 0xe0 {
        shift := shift | E0ESC;
        return 0, false;
      } else if data & 0x80 != 0 {
        data := if shift & E0ESC != 0 then data else data & 0x7f;
        shift := shift & !(Shiftcode(data) | E0ESC);
        return 0, false;
      } else if shift & E0ESC != 0 {
        data := data | 0x80;
        shift := shift & !E0ESC;
      }
      c, reboot := KeyDown(data, charcode);
    }

    // The rest of kbd_proc_data, for a key that has gone down.
    method KeyDown(data: bv8, charcode: Charcode) returns (c: int, reboot: bool)
      modifies this
      ensures shift == Make(old(shift), data) && c == MakeChar(charcode, shift, data)
      ensures reboot <==> Reboots(shift, c)
    {
      shift := shift | Shiftcode(data);
      shift := shift ^ Togglecode(data);
      c := charcode(shift & (CTL | SHIFT), data);
      if shift & CAPSLOCK != 0 {
        c := SwapCase(c);
      }
      reboot := !shift & (CTL | ALT) == 0 && c == KEY_DEL;
    }
  }
}
