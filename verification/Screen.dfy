// The text-mode display (kern/console.c).
module Screen {
  import opened Machine
  import Memory

  const CRT_COLS := 80
  const CRT_SIZE := 2000  // 25 rows
  const BLANK: uint16 := 0x0720

  function Blanks(n: nat): (s: seq<uint16>)
    ensures |s| == n && forall i :: 0 <= i < n ==> s[i] == BLANK
  {
    seq(n, _ => BLANK)
  }

  // Characters without an attribute are white on black.
  function WithAttribute(c: int): int {
    if 0 <= c < 256 then c + 0x0700 else c
  }

  function Low(c: int): int {
    c % 256
  }

  // What fits in a cell.
  function Cell(c: int): uint16 {
    c % 0x1_0000
  }

  function Erased(c: int): uint16 {
    Cell(c - Low(c) + 0x20)
  }

  // ------------------------------------------------------------------
  // The buffer: 25 rows and a cursor
  // ------------------------------------------------------------------

  datatype Display = Display(cells: seq<uint16>, pos: nat)

  predicate IsDisplay(d: Display) {
    |d.cells| == CRT_SIZE && d.pos < CRT_SIZE
  }

  // The switch on one character other than a tab.
  function Place(d: Display, c: int): (r: Display)
    requires IsDisplay(d)
    ensures |r.cells| == CRT_SIZE && r.pos <= CRT_SIZE
  {
    match Low(c)
    case 8 => if d.pos > 0 then Display(d.cells[d.pos - 1 := Erased(c)], d.pos - 1) else d
    case 10 => d.(pos := d.pos + CRT_COLS - (d.pos + CRT_COLS) % 80)
    case 13 => d.(pos := d.pos - d.pos % 80)
    case _ => Display(d.cells[d.pos := Cell(c)], d.pos + 1)
  }

  function ScrollUp(d: Display): (r: Display)
    requires |d.cells| == CRT_SIZE && d.pos <= CRT_SIZE
    ensures IsDisplay(r)
  {
    if d.pos >= CRT_SIZE then Display(d.cells[80..] + Blanks(80), d.pos - 80) else d
  }

  function PutOne(d: Display, c: int): (r: Display)
    requires IsDisplay(d)
    ensures IsDisplay(r)
  {
    ScrollUp(Place(d, WithAttribute(c)))
  }

  function PutSpaces(d: Display, n: nat): (r: Display)
    requires IsDisplay(d)
    ensures IsDisplay(r)
    decreases n
  {
    if n == 0 then d else PutSpaces(PutOne(d, 0x20), n - 1)
  }

  function Put(d: Display, c: int): (r: Display)
    requires IsDisplay(d)
    ensures IsDisplay(r)
  {
    if Low(c) == 9 then PutSpaces(d, 5) else PutOne(d, c)
  }

  // ------------------------------------------------------------------
  // Cells in memory: two bytes each, the character first
  // ------------------------------------------------------------------

  type byte = Memory.byte

  function CellAt(mem: seq<byte>, i: nat): uint16
    requires 2 * i + 1 < |mem|
  {
    var low: int, high: int := mem[2 * i] as int, mem[2 * i + 1] as int;
    low + 0x100 * high
  }

  function Cells(mem: seq<byte>): (cells: seq<uint16>)
    ensures |cells| == |mem| / 2 && forall i :: 0 <= i < |cells| ==> cells[i] == CellAt(mem, i)
  {
    seq(|mem| / 2, i requires 0 <= i < |mem| / 2 => CellAt(mem, i))
  }

  function ToByte(x: uint8): byte {
    x as byte
  }

  lemma ByteAfter(b: byte)
    requires b < 0xff
    ensures (b + 1) as int == b as int + 1
  {
  }

  lemma {:induction false} SomeByte(x: uint8) returns (b: byte)
    ensures b as int == x
    decreases x
  {
    if x == 0 {
      b := 0;
    } else {
      b := SomeByte(x - 1);
      assert b != 0xff;
      ByteAfter(b);
      b := b + 1;
    }
  }

  lemma ByteValue(x: uint8)
    ensures ToByte(x) as int == x
  {
    var b := SomeByte(x);
    assert (b as int) as byte == b;
  }

  function LowByte(v: uint16): byte {
    ToByte(v % 0x100)
  }

  function HighByte(v: uint16): byte {
    ToByte(v / 0x100)
  }

  lemma BytesJoin(v: uint16)
    ensures (LowByte(v) as int) + 0x100 * (HighByte(v) as int) == v
  {
    ByteValue(v % 0x100);
    ByteValue(v / 0x100);
  }

  lemma StoredCell(before: seq<byte>, after: seq<byte>, i: nat, v: uint16)
    requires 2 * i + 1 < |before| == |after| && after[2 * i] == LowByte(v) && after[2 * i + 1] == HighByte(v)
    requires forall k :: 0 <= k < |before| && k != 2 * i && k != 2 * i + 1 ==> after[k] == before[k]
    ensures Cells(after) == Cells(before)[i := v]
  {
    BytesJoin(v);
    forall k | 0 <= k < |before| / 2 && k != i ensures CellAt(after, k) == CellAt(before, k) {
      assert after[2 * k] == before[2 * k] && after[2 * k + 1] == before[2 * k + 1];
    }
  }

  // memmove on the bytes of the buffer moves its rows.
  lemma RowsMoved(before: seq<byte>, after: seq<byte>)
    requires |before| == 2 * CRT_SIZE && Memory.Moved(before, after, 0, 160, 3840)
    ensures Cells(after) == Cells(before)[80..] + Cells(before)[1920..]
  {
    forall i | 0 <= i < 1920 ensures CellAt(after, i) == CellAt(before, i + 80) {
      assert after[2 * i] == before[160 + 2 * i] && after[2 * i + 1] == before[160 + 2 * i + 1];
    }
  }

  class Crt {
    const buf: array<byte>
    var pos: nat

    ghost predicate Valid()
      reads this
    {
      buf.Length == 2 * CRT_SIZE && pos < CRT_SIZE
    }

    ghost function Shown(): Display
      reads this, buf
    {
      Display(Cells(buf[..]), pos)
    }

    constructor (buf: array<byte>, pos: nat)
      requires buf.Length == 2 * CRT_SIZE && pos < CRT_SIZE
      ensures Valid() && this.buf == buf && this.pos == pos
    {
      this.buf, this.pos := buf, pos;
    }

    // cga_putc; a tab goes back through cons_putc for each of its five spaces.
    method Putc(ch: int)
      requires Valid()
      modifies this, buf
      ensures Valid() && Shown() == Put(old(Shown()), ch)
      decreases if Low(ch) == 9 then 1 else 0
    {
      var c := if 0 <= ch < 256 then ch + 0x0700 else ch;
      if Low(c) == 9 {
        ghost var d := Shown();
        Putc(0x20);
        assert PutSpaces(Shown(), 4) == PutSpaces(d, 5);
        Putc(0x20);
        assert PutSpaces(Shown(), 3) == PutSpaces(d, 5);
        Putc(0x20);
        assert PutSpaces(Shown(), 2) == PutSpaces(d, 5);
        Putc(0x20);
        assert PutSpaces(Shown(), 1) == PutSpaces(d, 5);
        Putc(0x20);
        assert Shown() == PutSpaces(d, 5);
      } else {
        PlaceChar(c);
      }
      if pos >= CRT_SIZE {
        Scroll();
      }
    }

    // crt_buf[i] = v
    method Store(i: nat, v: uint16)
      requires buf.Length == 2 * CRT_SIZE && i < CRT_SIZE
      modifies buf
      ensures Cells(buf[..]) == old(Cells(buf[..]))[i := v]
    {
      buf[2 * i] := LowByte(v);
      buf[2 * i + 1] := HighByte(v);
      StoredCell(old(buf[..]), buf[..], i, v);
    }

    method PlaceChar(c: int)
      requires Valid() && Low(c) != 9
      modifies this, buf
      ensures Shown() == Place(old(Shown()), c)
    {
      var low := Low(c);
      if low == 8 {
        if pos > 0 {
          pos := pos - 1;
          Store(pos, Erased(c));
        }
      } else if low == 10 {
        pos := pos + CRT_COLS;
        pos := pos - pos % 80;
      } else if low == 13 {
        pos := pos - pos % 80;
      } else {
        Store(pos, Cell(c));
        pos := pos + 1;
      }
    }

    // Moves all rows up by one, with source and destination overlapping, and blanks the last.
    method Scroll()
      requires buf.Length == 2 * CRT_SIZE && pos == CRT_SIZE
      modifies this, buf
      ensures Shown() == ScrollUp(old(Shown()))
    {
      ghost var before := Cells(buf[..]);
      Memory.MemmoveWords(buf, 0, 2 * CRT_COLS, 2 * (CRT_SIZE - CRT_COLS));
      RowsMoved(old(buf[..]), buf[..]);
      for i := CRT_SIZE - CRT_COLS to CRT_SIZE
        invariant pos == CRT_SIZE
        invariant Cells(buf[..])[..1920] == before[80..]
        invariant forall k :: 1920 <= k < i ==> Cells(buf[..])[k] == BLANK
      {
        Store(i, BLANK);
      }
      pos := pos - CRT_COLS;
      assert Cells(buf[..]) == before[80..] + Blanks(80);
    }
  }

  // ------------------------------------------------------------------
  // The page: every row ever written, of which the display shows the last 25
  // ------------------------------------------------------------------

  datatype Page = Page(cells: seq<uint16>, top: nat, pos: nat)

  predicate IsPage(p: Page) {
    |p.cells| == 80 * p.top + 2000 && 80 * p.top <= p.pos < |p.cells|
  }

  function Window(p: Page): (d: Display)
    requires IsPage(p)
    ensures IsDisplay(d)
  {
    Display(p.cells[80 * p.top..], p.pos - 80 * p.top)
  }

  // Nothing on the page ever moves: going past its end adds a row of blanks.
  function Grow(cells: seq<uint16>, top: nat, pos: nat): Page {
    if pos >= |cells| then Page(cells + Blanks(80), top + 1, pos) else Page(cells, top, pos)
  }

  function Write(p: Page, c: int): (q: Page)
    requires IsPage(p)
    ensures IsPage(q)
  {
    var a := WithAttribute(c);
    match Low(a)
    case 8 => if p.pos > 80 * p.top then Page(p.cells[p.pos - 1 := Erased(a)], p.top, p.pos - 1) else p
    case 10 => Grow(p.cells, p.top, (p.pos / 80 + 1) * 80)
    case 13 => p.(pos := p.pos / 80 * 80)
    case _ => Grow(p.cells[p.pos := Cell(a)], p.top, p.pos + 1)
  }

  function WriteSpaces(p: Page, n: nat): (q: Page)
    requires IsPage(p)
    ensures IsPage(q)
    decreases n
  {
    if n == 0 then p else WriteSpaces(Write(p, 0x20), n - 1)
  }

  function WriteChar(p: Page, c: int): (q: Page)
    requires IsPage(p)
    ensures IsPage(q)
  {
    if Low(c) == 9 then WriteSpaces(p, 5) else Write(p, c)
  }

  // ------------------------------------------------------------------
  // What one character does to the page
  // ------------------------------------------------------------------

  // The cell of a character: one without an attribute is white on black, 7.
  function CharCell(c: int): uint16 {
    if 0 <= c <= 0xff then 0x700 + c else c % 0x1_0000
  }

  // q has the cells of p, but for position k, and then rows of blanks up to the row of its cursor.
  ghost predicate Shows(p: Page, q: Page, k: int, pos: nat)
    requires IsPage(p)
  {
    && q.pos == pos
    && q.top == (if pos >= |p.cells| then p.top + 1 else p.top)
    && |q.cells| == 80 * q.top + 2000
    && (forall j :: 0 <= j < |p.cells| && j != k ==> q.cells[j] == p.cells[j])
    && (forall j :: |p.cells| <= j < |q.cells| ==> q.cells[j] == 0x720)
  }

  // An ordinary character is put at the cursor, which moves on by one.
  lemma CharWritten(p: Page, c: int)
    requires IsPage(p) && c % 0x100 !in {8, 9, 10, 13}
    ensures Shows(p, Write(p, c), p.pos, p.pos + 1) && Write(p, c).cells[p.pos] == CharCell(c)
  {
  }

  // A line feed goes to the start of the next row, a carriage return to that of this one.
  lemma LineFeedMoves(p: Page, c: int, row: nat)
    requires IsPage(p) && c % 0x100 == 10 && 80 * row <= p.pos < 80 * (row + 1)
    ensures Shows(p, Write(p, c), -1, 80 * (row + 1))
  {
  }

  lemma ReturnMoves(p: Page, c: int, row: nat)
    requires IsPage(p) && c % 0x100 == 13 && 80 * row <= p.pos < 80 * (row + 1)
    ensures Write(p, c) == Page(p.cells, p.top, 80 * row)
  {
  }

  // A backspace moves back by one and puts a blank there, in its own attribute; at the start of the window it
  // does nothing.
  lemma BackspaceErases(p: Page, c: int)
    requires IsPage(p) && c % 0x100 == 8
    ensures p.pos > 80 * p.top ==>
      Shows(p, Write(p, c), p.pos - 1, p.pos - 1) && Write(p, c).cells[p.pos - 1] == CharCell(c) - 8 + 32
    ensures p.pos == 80 * p.top ==> Write(p, c) == p
  {
  }

  // A tab is five blanks.
  lemma TabWrites(p: Page, c: int)
    requires IsPage(p)
    ensures WriteChar(p, c)
         == if c % 0x100 == 9 then Write(Write(Write(Write(Write(p, 32), 32), 32), 32), 32) else Write(p, c)
  {
    var q := Write(Write(Write(p, 32), 32), 32);
    assert WriteSpaces(Write(Write(q, 32), 32), 0) == Write(Write(q, 32), 32);
    assert WriteSpaces(q, 2) == WriteSpaces(Write(q, 32), 1);
    assert WriteSpaces(Write(p, 32), 4) == WriteSpaces(Write(Write(p, 32), 32), 3);
  }

  lemma GrowScrolls(cells: seq<uint16>, top: nat, pos: nat)
    requires |cells| == 80 * top + 2000 && 80 * top <= pos <= |cells|
    ensures IsPage(Grow(cells, top, pos))
    ensures Window(Grow(cells, top, pos)) == ScrollUp(Display(cells[80 * top..], pos - 80 * top))
  {
    if pos >= |cells| {
      assert (cells + Blanks(80))[80 * (top + 1)..] == cells[80 * top..][80..] + Blanks(80);
    }
  }

  // Rows are the same in the window as on the page.
  lemma RowsAgree(top: nat, pos: nat)
    requires 80 * top <= pos
    ensures var w := pos - 80 * top;
      && pos / 80 * 80 - 80 * top == w - w % 80
      && (pos / 80 + 1) * 80 - 80 * top == w + 80 - (w + 80) % 80
  {
  }

  // One character has the same effect on the display as on the page.
  lemma WriteRefines(p: Page, c: int)
    requires IsPage(p)
    ensures Window(Write(p, c)) == PutOne(Window(p), c)
  {
    var a, base := WithAttribute(c), 80 * p.top;
    RowsAgree(p.top, p.pos);
    match Low(a)
    case 8 =>
      if p.pos > base {
        assert p.cells[p.pos - 1 := Erased(a)][base..] == p.cells[base..][p.pos - 1 - base := Erased(a)];
      }
    case 10 =>
      GrowScrolls(p.cells, p.top, (p.pos / 80 + 1) * 80);
    case 13 =>
    case _ =>
      assert p.cells[p.pos := Cell(a)][base..] == p.cells[base..][p.pos - base := Cell(a)];
      GrowScrolls(p.cells[p.pos := Cell(a)], p.top, p.pos + 1);
  }

  lemma {:induction false} SpacesRefine(p: Page, n: nat)
    requires IsPage(p)
    ensures Window(WriteSpaces(p, n)) == PutSpaces(Window(p), n)
    decreases n
  {
    if n == 0 {
    } else {
      WriteRefines(p, 0x20);
      SpacesRefine(Write(p, 0x20), n - 1);
    }
  }

  // ------------------------------------------------------------------
  // Whole runs
  // ------------------------------------------------------------------

  function PutAll(d: Display, out: seq<int>): (r: Display)
    requires IsDisplay(d)
    ensures IsDisplay(r)
    decreases |out|
  {
    if out == [] then d else PutAll(Put(d, out[0]), out[1..])
  }

  function WriteAll(p: Page, out: seq<int>): (q: Page)
    requires IsPage(p)
    ensures IsPage(q)
    decreases |out|
  {
    if out == [] then p else WriteAll(WriteChar(p, out[0]), out[1..])
  }

  // After any output, the display is the window onto the page.
  lemma {:induction false} DisplayIsWindow(p: Page, out: seq<int>)
    requires IsPage(p)
    ensures PutAll(Window(p), out) == Window(WriteAll(p, out))
    decreases |out|
  {
    if out == [] {
    } else {
      if Low(out[0]) == 9 {
        SpacesRefine(p, 5);
      } else {
        WriteRefines(p, out[0]);
      }
      DisplayIsWindow(WriteChar(p, out[0]), out[1..]);
    }
  }

  // What has scrolled off the top never changes, and the window only moves down.
  ghost predicate Extends(p: Page, q: Page) {
    && p.top <= q.top && 80 * p.top <= |p.cells| && 80 * p.top <= |q.cells|
    && q.cells[..80 * p.top] == p.cells[..80 * p.top]
  }

  lemma WriteExtends(p: Page, c: int)
    requires IsPage(p)
    ensures Extends(p, Write(p, c)) && Write(p, c).top <= p.top + 1
  {
    var a := WithAttribute(c);
    assert p.pos > 80 * p.top ==> p.cells[p.pos - 1 := Erased(a)][..80 * p.top] == p.cells[..80 * p.top];
    assert p.cells[p.pos := Cell(a)][..80 * p.top] == p.cells[..80 * p.top];
  }

  lemma ExtendsTransitive(p: Page, q: Page, r: Page)
    requires Extends(p, q) && Extends(q, r)
    ensures Extends(p, r)
  {
    assert q.cells[..80 * p.top] == q.cells[..80 * q.top][..80 * p.top];
    assert r.cells[..80 * p.top] == r.cells[..80 * q.top][..80 * p.top];
  }

  lemma {:induction false} SpacesExtend(p: Page, n: nat)
    requires IsPage(p)
    ensures Extends(p, WriteSpaces(p, n))
    decreases n
  {
    if n == 0 {
    } else {
      WriteExtends(p, 0x20);
      SpacesExtend(Write(p, 0x20), n - 1);
      ExtendsTransitive(p, Write(p, 0x20), WriteSpaces(p, n));
    }
  }

  lemma {:induction false} HistoryKept(p: Page, out: seq<int>)
    requires IsPage(p)
    ensures Extends(p, WriteAll(p, out))
    decreases |out|
  {
    if out == [] {
    } else {
      var q := WriteChar(p, out[0]);
      if Low(out[0]) == 9 {
        SpacesExtend(p, 5);
      } else {
        WriteExtends(p, out[0]);
      }
      HistoryKept(q, out[1..]);
      ExtendsTransitive(p, q, WriteAll(p, out));
    }
  }
}
