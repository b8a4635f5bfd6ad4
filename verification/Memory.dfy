// memmove and memset, in both compiled variants (lib/string.c).
// Memory is one array of bytes; a pointer is an index into it.
module Memory {
  import opened Machine

  type byte = bv8

  // Every address, and the address just past an object, fits in 32 bits.
  const MAX_MEMORY := 0xffff_ffff

  predicate InMemory(size: int, p: int, n: int) {
    0 <= p && 0 <= n && p + n <= size <= MAX_MEMORY
  }

  // Every destination byte is the old source byte and every other byte is unchanged, however the two overlap.
  ghost predicate Moved(before: seq<byte>, after: seq<byte>, dst: nat, src: nat, n: nat)
    requires InMemory(|before|, dst, n) && InMemory(|before|, src, n)
  {
    && |after| == |before|
    && forall j {:trigger after[j]} :: 0 <= j < |after| ==>
          after[j] == if dst <= j < dst + n then before[src + (j - dst)] else before[j]
  }

  ghost predicate Filled(before: seq<byte>, after: seq<byte>, lo: int, hi: int, c: byte)
    requires 0 <= lo <= hi <= |before|
  {
    && |after| == |before|
    && forall j :: 0 <= j < |after| ==> after[j] == if lo <= j < hi then c else before[j]
  }

  // n bytes copied one at a time in increasing order of address, each read after the last was written.
  function Upwards(mem: seq<byte>, d: nat, s: nat, n: nat): (after: seq<byte>)
    requires InMemory(|mem|, d, n) && InMemory(|mem|, s, n)
    ensures |after| == |mem|
    decreases n
  {
    if n == 0 then mem else Upwards(mem[d := mem[s]], d + 1, s + 1, n - 1)
  }

  // The same in decreasing order.
  function Downwards(mem: seq<byte>, d: nat, s: nat, n: nat): (after: seq<byte>)
    requires InMemory(|mem|, d, n) && InMemory(|mem|, s, n)
    ensures |after| == |mem|
    decreases n
  {
    if n == 0 then mem else Downwards(mem[d + n - 1 := mem[s + n - 1]], d, s, n - 1)
  }

  // ------------------------------------------------------------------
  // When each direction is right
  // ------------------------------------------------------------------

  lemma {:induction false} UpwardsMoves(mem: seq<byte>, d: nat, s: nat, n: nat)
    requires InMemory(|mem|, d, n) && InMemory(|mem|, s, n) && d <= s
    ensures Moved(mem, Upwards(mem, d, s, n), d, s, n)
    decreases n
  {
    if n <= 1 {
    } else {
      UpwardsMoves(mem[d := mem[s]], d + 1, s + 1, n - 1);
    }
  }

  lemma {:induction false} DownwardsMoves(mem: seq<byte>, d: nat, s: nat, n: nat)
    requires InMemory(|mem|, d, n) && InMemory(|mem|, s, n) && s < d
    ensures Moved(mem, Downwards(mem, d, s, n), d, s, n)
    decreases n
  {
    if n <= 1 {
    } else {
      DownwardsMoves(mem[d + n - 1 := mem[s + n - 1]], d, s, n - 1);
    }
  }

  // An upward copy whose destination starts inside its source repeats the bytes in between.
  lemma {:induction false} UpwardsRepeats(mem: seq<byte>, d: nat, s: nat, n: nat)
    requires InMemory(|mem|, d, n) && InMemory(|mem|, s, n) && s < d
    ensures var after := Upwards(mem, d, s, n);
      && (forall j :: d <= j < d + n ==> after[j] == after[j - (d - s)])
      && (forall j :: (0 <= j < d || d + n <= j < |mem|) ==> after[j] == mem[j])
    decreases n
  {
    if n == 0 {
    } else {
      UpwardsRepeats(mem[d := mem[s]], d + 1, s + 1, n - 1);
    }
  }

  ghost predicate UpwardsRight(mem: seq<byte>, d: nat, s: nat, n: nat)
    requires InMemory(|mem|, d, n) && InMemory(|mem|, s, n)
  {
    Moved(mem, Upwards(mem, d, s, n), d, s, n)
  }

  lemma UpwardsSafe(mem: seq<byte>, d: nat, s: nat, n: nat)
    requires InMemory(|mem|, d, n) && InMemory(|mem|, s, n) && !(s < d && s + n > d)
    ensures UpwardsRight(mem, d, s, n)
  {
    if d <= s {
      UpwardsMoves(mem, d, s, n);
    } else {
      UpwardsRepeats(mem, d, s, n);
      var after := Upwards(mem, d, s, n);
      forall j | d <= j < d + n ensures after[j] == mem[s + (j - d)] {
        assert after[j] == after[j - (d - s)];
      }
    }
  }

  lemma UpwardsSmears(size: nat, d: nat, s: nat, n: nat) returns (mem: seq<byte>)
    requires InMemory(size, d, n) && InMemory(size, s, n) && s < d < s + n
    ensures |mem| == size && !UpwardsRight(mem, d, s, n)
  {
    mem := seq(size, j => if j == s then 1 as byte else 0);
    var after := Upwards(mem, d, s, n);
    UpwardsRepeats(mem, d, s, n);
    var j := d + (d - s);
    assert after[j] == after[j - (d - s)] == after[d] == after[d - (d - s)] == mem[s] != mem[d];
  }

  // Copying upwards is right whatever memory holds exactly when memmove chooses it.
  lemma UpwardsIff(size: nat, d: nat, s: nat, n: nat)
    requires InMemory(size, d, n) && InMemory(size, s, n)
    ensures (forall mem: seq<byte> | |mem| == size :: UpwardsRight(mem, d, s, n)) <==> !(s < d && s + n > d)
  {
    if s < d && s + n > d {
      var mem := UpwardsSmears(size, d, s, n);
    } else {
      forall mem: seq<byte> | |mem| == size ensures UpwardsRight(mem, d, s, n) {
        UpwardsSafe(mem, d, s, n);
      }
    }
  }

  // ------------------------------------------------------------------
  // Words refine bytes
  // ------------------------------------------------------------------

  lemma {:induction false} UpwardsSplit(mem: seq<byte>, d: nat, s: nat, a: nat, b: nat)
    requires InMemory(|mem|, d, a + b) && InMemory(|mem|, s, a + b)
    ensures Upwards(mem, d, s, a + b) == Upwards(Upwards(mem, d, s, a), d + a, s + a, b)
    decreases a
  {
    if a == 0 {
    } else {
      UpwardsSplit(mem[d := mem[s]], d + 1, s + 1, a - 1, b);
    }
  }

  lemma {:induction false} DownwardsSplit(mem: seq<byte>, d: nat, s: nat, a: nat, b: nat)
    requires InMemory(|mem|, d, a + b) && InMemory(|mem|, s, a + b)
    ensures Downwards(mem, d, s, a + b) == Downwards(Downwards(mem, d + a, s + a, b), d, s, a)
    decreases b
  {
    if b == 0 {
    } else {
      DownwardsSplit(mem[d + a + b - 1 := mem[s + a + b - 1]], d, s, a, b - 1);
    }
  }

  function PutWord(mem: seq<byte>, d: nat, s: nat): seq<byte>
    requires InMemory(|mem|, d, 4) && InMemory(|mem|, s, 4)
  {
    mem[d := mem[s]][d + 1 := mem[s + 1]][d + 2 := mem[s + 2]][d + 3 := mem[s + 3]]
  }

  // Reading a whole word before writing it is the same as copying its bytes one at a time, unless the
  // destination lies one to three bytes above the source.
  lemma WordIsFourBytes(mem: seq<byte>, d: nat, s: nat)
    requires InMemory(|mem|, d, 4) && InMemory(|mem|, s, 4) && (d <= s || s + 4 <= d)
    ensures PutWord(mem, d, s) == Upwards(mem, d, s, 4)
    ensures s < d ==> PutWord(mem, d, s) == Downwards(mem, d, s, 4)
  {
    if d <= s {
      UpwardsMoves(mem, d, s, 4);
    } else {
      UpwardsRepeats(mem, d, s, 4);
      DownwardsMoves(mem, d, s, 4);
    }
  }

  // ------------------------------------------------------------------
  // The copying loops: byte by byte in C, rep movsb or rep movsl in assembly
  // ------------------------------------------------------------------

  method CopyBytesUp(mem: array<byte>, dst: nat, src: nat, n: nat)
    requires InMemory(mem.Length, dst, n) && InMemory(mem.Length, src, n)
    modifies mem
    ensures mem[..] == Upwards(old(mem[..]), dst, src, n)
  {
    var d, s, count := dst, src, n;
    while count > 0
      invariant 0 <= count <= n && d == dst + n - count && s == src + n - count
      invariant Upwards(mem[..], d, s, count) == Upwards(old(mem[..]), dst, src, n)
    {
      ghost var was := mem[..];
      mem[d] := mem[s];
      assert mem[..] == was[d := was[s]];
      d, s, count := d + 1, s + 1, count - 1;
    }
  }

  method CopyBytesDown(mem: array<byte>, dst: nat, src: nat, n: nat)
    requires InMemory(mem.Length, dst, n) && InMemory(mem.Length, src, n)
    modifies mem
    ensures mem[..] == Downwards(old(mem[..]), dst, src, n)
  {
    var d, s, count := dst + n, src + n, n;
    while count > 0
      invariant 0 <= count <= n && d == dst + count && s == src + count
      invariant Downwards(mem[..], dst, src, count) == Downwards(old(mem[..]), dst, src, n)
    {
      ghost var was := mem[..];
      d, s, count := d - 1, s - 1, count - 1;
      mem[d] := mem[s];
      assert mem[..] == was[d := was[s]];
    }
  }

  method MoveWord(mem: array<byte>, d: nat, s: nat)
    requires InMemory(mem.Length, d, 4) && InMemory(mem.Length, s, 4) && (d <= s || s + 4 <= d)
    modifies mem
    ensures mem[..] == Upwards(old(mem[..]), d, s, 4)
    ensures s < d ==> mem[..] == Downwards(old(mem[..]), d, s, 4)
  {
    WordIsFourBytes(mem[..], d, s);
    var b0, b1, b2, b3 := mem[s], mem[s + 1], mem[s + 2], mem[s + 3];
    mem[d], mem[d + 1], mem[d + 2], mem[d + 3] := b0, b1, b2, b3;
    assert mem[..] == PutWord(old(mem[..]), d, s);
  }

  method CopyWordsUp(mem: array<byte>, dst: nat, src: nat, words: nat)
    requires InMemory(mem.Length, dst, 4 * words) && InMemory(mem.Length, src, 4 * words)
    requires dst <= src || src + 4 <= dst
    modifies mem
    ensures mem[..] == Upwards(old(mem[..]), dst, src, 4 * words)
  {
    var edi, esi, ecx := dst, src, words;
    while ecx > 0
      invariant 0 <= ecx <= words && edi == dst + 4 * (words - ecx) && esi == src + 4 * (words - ecx)
      invariant Upwards(mem[..], edi, esi, 4 * ecx) == Upwards(old(mem[..]), dst, src, 4 * words)
    {
      UpwardsSplit(mem[..], edi, esi, 4, 4 * (ecx - 1));
      MoveWord(mem, edi, esi);
      edi, esi, ecx := edi + 4, esi + 4, ecx - 1;
    }
  }

  method CopyWordsDown(mem: array<byte>, dst: nat, src: nat, words: nat)
    requires InMemory(mem.Length, dst, 4 * words) && InMemory(mem.Length, src, 4 * words)
    requires src + 4 <= dst
    modifies mem
    ensures mem[..] == Downwards(old(mem[..]), dst, src, 4 * words)
  {
    var edi, esi, ecx := dst + 4 * words - 4, src + 4 * words - 4, words;
    while ecx > 0
      invariant 0 <= ecx <= words && edi == dst + 4 * (ecx - 1) && esi == src + 4 * (ecx - 1)
      invariant Downwards(mem[..], dst, src, 4 * ecx) == Downwards(old(mem[..]), dst, src, 4 * words)
    {
      DownwardsSplit(mem[..], dst, src, 4 * (ecx - 1), 4);
      MoveWord(mem, edi, esi);
      edi, esi, ecx := edi - 4, esi - 4, ecx - 1;
    }
  }

  // ------------------------------------------------------------------
  // memmove
  // ------------------------------------------------------------------

  // The variant in C.
  method MemmoveBytes(mem: array<byte>, dst: nat, src: nat, n: nat)
    requires InMemory(mem.Length, dst, n) && InMemory(mem.Length, src, n)
    modifies mem
    ensures Moved(old(mem[..]), mem[..], dst, src, n)
  {
    if src < dst && src + n > dst {
      DownwardsMoves(mem[..], dst, src, n);
      CopyBytesDown(mem, dst, src, n);
    } else {
      UpwardsSafe(mem[..], dst, src, n);
      CopyBytesUp(mem, dst, src, n);
    }
  }

  // The variant in assembly.
  method MemmoveWords(mem: array<byte>, dst: nat, src: nat, n: nat)
    requires InMemory(mem.Length, dst, n) && InMemory(mem.Length, src, n)
    modifies mem
    ensures Moved(old(mem[..]), mem[..], dst, src, n)
  {
    if src < dst && src + n > dst {
      DownwardsMoves(mem[..], dst, src, n);
      if (src + n) % 4 == 0 && (dst + n) % 4 == 0 && n % 4 == 0 {
        CopyWordsDown(mem, dst, src, n / 4);
      } else {
        CopyBytesDown(mem, dst, src, n);
      }
    } else {
      UpwardsSafe(mem[..], dst, src, n);
      if src % 4 == 0 && dst % 4 == 0 && n % 4 == 0 {
        CopyWordsUp(mem, dst, src, n / 4);
      } else {
        CopyBytesUp(mem, dst, src, n);
      }
    }
  }

  // ------------------------------------------------------------------
  // memset
  // ------------------------------------------------------------------

  // The variant in C.  Its int counter holds n only if n < 2^31; a larger n leaves memory alone.
  method MemsetBytes(mem: array<byte>, v: nat, c: word, n: nat)
    requires InMemory(mem.Length, v, n) && n != 0x8000_0000
    modifies mem
    ensures Filled(old(mem[..]), mem[..], v, if n < 0x8000_0000 then v + n else v, (c & 0xff) as byte)
  {
    var p, m := v, if n < 0x8000_0000 then n else n - 0x1_0000_0000;
    m := m - 1;
    while m >= 0
      invariant v <= p && (n < 0x8000_0000 ==> p + m + 1 == v + n && m >= -1)
      invariant n >= 0x8000_0000 ==> p == v && m < 0
      invariant Filled(old(mem[..]), mem[..], v, p, Low(c))
      decreases m
    {
      mem[p] := Low(c);
      p, m := p + 1, m - 1;
    }
  }

  function Low(w: word): byte {
    (w & 0xff) as byte
  }

  function Replicated(c: word): word {
    var b := c & 0xff;
    (b << 24) | (b << 16) | (b << 8) | b
  }

  lemma ReplicatedBytes(c: word)
    ensures var w := Replicated(c);
      Low(w) == Low(c) && Low(w >> 8) == Low(c) && Low(w >> 16) == Low(c) && Low(w >> 24) == Low(c)
  {
    var w := Replicated(c);
    assert w & 0xff == c & 0xff;
    assert (w >> 8) & 0xff == c & 0xff;
    assert (w >> 16) & 0xff == c & 0xff;
    assert (w >> 24) & 0xff == c & 0xff;
  }

  // One stosl: the little-endian bytes of the word.
  method StoreWord(mem: array<byte>, p: nat, w: word, ghost b: byte)
    requires InMemory(mem.Length, p, 4)
    requires Low(w) == b && Low(w >> 8) == b && Low(w >> 16) == b && Low(w >> 24) == b
    modifies mem
    ensures Filled(old(mem[..]), mem[..], p, p + 4, b)
  {
    mem[p] := Low(w);
    mem[p + 1] := Low(w >> 8);
    mem[p + 2] := Low(w >> 16);
    mem[p + 3] := Low(w >> 24);
  }

  // rep stosl
  method StoreWords(mem: array<byte>, v: nat, w: word, words: nat, ghost b: byte)
    requires InMemory(mem.Length, v, 4 * words)
    requires Low(w) == b && Low(w >> 8) == b && Low(w >> 16) == b && Low(w >> 24) == b
    modifies mem
    ensures Filled(old(mem[..]), mem[..], v, v + 4 * words, b)
  {
    var edi, ecx := v, words;
    while ecx > 0
      invariant 0 <= ecx <= words && edi == v + 4 * (words - ecx)
      invariant Filled(old(mem[..]), mem[..], v, edi, b)
    {
      StoreWord(mem, edi, w, b);
      edi, ecx := edi + 4, ecx - 1;
    }
  }

  // rep stosb
  method StoreBytes(mem: array<byte>, v: nat, c: word, n: nat)
    requires InMemory(mem.Length, v, n)
    modifies mem
    ensures Filled(old(mem[..]), mem[..], v, v + n, Low(c))
  {
    var edi, ecx := v, n;
    while ecx > 0
      invariant 0 <= ecx <= n && edi == v + n - ecx
      invariant Filled(old(mem[..]), mem[..], v, edi, Low(c))
    {
      mem[edi] := Low(c);
      edi, ecx := edi + 1, ecx - 1;
    }
  }

  // The variant in assembly.
  method MemsetWords(mem: array<byte>, v: nat, c: word, n: nat)
    requires InMemory(mem.Length, v, n)
    modifies mem
    ensures Filled(old(mem[..]), mem[..], v, v + n, (c & 0xff) as byte)
  {
    if n == 0 {
      return;
    }
    if v % 4 == 0 && n % 4 == 0 {
      ReplicatedBytes(c);
      StoreWords(mem, v, Replicated(c), n / 4, Low(c));
    } else {
      StoreBytes(mem, v, c, n);
    }
  }
}
