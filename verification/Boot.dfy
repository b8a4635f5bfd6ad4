// Loading the kernel image (boot/main.c).
// Memory is an array of bytes from physical address 0 up; the disk is a function from byte offsets.
module Boot {
  import opened Machine

  const SECTSIZE := 512
  const ELFHDR := 0x10000
  const ELF_PAGE := 4096

  type Disk = nat -> uint8

  // The kernel image starts at sector 1.
  function Image(disk: Disk, k: nat): uint8 {
    disk(SECTSIZE + k)
  }

  function RoundDown(x: nat): (r: nat)
    ensures r <= x < r + SECTSIZE && r % 512 == 0
  {
    x / 512 * 512
  }

  function RoundUp(x: nat): nat {
    RoundDown(x + SECTSIZE - 1)
  }

  // The fields of a program header that the loader uses.
  datatype Seg = Seg(pa: uint32, memsz: uint32, offset: uint32)

  function End(seg: Seg): nat {
    seg.pa + seg.memsz
  }

  // The addresses that loading the segment writes: whole sectors, or none if it is empty and aligned.
  predicate Writes(seg: Seg, x: nat) {
    RoundDown(seg.pa) <= x < RoundUp(End(seg))
  }

  // The image byte that loading the segment puts at address x.
  function Source(seg: Seg, x: nat): nat
    requires Writes(seg, x)
  {
    RoundDown(seg.offset) + (x - RoundDown(seg.pa))
  }

  // No address computed for the segment wraps, and all of them are in memory.
  predicate Fits(seg: Seg, size: nat) {
    RoundUp(End(seg)) <= size < TWO_TO_32
  }

  // ------------------------------------------------------------------
  // readsect, readseg
  // ------------------------------------------------------------------

  method Readsect(mem: array<uint8>, disk: Disk, dst: nat, sector: nat)
    requires dst + SECTSIZE <= mem.Length
    modifies mem
    ensures forall x :: 0 <= x < mem.Length ==>
      mem[x] == if dst <= x < dst + SECTSIZE then disk(512 * sector + (x - dst)) else old(mem[x])
  {
    for k := 0 to SECTSIZE
      invariant forall x :: 0 <= x < mem.Length ==>
        mem[x] == if dst <= x < dst + k then disk(512 * sector + (x - dst)) else old(mem[x])
    {
      mem[dst + k] := disk(512 * sector + k);
    }
  }

  // Memory after the segment has been read.
  function LoadSeg(m: seq<uint8>, disk: Disk, seg: Seg): (after: seq<uint8>)
    ensures |after| == |m|
  {
    seq(|m|, x requires 0 <= x < |m| => if Writes(seg, x) then Image(disk, Source(seg, x)) else m[x])
  }

  lemma SectorFits(pa: nat, x: nat)
    requires pa % 512 == 0 && pa < x
    ensures pa + SECTSIZE <= RoundUp(x)
  {
  }

  // The loop of readseg stops at the end of the range it writes.
  lemma SectorsDone(seg: Seg, pa: nat)
    requires pa % 512 == 0 && RoundDown(seg.pa) <= pa && End(seg) <= pa
    requires pa == RoundDown(seg.pa) || pa <= RoundUp(End(seg))
    ensures forall x: nat :: Writes(seg, x) <==> RoundDown(seg.pa) <= x < pa
  {
    assert RoundUp(End(seg)) <= pa;
  }

  // The sectors that are written are those that begin before the end of the segment, from the one it starts in.
  lemma WritesIff(seg: Seg, x: nat)
    ensures Writes(seg, x) <==> seg.pa / 512 <= x / 512 && x / 512 * 512 < seg.pa + seg.memsz
  {
  }

  // Each byte of an aligned segment comes from its place on the disk, where the image follows the boot sector.
  lemma SegmentOnDisk(disk: Disk, seg: Seg, x: nat)
    requires seg.pa % 512 == seg.offset % 512 && seg.pa <= x < seg.pa + seg.memsz
    ensures Writes(seg, x) && Image(disk, Source(seg, x)) == disk(512 + seg.offset + (x - seg.pa))
  {
    WritesIff(seg, x);
    assert Aligned(seg);
    AlignedShift(seg);
  }

  // An aligned segment holds its bytes of the disk; outside the sectors that it touches, memory is as before.
  ghost predicate CopiedFromDisk(before: seq<uint8>, after: seq<uint8>, disk: Disk, start: nat, count: nat, from: nat) {
    && start + count <= |before| == |after|
    && (start % 512 == from % 512 ==>
          forall x: nat :: start <= x < start + count ==> after[x] == disk(512 + from + (x - start)))
    && (forall x: nat :: x < |after| && !(start / 512 <= x / 512 && x / 512 * 512 < start + count) ==>
          after[x] == before[x])
  }

  lemma LoadedBytes(before: seq<uint8>, disk: Disk, seg: Seg)
    requires Fits(seg, |before|)
    ensures CopiedFromDisk(before, LoadSeg(before, disk, seg), disk, seg.pa, seg.memsz, seg.offset)
  {
    FitsEnd(seg, |before|);
    forall x: nat | seg.pa <= x < seg.pa + seg.memsz && seg.pa % 512 == seg.offset % 512
      ensures LoadSeg(before, disk, seg)[x] == disk(512 + seg.offset + (x - seg.pa))
    {
      SegmentOnDisk(disk, seg, x);
    }
    forall x: nat | x < |before| && !(seg.pa / 512 <= x / 512 && x / 512 * 512 < seg.pa + seg.memsz)
      ensures LoadSeg(before, disk, seg)[x] == before[x]
    {
      WritesIff(seg, x);
    }
  }

  method Readseg(mem: array<uint8>, disk: Disk, start: uint32, count: uint32, from: uint32)
    requires Fits(Seg(start, count, from), mem.Length)
    modifies mem
    ensures mem[..] == LoadSeg(old(mem[..]), disk, Seg(start, count, from))
    ensures CopiedFromDisk(old(mem[..]), mem[..], disk, start, count, from)
  {
    var endPa := start + count;
    var pa := RoundDown(start);
    var offset := from / 512 + 1;
    ghost var low, base := pa, RoundDown(from);
    while pa < endPa
      invariant low <= pa && (pa == low || pa <= RoundUp(endPa)) && pa % 512 == 0
      invariant 512 * offset == 512 + base + (pa - low)
      invariant forall x :: 0 <= x < mem.Length ==>
        mem[x] == if low <= x < pa then Image(disk, base + (x - low)) else old(mem[x])
    {
      SectorFits(pa, endPa);
      Readsect(mem, disk, pa, offset);
      pa := pa + SECTSIZE;
      offset := offset + 1;
    }
    SectorsDone(Seg(start, count, from), pa);
    LoadedBytes(old(mem[..]), disk, Seg(start, count, from));
    assert mem[..] == LoadSeg(old(mem[..]), disk, Seg(start, count, from));
  }

  // ------------------------------------------------------------------
  // What loading a list of segments leaves in memory
  // ------------------------------------------------------------------

  // The last of the first n segments that writes address x, or -1.
  function LastWriter(segs: seq<Seg>, n: nat, x: nat): (j: int)
    requires n <= |segs|
    ensures -1 <= j < n
    ensures j >= 0 ==> Writes(segs[j], x)
    ensures forall k :: j < k < n ==> !Writes(segs[k], x)
  {
    if n == 0 then -1 else if Writes(segs[n - 1], x) then n - 1 else LastWriter(segs, n - 1, x)
  }

  function ByteAfter(before: seq<uint8>, disk: Disk, segs: seq<Seg>, n: nat, x: nat): uint8
    requires n <= |segs| && x < |before|
  {
    var j := LastWriter(segs, n, x);
    if j < 0 then before[x] else Image(disk, Source(segs[j], x))
  }

  // Address x belongs to segment i.
  predicate Holds(segs: seq<Seg>, i: nat, x: nat)
    requires i < |segs|
  {
    segs[i].pa <= x < End(segs[i])
  }

  // The image byte that belongs at address x of segment i.
  function Wanted(segs: seq<Seg>, i: nat, x: nat): nat
    requires i < |segs| && Holds(segs, i, x)
  {
    segs[i].offset + (x - segs[i].pa)
  }

  // The image byte that ends up there.
  function Got(segs: seq<Seg>, i: nat, x: nat): nat
    requires i < |segs| && Holds(segs, i, x)
  {
    var j := LastWriter(segs, |segs|, x);
    Source(segs[j], x)
  }

  // At every byte of every segment, the last segment to write it takes it from where it should come from.
  ghost predicate Consistent(segs: seq<Seg>) {
    forall i, x | 0 <= i < |segs| && Holds(segs, i, x) :: Got(segs, i, x) == Wanted(segs, i, x)
  }

  // The image is aligned with memory.
  predicate Aligned(seg: Seg) {
    seg.pa % 512 == seg.offset % 512
  }

  // Loading 'later' does not disturb 'earlier': its sectors start above it, or end below it, or hold
  // the same part of the image.
  predicate Undisturbed(earlier: Seg, later: Seg) {
    || End(earlier) <= RoundDown(later.pa)
    || RoundUp(End(later)) <= earlier.pa
    || earlier.pa - earlier.offset == later.pa - later.offset
  }

  lemma PairwiseSuffices(segs: seq<Seg>)
    requires forall i :: 0 <= i < |segs| ==> Aligned(segs[i])
    requires forall i, j :: 0 <= i < j < |segs| ==> Undisturbed(segs[i], segs[j])
    ensures Consistent(segs)
  {
    forall i, x | 0 <= i < |segs| && Holds(segs, i, x) ensures Got(segs, i, x) == Wanted(segs, i, x) {
      var j := LastWriter(segs, |segs|, x);
      assert Writes(segs[i], x);
      assert i <= j;
      AlignedShift(segs[j]);
      assert i < j ==> Undisturbed(segs[i], segs[j]);
    }
  }

  lemma AlignedShift(seg: Seg)
    requires Aligned(seg)
    ensures seg.pa - RoundDown(seg.pa) == seg.offset - RoundDown(seg.offset)
  {
  }

  // The segments are not empty, and each ends before the next begins.
  predicate Increasing(segs: seq<Seg>) {
    && (forall i :: 0 <= i < |segs| ==> segs[i].memsz > 0)
    && (forall i, j :: 0 <= i < j < |segs| ==> End(segs[i]) <= segs[j].pa)
  }

  // Whole sectors come from whole sectors.
  lemma ConsistentAligned(segs: seq<Seg>, i: nat)
    requires Increasing(segs) && Consistent(segs) && i < |segs|
    ensures Aligned(segs[i])
  {
    var x := segs[i].pa;
    assert Writes(segs[i], x);
    assert Holds(segs, i, x) && Got(segs, i, x) == Wanted(segs, i, x);
    var last := segs[LastWriter(segs, |segs|, x)];
    SectorsApart(x, segs[i].offset, RoundDown(last.pa), RoundDown(last.offset));
  }

  lemma SectorsApart(x: nat, y: nat, a: nat, b: nat)
    requires a % 512 == 0 && b % 512 == 0 && y == b + (x - a)
    ensures x % 512 == y % 512
  {
  }

  // A later segment that writes the last byte of segment i shares its placement, if no other does so later.
  lemma OverlapShares(segs: seq<Seg>, i: nat, k: nat)
    requires Increasing(segs) && Consistent(segs) && i < |segs| && k < |segs|
    requires LastWriter(segs, |segs|, End(segs[i]) - 1) == k
    ensures segs[i].pa - segs[i].offset == segs[k].pa - segs[k].offset
  {
    var x := End(segs[i]) - 1;
    assert Holds(segs, i, x) && Got(segs, i, x) == Wanted(segs, i, x);
    ConsistentAligned(segs, k);
    AlignedShift(segs[k]);
  }

  // The segments that write a byte below them are those that begin in its sector; so the last of them also
  // writes the bytes above it in that sector.
  lemma SameSector(segs: seq<Seg>, x: nat, y: nat, k: nat)
    requires Increasing(segs) && k < |segs| && LastWriter(segs, |segs|, x) == k && x <= y < segs[k].pa
    ensures LastWriter(segs, |segs|, y) == k
  {
    WritesAbove(segs[k], x, y);
    var m := LastWriter(segs, |segs|, y);
    if k < m {
      WritesBelow(segs[k], segs[m], x, y);
    }
  }

  lemma WritesAbove(seg: Seg, x: nat, y: nat)
    requires Writes(seg, x) && x <= y < seg.pa
    ensures Writes(seg, y)
  {
  }

  lemma WritesBelow(first: Seg, second: Seg, x: nat, y: nat)
    requires Writes(first, x) && Writes(second, y) && x <= y < first.pa <= second.pa
    ensures Writes(second, x)
  {
    assert RoundDown(second.pa) == RoundDown(first.pa);
  }

  lemma ConsistentUndisturbed(segs: seq<Seg>, i: nat, j: nat)
    requires Increasing(segs) && Consistent(segs) && i < j < |segs|
    ensures Undisturbed(segs[i], segs[j])
  {
    var x, y := End(segs[i]) - 1, End(segs[j]) - 1;
    if RoundDown(segs[j].pa) <= x {
      assert Writes(segs[j], x);
      var k := LastWriter(segs, |segs|, x);
      OverlapShares(segs, i, k);
      if j < k {
        SameSector(segs, x, y, k);
        OverlapShares(segs, j, k);
      }
    }
  }

  // Segments in increasing order are loaded rightly if and only if each is aligned with the image, and each
  // later one starts its sectors above each earlier one or shares its placement.
  lemma IncreasingIff(segs: seq<Seg>)
    requires Increasing(segs)
    ensures Consistent(segs)
       <==> (forall i :: 0 <= i < |segs| ==> Aligned(segs[i]))
            && (forall i, j :: 0 <= i < j < |segs| ==> Undisturbed(segs[i], segs[j]))
  {
    if Consistent(segs) {
      forall i | 0 <= i < |segs| ensures Aligned(segs[i]) {
        ConsistentAligned(segs, i);
      }
      forall i, j | 0 <= i < j < |segs| ensures Undisturbed(segs[i], segs[j]) {
        ConsistentUndisturbed(segs, i, j);
      }
    } else {
      assert !(forall i :: 0 <= i < |segs| ==> Aligned(segs[i]))
          || !(forall i, j :: 0 <= i < j < |segs| ==> Undisturbed(segs[i], segs[j])) by {
        if (forall i :: 0 <= i < |segs| ==> Aligned(segs[i]))
           && forall i, j :: 0 <= i < j < |segs| ==> Undisturbed(segs[i], segs[j]) {
          PairwiseSuffices(segs);
        }
      }
    }
  }

  // "We load in increasing order" is not enough: a segment that starts in the middle of a sector
  // overwrites the end of the segment below it.
  lemma IncreasingIsNotEnough()
    ensures var segs := [Seg(0, 700, 0), Seg(700, 10, 2236)];
      Aligned(segs[0]) && Aligned(segs[1]) && End(segs[0]) <= segs[1].pa && !Consistent(segs)
  {
    var segs := [Seg(0, 700, 0), Seg(700, 10, 2236)];
    assert RoundDown(700) == 512 && RoundUp(710) == 1024;
    assert Writes(segs[1], 600);
    assert LastWriter(segs, 2, 600) == 1;
    assert RoundDown(2236) == 2048;
    assert Holds(segs, 0, 600) && Got(segs, 0, 600) == 2136 && Wanted(segs, 0, 600) == 600;
  }

  // ------------------------------------------------------------------
  // bootmain
  // ------------------------------------------------------------------

  const ELF_MAGIC := 0x464C457F
  const E_ENTRY := 24
  const E_PHOFF := 28
  const E_PHNUM := 44
  const PROGHDR_SIZE := 32

  function Little(b0: uint8, b1: uint8, b2: uint8, b3: uint8): uint32 {
    b0 + 0x100 * b1 + 0x1_0000 * b2 + 0x100_0000 * b3
  }

  function WordAt(m: seq<uint8>, a: nat): uint32
    requires a + 4 <= |m|
  {
    Little(m[a], m[a + 1], m[a + 2], m[a + 3])
  }

  // The program header at an address.
  function SegAt(m: seq<uint8>, ph: nat): Seg
    requires ph + PROGHDR_SIZE <= |m|
  {
    Seg(WordAt(m, ph + 12), WordAt(m, ph + 20), WordAt(m, ph + 4))
  }

  function HeaderAddr(first: nat, j: nat): nat {
    first + 32 * j
  }

  predicate InHeader(first: nat, j: nat, x: nat) {
    HeaderAddr(first, j) <= x < HeaderAddr(first, j) + PROGHDR_SIZE
  }

  // The segment is not loaded over the header of a later one.
  ghost predicate SparesHeaders(first: nat, segs: seq<Seg>, i: nat)
    requires i < |segs|
  {
    forall j, x: nat :: i < j < |segs| && InHeader(first, j, x) ==> !Writes(segs[i], x)
  }

  // The first n segments fit, and spare the headers.
  ghost predicate Loadable(first: nat, segs: seq<Seg>, n: nat, size: nat)
    requires n <= |segs|
  {
    n > 0 ==> Loadable(first, segs, n - 1, size) && Fits(segs[n - 1], size) && SparesHeaders(first, segs, n - 1)
  }

  lemma {:induction false} LoadableAt(first: nat, segs: seq<Seg>, n: nat, size: nat, i: nat)
    requires i < n <= |segs| && Loadable(first, segs, n, size)
    ensures Fits(segs[i], size) && SparesHeaders(first, segs, i)
    decreases n
  {
    if i >= n - 1 {
    } else {
      LoadableAt(first, segs, n - 1, size, i);
    }
  }

  // 'page' is memory once the first page of the image has been read.
  ghost predicate HasPage(page: seq<uint8>, disk: Disk) {
    && |page| >= 0x11000
    && forall x {:trigger page[x]} :: 0x10000 <= x < 0x11000 ==> page[x] == disk(512 + (x - 0x10000))
  }

  lemma PageIsLoaded(before: seq<uint8>, page: seq<uint8>, disk: Disk)
    requires |before| >= ELFHDR + ELF_PAGE && page == LoadSeg(before, disk, Seg(ELFHDR, ELF_PAGE, 0))
    ensures HasPage(page, disk)
  {
    assert RoundDown(ELFHDR) == ELFHDR && RoundUp(ELFHDR + ELF_PAGE) == ELFHDR + ELF_PAGE && RoundDown(0) == 0;
  }

  // The header table, as the ELF header in the page gives it.
  function First(page: seq<uint8>): nat
    requires |page| >= ELFHDR + ELF_PAGE
  {
    ELFHDR + WordAt(page, ELFHDR + E_PHOFF)
  }

  function Count(page: seq<uint8>): nat
    requires |page| >= ELFHDR + ELF_PAGE
  {
    var low: int, high: int := page[ELFHDR + E_PHNUM], page[ELFHDR + E_PHNUM + 1];
    low + 0x100 * high
  }

  ghost predicate HeaderIs(page: seq<uint8>, first: nat, segs: seq<Seg>, j: nat) {
    j < |segs| && HeaderAddr(first, j) + PROGHDR_SIZE <= |page| && segs[j] == SegAt(page, HeaderAddr(first, j))
  }

  // Header i can be read from m.  (Stated as a quantifier so that its bytes come into play only on demand.)
  ghost predicate Readable(m: seq<uint8>, first: nat, segs: seq<Seg>, i: nat) {
    forall j :: j == i ==> HeaderIs(m, first, segs, j)
  }

  // The header table at 'first' lists segs.
  ghost predicate Declares(page: seq<uint8>, first: nat, segs: seq<Seg>) {
    forall j :: 0 <= j < |segs| ==> HeaderIs(page, first, segs, j)
  }

  // Memory once n segments have been loaded.
  function Memory(page: seq<uint8>, disk: Disk, segs: seq<Seg>, n: nat): (m: seq<uint8>)
    requires n <= |segs|
    ensures |m| == |page|
  {
    if n == 0 then page else LoadSeg(Memory(page, disk, segs, n - 1), disk, segs[n - 1])
  }

  // At every address it holds what the last segment to write it put there.
  lemma {:induction false} MemoryAt(page: seq<uint8>, disk: Disk, segs: seq<Seg>, n: nat, x: nat)
    requires n <= |segs| && x < |page|
    ensures Memory(page, disk, segs, n)[x] == ByteAfter(page, disk, segs, n, x)
  {
    if n == 0 {
    } else {
      MemoryAt(page, disk, segs, n - 1, x);
    }
  }

  // The header of a segment that is yet to be loaded is as it was.
  lemma HeaderIntact(page: seq<uint8>, disk: Disk, first: nat, segs: seq<Seg>, i: nat)
    requires i < |segs| && Declares(page, first, segs)
    requires Loadable(first, segs, |segs|, |page|)
    ensures Fits(segs[i], |page|) && Readable(Memory(page, disk, segs, i), first, segs, i)
  {
    LoadableAt(first, segs, |segs|, |page|, i);
    assert HeaderIs(page, first, segs, i);
    var ph, now := HeaderAddr(first, i), Memory(page, disk, segs, i);
    forall x: nat | ph <= x < ph + PROGHDR_SIZE ensures now[x] == page[x] {
      assert InHeader(first, i, x);
      forall k | 0 <= k < i ensures !Writes(segs[k], x) {
        LoadableAt(first, segs, |segs|, |page|, k);
      }
      assert LastWriter(segs, i, x) == -1;
      MemoryAt(page, disk, segs, i, x);
    }
    SameBytesSameSeg(page, now, ph);
  }

  lemma SameBytesSameSeg(a: seq<uint8>, b: seq<uint8>, ph: nat)
    requires ph + PROGHDR_SIZE <= |a| == |b| && forall x: nat :: ph <= x < ph + PROGHDR_SIZE ==> b[x] == a[x]
    ensures SegAt(b, ph) == SegAt(a, ph)
  {
  }

  // Every byte of every segment is in place: the image begins after the boot sector.
  ghost predicate Placed(now: seq<uint8>, disk: Disk, segs: seq<Seg>) {
    forall i, x: nat | 0 <= i < |segs| && Holds(segs, i, x) ::
      x < |now| && now[x] == disk(512 + segs[i].offset + (x - segs[i].pa))
  }

  // Each byte of a segment comes from the image, where its last writer takes it from.
  lemma SegmentByte(page: seq<uint8>, disk: Disk, segs: seq<Seg>, i: nat, x: nat)
    requires i < |segs| && Holds(segs, i, x) && Fits(segs[i], |page|)
    ensures x < |page| && Memory(page, disk, segs, |segs|)[x] == Image(disk, Got(segs, i, x))
  {
    assert Writes(segs[i], x);
    MemoryAt(page, disk, segs, |segs|, x);
  }

  lemma GotWanted(segs: seq<Seg>, i: nat, x: nat)
    requires Consistent(segs) && i < |segs| && Holds(segs, i, x)
    ensures Got(segs, i, x) == segs[i].offset + (x - segs[i].pa)
  {
    assert Got(segs, i, x) == Wanted(segs, i, x);
  }

  lemma ImageOnDisk(disk: Disk, k: nat, offset: nat, shift: nat)
    requires k == offset + shift
    ensures Image(disk, k) == disk(512 + offset + shift)
  {
  }

  lemma PlacedByte(page: seq<uint8>, disk: Disk, segs: seq<Seg>, i: nat, x: nat)
    requires Consistent(segs) && i < |segs| && Holds(segs, i, x) && Fits(segs[i], |page|)
    ensures x < |page| && Memory(page, disk, segs, |segs|)[x] == disk(512 + segs[i].offset + (x - segs[i].pa))
  {
    GotWanted(segs, i, x);
    ImageOnDisk(disk, Got(segs, i, x), segs[i].offset, x - segs[i].pa);
    SegmentByte(page, disk, segs, i, x);
  }

  lemma ConsistentIsPlaced(page: seq<uint8>, disk: Disk, segs: seq<Seg>)
    requires Consistent(segs) && forall i :: 0 <= i < |segs| ==> Fits(segs[i], |page|)
    ensures Placed(Memory(page, disk, segs, |segs|), disk, segs)
  {
    var now := Memory(page, disk, segs, |segs|);
    forall i, x: nat | 0 <= i < |segs| && Holds(segs, i, x)
      ensures x < |now| && now[x] == disk(512 + segs[i].offset + (x - segs[i].pa))
    {
      PlacedByte(page, disk, segs, i, x);
    }
  }

  ghost predicate AlwaysPlaced(segs: seq<Seg>, size: nat) {
    forall disk: Disk, page: seq<uint8> | |page| == size :: Placed(Memory(page, disk, segs, |segs|), disk, segs)
  }

  // Loading leaves every segment in place, whatever the disk and memory held, exactly when, at every byte,
  // the last segment to write it takes it from the right offset.
  lemma PlacedIff(segs: seq<Seg>, size: nat)
    requires forall i :: 0 <= i < |segs| ==> Fits(segs[i], size)
    ensures AlwaysPlaced(segs, size) <==> Consistent(segs)
  {
    if Consistent(segs) {
      forall disk: Disk, page: seq<uint8> | |page| == size
        ensures Placed(Memory(page, disk, segs, |segs|), disk, segs)
      {
        ConsistentIsPlaced(page, disk, segs);
      }
    } else {
      var i, x :| 0 <= i < |segs| && Holds(segs, i, x) && Got(segs, i, x) != Wanted(segs, i, x);
      var disk: Disk := k => if k == SECTSIZE + Got(segs, i, x) then 1 else 0;
      var page: seq<uint8> := seq(size, _ => 0);
      SegmentByte(page, disk, segs, i, x);
      assert !Placed(Memory(page, disk, segs, |segs|), disk, segs);
    }
  }

  ghost predicate ZeroIn(now: seq<uint8>, lo: nat, hi: nat)
    requires hi <= |now|
  {
    forall x: nat :: lo <= x < hi ==> now[x] == 0
  }

  ghost predicate ZeroOnDisk(disk: Disk, lo: nat, hi: nat) {
    forall k: nat :: lo <= k < hi ==> disk(k) == 0
  }

  // All of p_memsz is read from the image, so memory past p_filesz is zero exactly if the image is zero there.
  lemma TailZeroIff(page: seq<uint8>, disk: Disk, segs: seq<Seg>, i: nat, filesz: nat)
    requires Consistent(segs) && i < |segs| && filesz <= segs[i].memsz
    requires Fits(segs[i], |page|)
    ensures End(segs[i]) <= |page|
    ensures ZeroIn(Memory(page, disk, segs, |segs|), segs[i].pa + filesz, End(segs[i]))
       <==> ZeroOnDisk(disk, 512 + segs[i].offset + filesz, 512 + segs[i].offset + segs[i].memsz)
  {
    LoadedSegment(page, disk, segs, i);
    SameZeros(Memory(page, disk, segs, |segs|), disk, segs[i], filesz);
  }

  lemma FitsEnd(seg: Seg, size: nat)
    requires Fits(seg, size)
    ensures End(seg) <= size
  {
  }

  lemma LoadedSegment(page: seq<uint8>, disk: Disk, segs: seq<Seg>, i: nat)
    requires Consistent(segs) && i < |segs| && Fits(segs[i], |page|)
    ensures End(segs[i]) <= |page| && HoldsSegment(Memory(page, disk, segs, |segs|), disk, segs[i])
  {
    FitsEnd(segs[i], |page|);
    forall x: nat | segs[i].pa <= x < End(segs[i])
      ensures Memory(page, disk, segs, |segs|)[x] == disk(512 + segs[i].offset + (x - segs[i].pa))
    {
      PlacedByte(page, disk, segs, i, x);
    }
  }

  ghost predicate HoldsSegment(now: seq<uint8>, disk: Disk, seg: Seg)
    requires End(seg) <= |now|
  {
    forall x: nat :: seg.pa <= x < End(seg) ==> now[x] == disk(512 + seg.offset + (x - seg.pa))
  }

  lemma SameZeros(now: seq<uint8>, disk: Disk, seg: Seg, filesz: nat)
    requires filesz <= seg.memsz && End(seg) <= |now|
    requires HoldsSegment(now, disk, seg)
    ensures ZeroIn(now, seg.pa + filesz, End(seg))
       <==> ZeroOnDisk(disk, 512 + seg.offset + filesz, 512 + seg.offset + seg.memsz)
  {
    if ZeroIn(now, seg.pa + filesz, End(seg)) {
      forall k: nat | 512 + seg.offset + filesz <= k < 512 + seg.offset + seg.memsz ensures disk(k) == 0 {
        assert now[seg.pa + (k - 512 - seg.offset)] == 0;
      }
    }
  }

  method LoadWord(mem: array<uint8>, a: nat) returns (w: uint32)
    requires a + 4 <= mem.Length
    ensures w == WordAt(mem[..], a)
  {
    w := Little(mem[a], mem[a + 1], mem[a + 2], mem[a + 3]);
  }

  // The header of the next segment, read from memory when its turn comes.
  method LoadHeader(mem: array<uint8>, ph: nat, ghost first: nat, ghost segs: seq<Seg>, ghost i: nat) returns (seg: Seg)
    requires Readable(mem[..], first, segs, i) && ph == HeaderAddr(first, i)
    ensures i < |segs| && seg == segs[i]
  {
    assert HeaderIs(mem[..], first, segs, i);
    var offset := LoadWord(mem, ph + 4);
    var pa := LoadWord(mem, ph + 12);
    var memsz := LoadWord(mem, ph + 20);
    seg := Seg(pa, memsz, offset);
  }

  method LoadSegments(mem: array<uint8>, disk: Disk, first: nat, count: nat, ghost segs: seq<Seg>)
    requires count == |segs| && Declares(mem[..], first, segs)
    requires Loadable(first, segs, |segs|, mem.Length)
    modifies mem
    ensures mem[..] == Memory(old(mem[..]), disk, segs, |segs|)
  {
    ghost var page, i := mem[..], 0;
    var ph, eph := first, HeaderAddr(first, count);
    while ph < eph
      invariant 0 <= i <= |segs| && ph == HeaderAddr(first, i)
      invariant mem[..] == Memory(page, disk, segs, i)
    {
      HeaderIntact(page, disk, first, segs, i);
      var seg := LoadHeader(mem, ph, first, segs, i);
      Readseg(mem, disk, seg.pa, seg.memsz, seg.offset);
      ph, i := ph + PROGHDR_SIZE, i + 1;
    }
    assert i == |segs|;
  }

  // The segments that the ELF header in the page leads to.
  function Segments(page: seq<uint8>): (segs: seq<Seg>)
    requires |page| >= ELFHDR + ELF_PAGE && HeaderAddr(First(page), Count(page)) <= |page|
    ensures |segs| == Count(page)
  {
    seq(Count(page), i requires 0 <= i < Count(page) => SegAt(page, HeaderAddr(First(page), i)))
  }

  lemma SegmentsDeclared(page: seq<uint8>)
    requires |page| >= ELFHDR + ELF_PAGE && HeaderAddr(First(page), Count(page)) <= |page|
    ensures Declares(page, First(page), Segments(page))
  {
  }

  // If the page starts an ELF image, the headers are in the page and can be loaded.
  ghost predicate Bootable(page: seq<uint8>)
    requires |page| >= ELFHDR + ELF_PAGE
  {
    WordAt(page, ELFHDR) == ELF_MAGIC ==>
      && HeaderAddr(First(page), Count(page)) <= ELFHDR + ELF_PAGE
      && Loadable(First(page), Segments(page), Count(page), |page|)
  }

  // A little-endian word.
  predicate IsWord(w: int, b0: int, b1: int, b2: int, b3: int) {
    w == b0 + 0x100 * b1 + 0x1_0000 * b2 + 0x100_0000 * b3
  }

  ghost predicate IsWordOnDisk(w: int, disk: Disk, k: nat) {
    IsWord(w, disk(k), disk(k + 1), disk(k + 2), disk(k + 3))
  }

  // The segments are those that the ELF header, at the start of sector 1, and the program headers declare.
  ghost predicate DeclaredOnDisk(page: seq<uint8>, disk: Disk)
    requires |page| >= ELFHDR + ELF_PAGE && HeaderAddr(First(page), Count(page)) <= |page|
  {
    && IsWordOnDisk(First(page) - 0x10000, disk, 512 + 28)
    && IsWord(|Segments(page)|, disk(512 + 44), disk(512 + 45), 0, 0)
    && forall i :: 0 <= i < |Segments(page)| ==>
         var seg, header := Segments(page)[i], 512 + (First(page) - 0x10000) + 32 * i;
         && IsWordOnDisk(seg.offset, disk, header + 4)
         && IsWordOnDisk(seg.pa, disk, header + 12)
         && IsWordOnDisk(seg.memsz, disk, header + 20)
  }

  lemma HeadersOnDisk(page: seq<uint8>, disk: Disk)
    requires HasPage(page, disk) && HeaderAddr(First(page), Count(page)) <= ELFHDR + ELF_PAGE
    ensures DeclaredOnDisk(page, disk)
  {
    PageWord(page, disk, ELFHDR + E_PHOFF);
    forall i | 0 <= i < |Segments(page)|
      ensures var seg, header := Segments(page)[i], 512 + (First(page) - 0x10000) + 32 * i;
        && IsWordOnDisk(seg.offset, disk, header + 4)
        && IsWordOnDisk(seg.pa, disk, header + 12)
        && IsWordOnDisk(seg.memsz, disk, header + 20)
    {
      var ph := HeaderAddr(First(page), i);
      PageWord(page, disk, ph + 4);
      PageWord(page, disk, ph + 12);
      PageWord(page, disk, ph + 20);
    }
  }

  lemma PageWord(page: seq<uint8>, disk: Disk, a: nat)
    requires HasPage(page, disk) && 0x10000 <= a && a + 4 <= 0x11000
    ensures IsWordOnDisk(WordAt(page, a), disk, 512 + (a - 0x10000))
  {
    assert page[a] == disk(512 + (a - 0x10000));
    assert page[a + 1] == disk(512 + (a + 1 - 0x10000));
    assert page[a + 2] == disk(512 + (a + 2 - 0x10000));
    assert page[a + 3] == disk(512 + (a + 3 - 0x10000));
  }

  // The magic number is 0x7f, E, L, F.
  lemma MagicOnDisk(page: seq<uint8>, disk: Disk)
    requires HasPage(page, disk)
    ensures WordAt(page, ELFHDR) == ELF_MAGIC
       <==> disk(512) == 0x7f && disk(513) == 0x45 && disk(514) == 0x4c && disk(515) == 0x46
  {
    PageWord(page, disk, 0x10000);
  }

  // Memory holds, at every address, what the last segment to write it put there; so every segment is in
  // place if the segments are consistent.
  ghost predicate KernelLoaded(page: seq<uint8>, now: seq<uint8>, disk: Disk)
    requires |page| >= ELFHDR + ELF_PAGE
  {
    && HeaderAddr(First(page), Count(page)) <= |page|
    && DeclaredOnDisk(page, disk)
    && now == Memory(page, disk, Segments(page), Count(page))
    && (Consistent(Segments(page)) ==> Placed(now, disk, Segments(page)))
  }

  lemma KernelIsLoaded(page: seq<uint8>, disk: Disk)
    requires HasPage(page, disk) && WordAt(page, ELFHDR) == ELF_MAGIC && Bootable(page)
    ensures KernelLoaded(page, Memory(page, disk, Segments(page), Count(page)), disk)
  {
    var segs := Segments(page);
    HeadersOnDisk(page, disk);
    if Consistent(segs) {
      forall i | 0 <= i < |segs| ensures Fits(segs[i], |page|) {
        LoadableAt(First(page), segs, |segs|, |page|, i);
      }
      ConsistentIsPlaced(page, disk, segs);
    }
  }

  method LoadKernel(mem: array<uint8>, disk: Disk)
    requires mem.Length >= ELFHDR + ELF_PAGE
    requires HeaderAddr(First(mem[..]), Count(mem[..])) <= mem.Length
    requires Loadable(First(mem[..]), Segments(mem[..]), Count(mem[..]), mem.Length)
    modifies mem
    ensures mem[..] == Memory(old(mem[..]), disk, Segments(old(mem[..])), Count(old(mem[..])))
  {
    SegmentsDeclared(mem[..]);
    var phoff := LoadWord(mem, ELFHDR + E_PHOFF);
    var low: int, high: int := mem[ELFHDR + E_PHNUM], mem[ELFHDR + E_PHNUM + 1];
    LoadSegments(mem, disk, ELFHDR + phoff, low + 0x100 * high, Segments(mem[..]));
  }

  method Bootmain(mem: array<uint8>, disk: Disk) returns (ok: bool, entry: uint32, ghost page: seq<uint8>)
    requires ELFHDR + ELF_PAGE <= mem.Length < TWO_TO_32
    requires forall page | |page| == mem.Length && HasPage(page, disk) :: Bootable(page)
    modifies mem
    ensures page == LoadSeg(old(mem[..]), disk, Seg(ELFHDR, ELF_PAGE, 0)) && HasPage(page, disk)
    ensures ok <==> disk(512) == 0x7f && disk(513) == 0x45 && disk(514) == 0x4c && disk(515) == 0x46
    ensures !ok ==> mem[..] == page
    ensures ok ==> KernelLoaded(page, mem[..], disk)
    ensures ok ==> IsWord(entry, mem[0x10018], mem[0x10019], mem[0x1001a], mem[0x1001b])
  {
    entry := 0;
    Readseg(mem, disk, ELFHDR, ELF_PAGE, 0);
    page := mem[..];
    PageIsLoaded(old(mem[..]), page, disk);
    assert Bootable(page);
    MagicOnDisk(page, disk);
    var magic := LoadWord(mem, ELFHDR);
    if magic != ELF_MAGIC {
      return false, entry, page;
    }
    KernelIsLoaded(page, disk);
    LoadKernel(mem, disk);
    entry := LoadWord(mem, ELFHDR + E_ENTRY);
    ok := true;
  }
}
