// Address arithmetic (inc/mmu.h) and check_va2pa (kern/pmap.c).
module Mmu {
  import opened Machine

  const PTE_P: word := 0x001
  const PTE_PS: word := 0x080
  const KERNBASE: word := 0xf000_0000
  const NOT_MAPPED: word := 0xffff_ffff

  function Pgnum(la: word): word { la >> 12 }
  function Pdx(la: word): word { (la >> 22) & 0x3ff }
  function Ptx(la: word): word { (la >> 12) & 0x3ff }
  function Pgoff(la: word): word { la & 0xfff }
  function Pgaddr(d: word, t: word, o: word): word { (d << 22) | (t << 12) | o }
  function PteAddr(pte: word): word { pte & 0xffff_f000 }

  lemma PgaddrJoins(la: word)
    ensures Pgaddr(Pdx(la), Ptx(la), Pgoff(la)) == la
  {
  }

  lemma PgaddrSplits(d: word, t: word, o: word)
    requires d < 1024 && t < 1024 && o < 4096
    ensures var la := Pgaddr(d, t, o); Pdx(la) == d && Ptx(la) == t && Pgoff(la) == o
  {
  }

  // The contents of a page directory or a page table, by index, and of every frame of physical memory that
  // holds one.  A directory is a frame like the others, and it may well serve as one of its own tables.
  type Entries = word -> word
  type Frames = word -> Entries

  // KADDR panics when the page table lies beyond physical memory.
  datatype Translation = Panicked | Address(pa: word)

  // 'dir' is the frame of the directory.
  function CheckVa2pa(frames: Frames, dir: word, npages: word, va: word): Translation {
    Translate(frames(dir)(Pdx(va)), frames, npages, va)
  }

  function Translate(pde: word, frames: Frames, npages: word, va: word): Translation {
    if pde & PTE_P == 0 then
      Address(NOT_MAPPED)
    else if pde & PTE_PS != 0 then
      Address(Pgaddr(Pdx(pde), Ptx(va), Pgoff(va)))
    else if Pgnum(PteAddr(pde)) >= npages then
      Panicked
    else
      var pte := frames(PteAddr(pde))(Ptx(va));
      Address(if pte & PTE_P == 0 then NOT_MAPPED else PteAddr(pte))
  }

  // ------------------------------------------------------------------
  // What check_va2pa returns
  // ------------------------------------------------------------------

  // The entries that the processor would use for va, with the bits written out.
  function DirectoryEntry(frames: Frames, dir: word, va: word): word {
    frames(dir)((va >> 22) & 0x3ff)
  }

  function TableEntry(frames: Frames, dir: word, va: word): word {
    frames(DirectoryEntry(frames, dir, va) & 0xffff_f000)((va >> 12) & 0x3ff)
  }

  // The three ways in which an address can be mapped or not.
  predicate IsUnmapped(frames: Frames, dir: word, npages: word, va: word) {
    var pde := DirectoryEntry(frames, dir, va);
    || pde & 0x1 == 0
    || (pde & 0x80 == 0 && pde >> 12 < npages && TableEntry(frames, dir, va) & 0x1 == 0)
  }

  predicate IsBeyond(frames: Frames, dir: word, npages: word, va: word) {
    var pde := DirectoryEntry(frames, dir, va);
    pde & 0x1 != 0 && pde & 0x80 == 0 && pde >> 12 >= npages
  }

  predicate IsInLargePage(frames: Frames, dir: word, va: word) {
    var pde := DirectoryEntry(frames, dir, va);
    pde & 0x1 != 0 && pde & 0x80 != 0
  }

  lemma PtePage(pte: word)
    ensures Pgnum(PteAddr(pte)) == pte >> 12
  {
  }

  lemma LargeBits(pde: word, va: word)
    ensures Pgaddr(Pdx(pde), Ptx(va), Pgoff(va)) == (pde & 0xffc0_0000) | (va & 0x3f_ffff)
  {
  }

  // The entries are those that the model reads.
  lemma EntriesRead(frames: Frames, dir: word, npages: word, va: word)
    ensures CheckVa2pa(frames, dir, npages, va) == Translate(DirectoryEntry(frames, dir, va), frames, npages, va)
    ensures TableEntry(frames, dir, va) == frames(PteAddr(DirectoryEntry(frames, dir, va)))(Ptx(va))
  {
  }

  lemma TranslatesEntry(frames: Frames, pde: word, npages: word, va: word)
    ensures pde & 0x1 == 0 ==> Translate(pde, frames, npages, va) == Address(0xffff_ffff)
    ensures pde & 0x1 != 0 && pde & 0x80 != 0 ==>
      Translate(pde, frames, npages, va) == Address(Pgaddr(Pdx(pde), Ptx(va), Pgoff(va)))
    ensures pde & 0x1 != 0 && pde & 0x80 == 0 ==>
      Translate(pde, frames, npages, va) ==
        if Pgnum(PteAddr(pde)) >= npages then Panicked
        else Address(if frames(PteAddr(pde))(Ptx(va)) & 0x1 == 0 then 0xffff_ffff
                     else frames(PteAddr(pde))(Ptx(va)) & 0xffff_f000)
  {
  }

  // It panics exactly if the table lies beyond memory.
  lemma PanicsIff(frames: Frames, dir: word, npages: word, va: word)
    ensures CheckVa2pa(frames, dir, npages, va) == Panicked <==> IsBeyond(frames, dir, npages, va)
  {
    EntriesRead(frames, dir, npages, va);
    TranslatesEntry(frames, DirectoryEntry(frames, dir, va), npages, va);
    PtePage(DirectoryEntry(frames, dir, va));
  }

  lemma UnmappedGives(frames: Frames, dir: word, npages: word, va: word)
    requires IsUnmapped(frames, dir, npages, va)
    ensures CheckVa2pa(frames, dir, npages, va) == Address(0xffff_ffff)
  {
    EntriesRead(frames, dir, npages, va);
    TranslatesEntry(frames, DirectoryEntry(frames, dir, va), npages, va);
    PtePage(DirectoryEntry(frames, dir, va));
  }

  // In a large page, it returns the byte.
  lemma LargeGives(frames: Frames, dir: word, npages: word, va: word)
    requires IsInLargePage(frames, dir, va)
    ensures CheckVa2pa(frames, dir, npages, va)
         == Address((DirectoryEntry(frames, dir, va) & 0xffc0_0000) | (va & 0x3f_ffff))
  {
    EntriesRead(frames, dir, npages, va);
    TranslatesEntry(frames, DirectoryEntry(frames, dir, va), npages, va);
    LargeBits(DirectoryEntry(frames, dir, va), va);
  }

  // In every other case, the frame.
  lemma SmallGives(frames: Frames, dir: word, npages: word, va: word)
    requires !IsBeyond(frames, dir, npages, va) && !IsUnmapped(frames, dir, npages, va)
    requires !IsInLargePage(frames, dir, va)
    ensures CheckVa2pa(frames, dir, npages, va) == Address(TableEntry(frames, dir, va) & 0xffff_f000)
  {
    EntriesRead(frames, dir, npages, va);
    TranslatesEntry(frames, DirectoryEntry(frames, dir, va), npages, va);
    PtePage(DirectoryEntry(frames, dir, va));
  }

  // The last byte of the last large page of physical memory.
  predicate IsLastByte(frames: Frames, dir: word, va: word) {
    DirectoryEntry(frames, dir, va) >> 22 == 0x3ff && va & 0x3f_ffff == 0x3f_ffff
  }

  // 0xffffffff means that the address is not mapped, but for the last byte of physical memory, which a large
  // page can map; at a page boundary it always does.
  lemma UnmappedIff(frames: Frames, dir: word, npages: word, va: word)
    ensures CheckVa2pa(frames, dir, npages, va) == Address(0xffff_ffff)
       <==> IsUnmapped(frames, dir, npages, va) || (IsInLargePage(frames, dir, va) && IsLastByte(frames, dir, va))
    ensures va & 0xfff == 0 ==> !IsLastByte(frames, dir, va)
  {
    LastByte(DirectoryEntry(frames, dir, va), va);
    if IsUnmapped(frames, dir, npages, va) {
      UnmappedGives(frames, dir, npages, va);
    } else if IsBeyond(frames, dir, npages, va) {
      PanicsIff(frames, dir, npages, va);
    } else if IsInLargePage(frames, dir, va) {
      LargeGives(frames, dir, npages, va);
    } else {
      SmallGives(frames, dir, npages, va);
      FrameIsMapped(TableEntry(frames, dir, va));
    }
  }

  lemma LastByte(pde: word, va: word)
    ensures (pde & 0xffc0_0000) | (va & 0x3f_ffff) == 0xffff_ffff
       <==> pde >> 22 == 0x3ff && va & 0x3f_ffff == 0x3f_ffff
    ensures va & 0xfff == 0 ==> va & 0x3f_ffff != 0x3f_ffff
  {
  }

  lemma FrameIsMapped(pte: word)
    ensures pte & 0xffff_f000 != 0xffff_ffff
  {
  }

  // ------------------------------------------------------------------
  // Large pages
  // ------------------------------------------------------------------

  // Memory after a store to entry d of the directory.
  function WithEntry(frames: Frames, dir: word, d: word, pde: word): Frames {
    f => if f == dir then (i => if i == d then pde else frames(dir)(i)) else frames(f)
  }

  // The entry refers to a page table in memory.
  predicate IsTable(pde: word, npages: word) {
    pde & PTE_P != 0 && pde & PTE_PS == 0 && Pgnum(PteAddr(pde)) < npages
  }

  predicate HasTable(frames: Frames, dir: word, npages: word, d: word) {
    d < 1024 && IsTable(frames(dir)(d), npages)
  }

  predicate IsLarge(pde: word) {
    pde & PTE_P != 0 && pde & PTE_PS != 0
  }

  // The entry maps frame t of the 4 MB that the large entry maps.
  predicate MapsFrame(pte: word, big: word, t: word) {
    pte & PTE_P != 0 && PteAddr(pte) == Pgaddr(Pdx(big), t, 0)
  }

  // The table of entry d maps the 4 MB that the large entry maps, all of its frames and in order.
  ghost predicate MapsAll(frames: Frames, dir: word, d: word, big: word) {
    forall t: word | t < 1024 :: MapsFrame(frames(PteAddr(frames(dir)(d)))(t), big, t)
  }

  // An entry other than d makes the directory one of its own tables, as the entry for UVPT does.
  predicate IsSelf(frames: Frames, dir: word, npages: word, d: word, i: word) {
    var pde := frames(dir)(i);
    i < 1024 && i != d && IsTable(pde, npages) && PteAddr(pde) == dir
  }

  // The translation of va reads entry d of the directory as an entry of a table.
  predicate ReadsAsTable(frames: Frames, dir: word, npages: word, d: word, va: word) {
    IsSelf(frames, dir, npages, d, Pdx(va)) && Ptx(va) == d
  }

  ghost predicate SelfMapped(frames: Frames, dir: word, npages: word, d: word) {
    exists i: word :: IsSelf(frames, dir, npages, d, i)
  }

  ghost predicate SameTranslation(frames: Frames, dir: word, npages: word, d: word, big: word, va: word) {
    CheckVa2pa(WithEntry(frames, dir, d, big), dir, npages, va) == CheckVa2pa(frames, dir, npages, va)
  }

  lemma PgaddrIsFrame(d: word, t: word)
    ensures Pgaddr(d, t, 0) != NOT_MAPPED
  {
  }

  lemma StoredEntry(frames: Frames, dir: word, d: word, pde: word, f: word, i: word)
    ensures WithEntry(frames, dir, d, pde)(f)(i) == if f == dir && i == d then pde else frames(f)(i)
  {
  }

  lemma LargeAt(frames: Frames, dir: word, npages: word, d: word, big: word, va: word)
    requires IsLarge(big) && Pdx(va) == d
    ensures CheckVa2pa(WithEntry(frames, dir, d, big), dir, npages, va) == Address(Pgaddr(Pdx(big), Ptx(va), Pgoff(va)))
  {
    StoredEntry(frames, dir, d, big, dir, d);
  }

  lemma SmallAt(frames: Frames, dir: word, npages: word, va: word)
    requires HasTable(frames, dir, npages, Pdx(va))
    ensures var pte := frames(PteAddr(frames(dir)(Pdx(va))))(Ptx(va));
      CheckVa2pa(frames, dir, npages, va) == Address(if pte & PTE_P == 0 then NOT_MAPPED else PteAddr(pte))
  {
  }

  // Addresses of other directory entries are unaffected, unless they are translated through the directory itself.
  lemma OtherAt(frames: Frames, dir: word, npages: word, d: word, big: word, va: word)
    requires Pdx(va) != d && !ReadsAsTable(frames, dir, npages, d, va)
    ensures SameTranslation(frames, dir, npages, d, big, va)
  {
    FieldsInRange(va);
    var pde := frames(dir)(Pdx(va));
    StoredEntry(frames, dir, d, big, dir, Pdx(va));
    StoredEntry(frames, dir, d, big, PteAddr(pde), Ptx(va));
  }

  // Through the directory, the address of the table is seen, and then that of the large page.
  lemma SelfMapShows(frames: Frames, dir: word, npages: word, d: word, big: word, va: word)
    requires HasTable(frames, dir, npages, d) && IsLarge(big) && ReadsAsTable(frames, dir, npages, d, va)
    ensures CheckVa2pa(frames, dir, npages, va) == Address(PteAddr(frames(dir)(d)))
    ensures CheckVa2pa(WithEntry(frames, dir, d, big), dir, npages, va) == Address(PteAddr(big))
  {
    StoredEntry(frames, dir, d, big, dir, Pdx(va));
    StoredEntry(frames, dir, d, big, dir, d);
  }

  lemma BoundaryIff(frames: Frames, dir: word, npages: word, d: word, big: word, va: word)
    requires HasTable(frames, dir, npages, d) && IsLarge(big) && Pgoff(va) == 0 && Pdx(va) == d
    ensures SameTranslation(frames, dir, npages, d, big, va)
       <==> MapsFrame(frames(PteAddr(frames(dir)(d)))(Ptx(va)), big, Ptx(va))
  {
    LargeAt(frames, dir, npages, d, big, va);
    SmallAt(frames, dir, npages, va);
    PgaddrIsFrame(Pdx(big), Ptx(va));
  }

  // Replacing a page table by a large page is invisible at every page boundary that is not translated
  // through the directory itself if and only if the table maps all frames of that large page in order.
  lemma LargePageIff(frames: Frames, dir: word, npages: word, d: word, big: word)
    requires HasTable(frames, dir, npages, d) && IsLarge(big)
    ensures (forall va: word | Pgoff(va) == 0 && !ReadsAsTable(frames, dir, npages, d, va) ::
              SameTranslation(frames, dir, npages, d, big, va))
       <==> MapsAll(frames, dir, d, big)
  {
    var same := forall va: word | Pgoff(va) == 0 && !ReadsAsTable(frames, dir, npages, d, va) ::
                  SameTranslation(frames, dir, npages, d, big, va);
    if same {
      forall t: word | t < 1024 ensures MapsFrame(frames(PteAddr(frames(dir)(d)))(t), big, t) {
        PgaddrSplits(d, t, 0);
        BoundaryIff(frames, dir, npages, d, big, Pgaddr(d, t, 0));
      }
    }
    if MapsAll(frames, dir, d, big) {
      forall va: word | Pgoff(va) == 0 && !ReadsAsTable(frames, dir, npages, d, va)
        ensures SameTranslation(frames, dir, npages, d, big, va)
      {
        FieldsInRange(va);
        if Pdx(va) == d {
          BoundaryIff(frames, dir, npages, d, big, va);
        } else {
          OtherAt(frames, dir, npages, d, big, va);
        }
      }
    }
  }

  // At an address that is translated through the directory, it is invisible if and only if the large page
  // begins in the frame that held the table.
  lemma SelfMapIff(frames: Frames, dir: word, npages: word, d: word, big: word, va: word)
    requires HasTable(frames, dir, npages, d) && IsLarge(big) && ReadsAsTable(frames, dir, npages, d, va)
    ensures SameTranslation(frames, dir, npages, d, big, va) <==> PteAddr(frames(dir)(d)) == PteAddr(big)
  {
    SelfMapShows(frames, dir, npages, d, big, va);
  }

  // So it is invisible at every page boundary of a directory that maps itself, as the kernel's does, only if
  // both hold.
  lemma InvisibleIff(frames: Frames, dir: word, npages: word, d: word, big: word)
    requires HasTable(frames, dir, npages, d) && IsLarge(big)
    ensures (forall va: word | Pgoff(va) == 0 :: SameTranslation(frames, dir, npages, d, big, va))
       <==> MapsAll(frames, dir, d, big)
            && (SelfMapped(frames, dir, npages, d) ==> PteAddr(frames(dir)(d)) == PteAddr(big))
  {
    LargePageIff(frames, dir, npages, d, big);
    forall va: word | ReadsAsTable(frames, dir, npages, d, va)
      ensures SelfMapped(frames, dir, npages, d)
      ensures SameTranslation(frames, dir, npages, d, big, va) <==> PteAddr(frames(dir)(d)) == PteAddr(big)
    {
      SelfMapIff(frames, dir, npages, d, big, va);
    }
    if SelfMapped(frames, dir, npages, d) {
      var i: word :| IsSelf(frames, dir, npages, d, i);
      PgaddrSplits(i, d, 0);
      assert ReadsAsTable(frames, dir, npages, d, Pgaddr(i, d, 0));
    }
  }

  lemma FieldsInRange(la: word)
    ensures Pdx(la) < 1024 && Ptx(la) < 1024 && Pgoff(la) < 4096
  {
  }

  // Off the page boundaries, the large page differs by the offset: check_va2pa returns the address of the
  // page for a small page, but the address of the byte for a large one.
  lemma LargePageOffset(frames: Frames, dir: word, npages: word, d: word, big: word, va: word)
    requires HasTable(frames, dir, npages, d) && IsLarge(big) && MapsAll(frames, dir, d, big)
    ensures var before := CheckVa2pa(frames, dir, npages, va);
      var after := CheckVa2pa(WithEntry(frames, dir, d, big), dir, npages, va);
      if Pdx(va) == d then before.Address? && after == Address(before.pa + Pgoff(va))
      else if ReadsAsTable(frames, dir, npages, d, va) then
        before == Address(PteAddr(frames(dir)(d))) && after == Address(PteAddr(big))
      else after == before
  {
    FieldsInRange(va);
    if Pdx(va) == d {
      LargeAt(frames, dir, npages, d, big, va);
      SmallAt(frames, dir, npages, va);
      OffsetAdds(Pdx(big), Ptx(va), va);
    } else if ReadsAsTable(frames, dir, npages, d, va) {
      SelfMapShows(frames, dir, npages, d, big, va);
    } else {
      OtherAt(frames, dir, npages, d, big, va);
    }
  }

  lemma OffsetAdds(d: word, t: word, va: word)
    ensures Pgaddr(d, t, Pgoff(va)) == Pgaddr(d, t, 0) + Pgoff(va)
  {
  }

  // The two checks made of a directory with large pages (that they are large, and where they point)
  // imply the check that all of physical memory is mapped at KERNBASE.
  lemma LargeChecksCoverMemory(frames: Frames, dir: word, npages: word, i: word)
    requires forall d: word | Pdx(KERNBASE) <= d < 1024 ::
      IsLarge(frames(dir)(d)) && PteAddr(frames(dir)(d)) == (d - Pdx(KERNBASE)) << 22
    requires i < 0x1000_0000
    ensures CheckVa2pa(frames, dir, npages, KERNBASE + i) == Address(i)
  {
    var va := KERNBASE + i;
    var d := Pdx(va);
    KernelDirectoryIndex(i);
    var pde := frames(dir)(d);
    assert IsLarge(pde) && PteAddr(pde) == (d - Pdx(KERNBASE)) << 22;
    LargeFrame(i, pde);
  }

  lemma KernelDirectoryIndex(i: word)
    requires i < 0x1000_0000
    ensures Pdx(KERNBASE) <= Pdx(KERNBASE + i) < 1024
  {
  }

  lemma LargeFrame(i: word, pde: word)
    requires i < 0x1000_0000
    requires PteAddr(pde) == (Pdx(KERNBASE + i) - Pdx(KERNBASE)) << 22
    ensures Pgaddr(Pdx(pde), Ptx(KERNBASE + i), Pgoff(KERNBASE + i)) == i
  {
  }
}
