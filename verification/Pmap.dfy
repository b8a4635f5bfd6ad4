// The free list of physical pages: page_init and the partition in check_page_free_list (kern/pmap.c).
// A pointer into the pages array is the index of the page.
module Pmap {
  import opened Machine

  const NPDENTRIES := 1024
  const PTSIZE := 0x40_0000
  const PGSIZE := 0x1000
  const MAX_PAGES := 0x10_0000  // physical addresses have 32 bits

  type PagePtr = Option<nat>

  datatype PageInfo = PageInfo(link: PagePtr, refs: uint16)

  // Where a pointer to a link points: a local variable, or the pp_link field of a page.
  datatype Slot = Local | LinkOf(page: nat)

  function Page2pa(page: nat): nat {
    page * PGSIZE
  }

  // The directory index of an address that is held as an integer.
  function DirectoryIndex(pa: nat): nat {
    pa / PTSIZE % NPDENTRIES
  }

  // The pages that entry_pgdir does not map: it covers the first directory entry only.
  predicate IsHigh(page: nat) {
    page >= 1024
  }

  lemma HighPages(page: nat)
    requires page < MAX_PAGES
    ensures IsHigh(page) <==> DirectoryIndex(Page2pa(page)) >= 1
  {
  }

  // ------------------------------------------------------------------
  // Lists
  // ------------------------------------------------------------------

  // Following the links from 'head' visits exactly the pages of s, in that order, and then ends.
  ghost predicate IsList(pages: seq<PageInfo>, head: PagePtr, s: seq<nat>) {
    && head == (if s == [] then None else Some(s[0]))
    && (forall i :: 0 <= i < |s| ==> s[i] < |pages|)
    && (forall i :: 0 <= i < |s| - 1 ==> pages[s[i]].link == Some(s[i + 1]))
    && (s != [] ==> pages[s[|s| - 1]].link == None)
  }

  ghost predicate Distinct(s: seq<nat>) {
    forall i, j :: 0 <= i < j < |s| ==> s[i] != s[j]
  }

  // A list that ends visits no page twice.
  lemma ListDistinct(pages: seq<PageInfo>, head: PagePtr, s: seq<nat>)
    requires IsList(pages, head, s)
    ensures Distinct(s)
  {
    forall i, j | 0 <= i < j < |s| ensures s[i] != s[j] {
      if s[i] == s[j] {
        Lockstep(pages, head, s, i, j);
      }
    }
  }

  lemma {:induction false} Lockstep(pages: seq<PageInfo>, head: PagePtr, s: seq<nat>, i: nat, j: nat)
    requires IsList(pages, head, s) && i < j < |s| && s[i] == s[j]
    ensures false
    decreases |s| - j
  {
    assert pages[s[i]].link == Some(s[i + 1]);
    if j + 1 >= |s| {
    } else {
      assert pages[s[j]].link == Some(s[j + 1]);
      Lockstep(pages, head, s, i + 1, j + 1);
    }
  }

  // The pages of one class, in their order in s.
  function Select(s: seq<nat>, high: bool): seq<nat> {
    if s == [] then []
    else (if IsHigh(s[0]) == high then [s[0]] else []) + Select(s[1..], high)
  }

  function Partitioned(s: seq<nat>): seq<nat> {
    Select(s, false) + Select(s, true)
  }

  lemma {:induction false} SelectConcat(a: seq<nat>, b: seq<nat>, high: bool)
    ensures Select(a + b, high) == Select(a, high) + Select(b, high)
  {
    if a == [] {
      assert a + b == b;
    } else {
      SelectConcat(a[1..], b, high);
      assert (a + b)[1..] == a[1..] + b;
      var first := if IsHigh(a[0]) == high then [a[0]] else [];
      assert first + (Select(a[1..], high) + Select(b, high)) == (first + Select(a[1..], high)) + Select(b, high);
    }
  }

  lemma SelectNext(s: seq<nat>, i: nat, high: bool)
    requires i < |s|
    ensures Select(s[..i + 1], high) == Select(s[..i], high) + if IsHigh(s[i]) == high then [s[i]] else []
  {
    SelectConcat(s[..i], [s[i]], high);
    assert s[..i + 1] == s[..i] + [s[i]];
  }

  lemma {:induction false} SelectMembers(s: seq<nat>, high: bool)
    ensures forall x :: x in Select(s, high) <==> x in s && IsHigh(x) == high
    ensures Distinct(s) ==> Distinct(Select(s, high))
  {
    if s == [] {
    } else {
      SelectMembers(s[1..], high);
      assert s == [s[0]] + s[1..];
      if Distinct(s) {
        assert s[0] !in s[1..];
      }
    }
  }

  // No page is lost or duplicated.
  lemma {:induction false} PartitionPermutes(s: seq<nat>)
    ensures multiset(Partitioned(s)) == multiset(s)
  {
    if s == [] {
    } else {
      PartitionPermutes(s[1..]);
      assert s == [s[0]] + s[1..];
    }
  }

  // The low pages come first.
  lemma PartitionSeparates(s: seq<nat>)
    ensures var r, k := Partitioned(s), |Select(s, false)|;
      && |r| == |s|
      && (forall i :: 0 <= i < |s| ==> (IsHigh(r[i]) <==> i >= k))
  {
    PartitionPermutes(s);
    assert |multiset(Partitioned(s))| == |multiset(s)|;
    SelectMembers(s, false);
    SelectMembers(s, true);
    var r, k := Partitioned(s), |Select(s, false)|;
    forall i | 0 <= i < |r| ensures IsHigh(r[i]) <==> i >= k {
      assert r[i] in Select(s, i >= k);
    }
  }

  // ------------------------------------------------------------------
  // The page array and its free list
  // ------------------------------------------------------------------

  // One of the two lists under construction: its first page and the slot for the next one.
  ghost predicate Threaded(pages: seq<PageInfo>, head: PagePtr, tail: Slot, t: seq<nat>) {
    && (forall i :: 0 <= i < |t| ==> t[i] < |pages|)
    && (forall i :: 0 <= i < |t| - 1 ==> pages[t[i]].link == Some(t[i + 1]))
    && tail == (if t == [] then Local else LinkOf(t[|t| - 1]))
    && (t != [] ==> head == Some(t[0]))
  }

  // *slot = value, for a slot that may be the local variable 'head' or the link of a page.
  function StoreLink(pages: seq<PageInfo>, slot: Slot, value: PagePtr): seq<PageInfo>
    requires slot.LinkOf? ==> slot.page < |pages|
  {
    if slot.Local? then pages else pages[slot.page := pages[slot.page].(link := value)]
  }

  function StoreHead(head: PagePtr, slot: Slot, value: PagePtr): PagePtr {
    if slot.Local? then value else head
  }

  // Only links have changed, and only those of pages in s.
  ghost predicate OnlyLinks(before: seq<PageInfo>, now: seq<PageInfo>, s: seq<nat>) {
    && |now| == |before|
    && forall i :: 0 <= i < |now| ==> now[i].refs == before[i].refs && (i !in s ==> now[i] == before[i])
  }

  // Storing through one tail adds a page to that list and leaves the other list and the page itself alone.
  lemma PutPage(pages: seq<PageInfo>, head: PagePtr, tail: Slot, t: seq<nat>,
                head': PagePtr, tail': Slot, t': seq<nat>, page: nat)
    requires Threaded(pages, head, tail, t) && Threaded(pages, head', tail', t')
    requires Distinct(t) && (forall x :: x in t ==> x !in t') && page < |pages| && page !in t
    ensures tail.LinkOf? ==> tail.page in t && tail.page < |pages|
    ensures var pages' := StoreLink(pages, tail, Some(page));
      && Threaded(pages', StoreHead(head, tail, Some(page)), LinkOf(page), t + [page])
      && Threaded(pages', head', tail', t')
      && OnlyLinks(pages, pages', t) && pages'[page] == pages[page]
  {
  }

  // Ending a list with another list that has no page in common with it.
  lemma Splice(pages: seq<PageInfo>, head: PagePtr, tail: Slot, t: seq<nat>, next: PagePtr, t': seq<nat>)
    requires Threaded(pages, head, tail, t) && IsList(pages, next, t')
    requires Distinct(t) && (forall x :: x in t ==> x !in t')
    ensures tail.LinkOf? ==> tail.page in t && tail.page < |pages|
    ensures IsList(StoreLink(pages, tail, next), StoreHead(head, tail, next), t + t')
    ensures OnlyLinks(pages, StoreLink(pages, tail, next), t)
  {
    var pages', s := StoreLink(pages, tail, next), t + t';
    forall i | 0 <= i < |s| - 1 ensures s[i] < |pages'| && pages'[s[i]].link == Some(s[i + 1]) {
      if i >= |t| {
        assert s[i] == t'[i - |t|] && s[i] !in t && s[i + 1] == t'[i - |t| + 1];
        assert pages[t'[i - |t|]].link == Some(t'[i - |t| + 1]);
      } else if i + 1 < |t| {
        assert pages[t[i]].link == Some(t[i + 1]) && t[i] != t[|t| - 1];
      } else {
        assert s[i] == t[|t| - 1] && s[i + 1] == t'[0];
      }
    }
    if t' != [] {
      assert s[|s| - 1] == t'[|t'| - 1];
    }
  }

  lemma ThreadKeeps(pages: seq<PageInfo>, head: PagePtr, tail: Slot, t: seq<nat>, slot: Slot, value: PagePtr)
    requires Threaded(pages, head, tail, t)
    requires slot.LinkOf? ==> slot.page < |pages| && slot.page !in t
    ensures Threaded(StoreLink(pages, slot, value), head, tail, t)
  {
  }

  class PageMap {
    const pages: array<PageInfo>
    var freeList: PagePtr

    constructor (npages: nat)
      ensures pages.Length == npages && freeList == None
    {
      pages := new PageInfo[npages](_ => PageInfo(None, 0));
      freeList := None;
    }

    // Puts every page at the front of the free list in turn.
    method PageInit()
      modifies this, pages
      ensures forall i :: 0 <= i < pages.Length ==>
        pages[i] == PageInfo(if i == 0 then old(freeList) else Some(i - 1), 0)
      ensures freeList == if pages.Length == 0 then old(freeList) else Some(pages.Length - 1)
    {
      for i := 0 to pages.Length
        invariant forall k :: 0 <= k < i ==> pages[k] == PageInfo(if k == 0 then old(freeList) else Some(k - 1), 0)
        invariant freeList == if i == 0 then old(freeList) else Some(i - 1)
      {
        pages[i] := PageInfo(freeList, 0);
        freeList := Some(i);
      }
    }

    method Store(slot: Slot, value: PagePtr)
      requires slot.LinkOf? ==> slot.page < pages.Length
      modifies pages
      ensures pages[..] == StoreLink(old(pages[..]), slot, value)
    {
      if slot.LinkOf? {
        pages[slot.page] := pages[slot.page].(link := value);
      }
    }

    // Moves the low pages of the free list before the high ones, by relinking it in one pass.
    method PartitionLowFirst(ghost s: seq<nat>)
      requires pages.Length <= MAX_PAGES
      requires IsList(pages[..], freeList, s)
      modifies this, pages
      ensures IsList(pages[..], freeList, Partitioned(s))
      ensures OnlyLinks(old(pages[..]), pages[..], s)
    {
      ListDistinct(pages[..], freeList, s);
      var pp1: PagePtr, pp2: PagePtr := *, *;
      var tp0, tp1 := Local, Local;
      var pp := freeList;
      ghost var n, before, now := 0, pages[..], pages[..];
      while pp.Some?
        invariant n <= |s| && pp == if n < |s| then Some(s[n]) else None
        invariant now == pages[..]
        invariant Progress(before, now, s, n, pp1, tp0, pp2, tp1)
        decreases |s| - n
      {
        var page := pp.value;
        HighPages(page);
        if DirectoryIndex(Page2pa(page)) >= 1 {
          ProgressHigh(before, now, s, n, pp1, tp0, pp2, tp1);
          Store(tp1, pp);
          now := StoreLink(now, tp1, pp);
          if tp1.Local? { pp2 := pp; }
          tp1 := LinkOf(page);
        } else {
          ProgressLow(before, now, s, n, pp1, tp0, pp2, tp1);
          Store(tp0, pp);
          now := StoreLink(now, tp0, pp);
          if tp0.Local? { pp1 := pp; }
          tp0 := LinkOf(page);
        }
        n := n + 1;
        pp := pages[page].link;
      }
      ProgressEnds(before, now, s, pp1, tp0, pp2, tp1);
      Store(tp1, None);
      if tp1.Local? { pp2 := None; }
      Store(tp0, pp2);
      if tp0.Local? { pp1 := pp2; }
      freeList := pp1;
    }
  }

  // The first n pages of the list are threaded on the two new lists; the others are as they were.
  ghost predicate Progress(before: seq<PageInfo>, now: seq<PageInfo>, s: seq<nat>, n: nat,
                           pp1: PagePtr, tp0: Slot, pp2: PagePtr, tp1: Slot)
  {
    && n <= |s|
    && OnlyLinks(before, now, s[..n])
    && Threaded(now, pp1, tp0, Select(s[..n], false))
    && Threaded(now, pp2, tp1, Select(s[..n], true))
  }

  lemma ChangesAdd(a: seq<PageInfo>, b: seq<PageInfo>, c: seq<PageInfo>, s: seq<nat>, t: seq<nat>, u: seq<nat>)
    requires OnlyLinks(a, b, s) && OnlyLinks(b, c, t)
    requires (forall x :: x in s ==> x in u) && (forall x :: x in t ==> x in u)
    ensures OnlyLinks(a, c, u)
  {
  }

  // What Select says about the pages before the nth.
  lemma Classes(s: seq<nat>, n: nat, high: bool)
    requires Distinct(s) && n < |s|
    ensures s[n] !in s[..n] && (forall x :: x in s[..n] ==> x in s[..n + 1])
    ensures var t := Select(s[..n], high);
      && Distinct(t) && s[n] !in t
      && (forall x :: x in t ==> x in s[..n] && x !in Select(s[..n], !high))
      && Select(s[..n + 1], high) == t + if IsHigh(s[n]) == high then [s[n]] else []
  {
    assert Distinct(s[..n]);
    SelectMembers(s[..n], high);
    SelectMembers(s[..n], !high);
    SelectNext(s, n, high);
  }

  lemma ProgressHigh(before: seq<PageInfo>, now: seq<PageInfo>, s: seq<nat>, n: nat,
                     pp1: PagePtr, tp0: Slot, pp2: PagePtr, tp1: Slot)
    requires Distinct(s) && n < |s| && s[n] < |now| && IsHigh(s[n])
    requires Progress(before, now, s, n, pp1, tp0, pp2, tp1)
    ensures tp1.LinkOf? ==> tp1.page < |now|
    ensures var now' := StoreLink(now, tp1, Some(s[n]));
      && Progress(before, now', s, n + 1, pp1, tp0, StoreHead(pp2, tp1, Some(s[n])), LinkOf(s[n]))
      && now'[s[n]] == before[s[n]]
  {
    var lows, highs := Select(s[..n], false), Select(s[..n], true);
    Classes(s, n, false);
    Classes(s, n, true);
    assert Select(s[..n + 1], false) == lows && Select(s[..n + 1], true) == highs + [s[n]];
    PutPage(now, pp2, tp1, highs, pp1, tp0, lows, s[n]);
    ChangesAdd(before, now, StoreLink(now, tp1, Some(s[n])), s[..n], highs, s[..n + 1]);
  }

  lemma ProgressLow(before: seq<PageInfo>, now: seq<PageInfo>, s: seq<nat>, n: nat,
                    pp1: PagePtr, tp0: Slot, pp2: PagePtr, tp1: Slot)
    requires Distinct(s) && n < |s| && s[n] < |now| && !IsHigh(s[n])
    requires Progress(before, now, s, n, pp1, tp0, pp2, tp1)
    ensures tp0.LinkOf? ==> tp0.page < |now|
    ensures var now' := StoreLink(now, tp0, Some(s[n]));
      && Progress(before, now', s, n + 1, StoreHead(pp1, tp0, Some(s[n])), LinkOf(s[n]), pp2, tp1)
      && now'[s[n]] == before[s[n]]
  {
    var lows, highs := Select(s[..n], false), Select(s[..n], true);
    Classes(s, n, false);
    Classes(s, n, true);
    assert Select(s[..n + 1], true) == highs && Select(s[..n + 1], false) == lows + [s[n]];
    PutPage(now, pp1, tp0, lows, pp2, tp1, highs, s[n]);
    ChangesAdd(before, now, StoreLink(now, tp0, Some(s[n])), s[..n], lows, s[..n + 1]);
  }

  // The two final stores, on the threads of two disjoint lists.
  lemma JoinThreads(now: seq<PageInfo>, pp1: PagePtr, tp0: Slot, lows: seq<nat>,
                    pp2: PagePtr, tp1: Slot, highs: seq<nat>)
    requires Threaded(now, pp1, tp0, lows) && Threaded(now, pp2, tp1, highs)
    requires Distinct(lows) && Distinct(highs) && forall x :: x in lows ==> x !in highs
    ensures tp0.LinkOf? ==> tp0.page in lows && tp0.page < |now|
    ensures tp1.LinkOf? ==> tp1.page in highs && tp1.page < |now|
    ensures var high, ended := StoreHead(pp2, tp1, None), StoreLink(now, tp1, None);
      && IsList(StoreLink(ended, tp0, high), StoreHead(pp1, tp0, high), lows + highs)
      && OnlyLinks(now, ended, highs) && OnlyLinks(ended, StoreLink(ended, tp0, high), lows)
  {
    Splice(now, pp2, tp1, highs, None, []);
    assert highs + [] == highs;
    ThreadKeeps(now, pp1, tp0, lows, tp1, None);
    Splice(StoreLink(now, tp1, None), pp1, tp0, lows, StoreHead(pp2, tp1, None), highs);
  }

  lemma ProgressEnds(before: seq<PageInfo>, now: seq<PageInfo>, s: seq<nat>,
                     pp1: PagePtr, tp0: Slot, pp2: PagePtr, tp1: Slot)
    requires Distinct(s) && Progress(before, now, s, |s|, pp1, tp0, pp2, tp1)
    ensures tp0.LinkOf? ==> tp0.page < |now|
    ensures tp1.LinkOf? ==> tp1.page < |now|
    ensures var high := StoreHead(pp2, tp1, None);
      var end := StoreLink(StoreLink(now, tp1, None), tp0, high);
      IsList(end, StoreHead(pp1, tp0, high), Partitioned(s)) && OnlyLinks(before, end, s)
  {
    assert s[..|s|] == s;
    SelectMembers(s, false);
    SelectMembers(s, true);
    var high, ended := StoreHead(pp2, tp1, None), StoreLink(now, tp1, None);
    JoinThreads(now, pp1, tp0, Select(s, false), pp2, tp1, Select(s, true));
    ChangesAdd(before, now, ended, s, Select(s, true), s);
    ChangesAdd(before, ended, StoreLink(ended, tp0, high), s, Select(s, false), s);
  }

  // ------------------------------------------------------------------
  // The list that mem_init builds
  // ------------------------------------------------------------------

  // hi - 1, hi - 2, ..., lo
  function Countdown(hi: nat, lo: nat): (s: seq<nat>)
    ensures |s| == if hi > lo then hi - lo else 0
    ensures forall i :: 0 <= i < |s| ==> s[i] == hi - 1 - i
  {
    if hi <= lo then [] else [hi - 1] + Countdown(hi - 1, lo)
  }

  // page_init, started with an empty list, leaves all pages free, the last one first.
  lemma InitialList(pages: seq<PageInfo>, head: PagePtr)
    requires forall i :: 0 <= i < |pages| ==> pages[i] == PageInfo(if i == 0 then None else Some(i - 1), 0)
    requires head == if |pages| == 0 then None else Some(|pages| - 1)
    ensures IsList(pages, head, Countdown(|pages|, 0))
  {
    var s := Countdown(|pages|, 0);
    forall i | 0 <= i < |s| - 1 ensures pages[s[i]].link == Some(s[i + 1]) {
      assert s[i] == |pages| - 1 - i && s[i + 1] == s[i] - 1;
    }
    if s != [] {
      assert s[0] == |pages| - 1 && s[|s| - 1] == 0;
    }
  }

  // Partitioned, the list runs down from the last low page to page 0, and then from the last page to page 1024.
  lemma {:induction false} InitialPartition(npages: nat)
    ensures Partitioned(Countdown(npages, 0))
         == Countdown(if npages < 1024 then npages else 1024, 0) + Countdown(npages, 1024)
  {
    CountdownSelect(npages, false);
    CountdownSelect(npages, true);
  }

  lemma {:induction false} CountdownSelect(n: nat, high: bool)
    ensures Select(Countdown(n, 0), high)
         == if high then Countdown(n, 1024) else Countdown(if n < 1024 then n else 1024, 0)
  {
    if n == 0 {
    } else {
      CountdownSelect(n - 1, high);
    }
  }
}
