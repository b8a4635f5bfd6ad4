// Symbol lookup in the STABS table (kern/kdebug.c).
module Kdebug {
  import opened Machine

  const N_FUN: uint8 := 0x24
  const N_SLINE: uint8 := 0x44
  const N_SO: uint8 := 0x64
  const N_SOL: uint8 := 0x84
  const N_PSYM: uint8 := 0xa0

  const ULIM: uint32 := 0xef80_0000

  datatype Stab = Stab(strx: uint32, kind: uint8, other: uint8, desc: uint16, value: uint32)

  // The pair of int cells that stab_binsearch reads and writes through its pointers.
  datatype Region = Region(left: int, right: int)

  // ------------------------------------------------------------------
  // Specification of stab_binsearch
  // ------------------------------------------------------------------

  predicate Within(stabs: seq<Stab>, lo: int, hi: int) {
    0 <= lo && hi < |stabs|
  }

  predicate IsAt(stabs: seq<Stab>, lo: int, hi: int, kind: uint8, k: int)
    requires Within(stabs, lo, hi)
  {
    lo <= k <= hi && stabs[k].kind == kind
  }

  ghost predicate Sorted(stabs: seq<Stab>, lo: int, hi: int, kind: uint8)
    requires Within(stabs, lo, hi)
  {
    forall i, j :: IsAt(stabs, lo, hi, kind, i) && IsAt(stabs, lo, hi, kind, j) && i < j
      ==> stabs[i].value <= stabs[j].value
  }

  // If some stab of this kind sits exactly at addr, then addr + 1 exists and no such stab sits there.
  ghost predicate NoClash(stabs: seq<Stab>, lo: int, hi: int, kind: uint8, addr: uint32)
    requires Within(stabs, lo, hi)
  {
    forall i :: IsAt(stabs, lo, hi, kind, i) && stabs[i].value == addr
      ==> addr + 1 < TWO_TO_32
          && forall j :: IsAt(stabs, lo, hi, kind, j) ==> stabs[j].value != addr + 1
  }

  ghost predicate Occurs(stabs: seq<Stab>, lo: int, hi: int, kind: uint8)
    requires Within(stabs, lo, hi)
  {
    exists k :: IsAt(stabs, lo, hi, kind, k)
  }

  // 'left' is the stab that contains addr, and 'right' lies just before the next stab of the kind.
  ghost predicate Contains(stabs: seq<Stab>, lo: int, hi: int, kind: uint8, addr: uint32, region: Region)
    requires Within(stabs, lo, hi)
  {
    && IsAt(stabs, lo, hi, kind, region.left)
    && stabs[region.left].value <= addr
    && region.left <= region.right <= hi
    && (forall k :: region.left < k <= region.right ==> stabs[k].kind != kind)
    && (region.right < hi ==> stabs[region.right + 1].kind == kind && stabs[region.right + 1].value > addr)
  }

  // Every outcome of a search of a sorted range.
  ghost predicate Brackets(stabs: seq<Stab>, lo: int, hi: int, kind: uint8, addr: uint32, region: Region)
    requires Within(stabs, lo, hi)
  {
    if !Occurs(stabs, lo, hi, kind) then
      region == Region(lo, lo - 1)
    else if exists k :: IsAt(stabs, lo, hi, kind, k) && stabs[k].value <= addr then
      Contains(stabs, lo, hi, kind, addr, region)
    else
      // every stab of the kind lies above addr: the search stops short of the first of them
      && IsAt(stabs, lo, hi, kind, region.right + 1)
      && (forall k :: lo <= k <= region.right ==> stabs[k].kind != kind)
      && region.left == if region.right < lo then region.right else lo
  }

  // The nearest stab of the kind at or below m; l - 1 if there is none in [l, m], m if m < l.
  function ScanLeft(stabs: seq<Stab>, l: int, m: int, kind: uint8): (k: int)
    requires Within(stabs, l, m)
    ensures k <= m && (l - 1 <= k || k == m)
    ensures k >= l ==> stabs[k].kind == kind
    ensures forall j :: k < j <= m ==> stabs[j].kind != kind
    decreases m - l + 1
  {
    if m < l || stabs[m].kind == kind then m else ScanLeft(stabs, l, m - 1, kind)
  }

  function Middle(l: int, r: int): (m: int)
    requires 0 <= l <= r
    ensures l <= m <= r
  {
    (l + r) / 2
  }

  // The variables of the search loop.
  datatype Search = Search(l: int, r: int, region: Region, anyMatches: bool, addr: uint32)

  predicate Sane(stabs: seq<Stab>, s: Search) {
    && 0 <= s.region.left <= s.l
    && s.r == s.region.right < |stabs|
  }

  function Step(stabs: seq<Stab>, kind: uint8, s: Search): (t: Search)
    requires Sane(stabs, s) && s.l <= s.r
    ensures Sane(stabs, t)
    ensures t.r - t.l < s.r - s.l
            || (t.r - t.l == s.r - s.l && stabs[s.l].value == s.addr && stabs[t.l].value != t.addr)
  {
    var trueM := Middle(s.l, s.r);
    var m := ScanLeft(stabs, s.l, trueM, kind);
    if m < s.l then
      s.(l := trueM + 1)
    else if stabs[m].value < s.addr then
      s.(l := trueM + 1, region := s.region.(left := m), anyMatches := true)
    else if stabs[m].value > s.addr then
      s.(r := m - 1, region := s.region.(right := m - 1), anyMatches := true)
    else
      s.(l := m, region := s.region.(left := m), anyMatches := true, addr := Succ32(s.addr))
  }

  predicate AtExactMatch(stabs: seq<Stab>, s: Search)
    requires Sane(stabs, s)
  {
    s.l <= s.r && stabs[s.l].value == s.addr
  }

  // The state in which the search loop ends.
  function Run(stabs: seq<Stab>, kind: uint8, s: Search): (t: Search)
    requires Sane(stabs, s)
    ensures Sane(stabs, t) && t.l > t.r
    decreases s.r - s.l, AtExactMatch(stabs, s)
  {
    if s.l > s.r then s else Run(stabs, kind, Step(stabs, kind, s))
  }

  function Start(lo: int, hi: int, addr: uint32): Search {
    Search(lo, hi, Region(lo, hi), false, addr)
  }

  function Finish(stabs: seq<Stab>, kind: uint8, s: Search): Region
    requires Sane(stabs, s)
  {
    if !s.anyMatches then
      Region(s.region.left, s.region.left - 1)
    else
      Region(ScanLeft(stabs, s.region.left + 1, s.region.right, kind), s.region.right)
  }

  function Binsearch(stabs: seq<Stab>, lo: int, hi: int, kind: uint8, addr: uint32): Region
    requires Within(stabs, lo, hi)
  {
    Finish(stabs, kind, Run(stabs, kind, Start(lo, hi, addr)))
  }

  // ------------------------------------------------------------------
  // stab_binsearch
  // ------------------------------------------------------------------

  // The two backward scans: from m down to the nearest stab of the kind, giving up below l.
  method ScanBack(stabs: seq<Stab>, l: int, m: int, kind: uint8) returns (k: int)
    requires Within(stabs, l, m)
    ensures k == ScanLeft(stabs, l, m, kind)
  {
    k := m;
    while k >= l && stabs[k].kind != kind
      invariant k <= m
      invariant ScanLeft(stabs, l, k, kind) == ScanLeft(stabs, l, m, kind)
    {
      k := k - 1;
    }
  }

  method StabBinsearch(stabs: seq<Stab>, regionLeft: int, regionRight: int, kind: uint8, addr: uint32)
    returns (left: int, right: int)
    requires Within(stabs, regionLeft, regionRight)
    ensures Region(left, right) == Binsearch(stabs, regionLeft, regionRight, kind, addr)
  {
    left, right := regionLeft, regionRight;
    var l, r, anyMatches, a := left, right, false, addr;
    ghost var s := Start(regionLeft, regionRight, addr);
    while l <= r
      invariant s == Search(l, r, Region(left, right), anyMatches, a)
      invariant Sane(stabs, s)
      invariant Run(stabs, kind, s) == Run(stabs, kind, Start(regionLeft, regionRight, addr))
      decreases r - l, AtExactMatch(stabs, s)
    {
      var trueM := Middle(l, r);
      var m := ScanBack(stabs, l, trueM, kind);
      s := Step(stabs, kind, s);
      if m < l {  // no match in [l, trueM]
        l := trueM + 1;
        continue;
      }
      anyMatches := true;
      if stabs[m].value < a {
        left := m;
        l := trueM + 1;
      } else if stabs[m].value > a {
        right := m - 1;
        r := m - 1;
      } else {
        left := m;
        l := m;
        a := Succ32(a);
      }
    }
    if !anyMatches {
      right := left - 1;
    } else {
      left := ScanBack(stabs, left + 1, right, kind);
    }
  }

  // ------------------------------------------------------------------
  // Every table, sorted or not
  // ------------------------------------------------------------------

  ghost predicate Explored(stabs: seq<Stab>, lo: int, hi: int, kind: uint8, s: Search)
    requires Within(stabs, lo, hi)
  {
    && Sane(stabs, s)
    && lo <= s.region.left && s.r <= hi
    && (s.anyMatches ==>
          && Occurs(stabs, lo, hi, kind)
          && s.region.left - 1 <= s.r
          && (s.r < lo ==> IsAt(stabs, lo, hi, kind, lo)))
    && (!s.anyMatches ==> s.region == Region(lo, hi) && forall k :: lo <= k < s.l && k <= hi ==> stabs[k].kind != kind)
  }

  lemma StepExplores(stabs: seq<Stab>, lo: int, hi: int, kind: uint8, s: Search)
    requires Within(stabs, lo, hi) && Explored(stabs, lo, hi, kind, s) && s.l <= s.r
    ensures Explored(stabs, lo, hi, kind, Step(stabs, kind, s))
  {
    var m := ScanLeft(stabs, s.l, Middle(s.l, s.r), kind);
    assert m >= s.l ==> IsAt(stabs, lo, hi, kind, m);
  }

  lemma {:induction false} RunExplores(stabs: seq<Stab>, lo: int, hi: int, kind: uint8, s: Search)
    requires Within(stabs, lo, hi) && Explored(stabs, lo, hi, kind, s)
    ensures Explored(stabs, lo, hi, kind, Run(stabs, kind, s))
    decreases s.r - s.l, AtExactMatch(stabs, s)
  {
    if s.l > s.r {
    } else {
      StepExplores(stabs, lo, hi, kind, s);
      RunExplores(stabs, lo, hi, kind, Step(stabs, kind, s));
    }
  }

  // left > right is returned exactly when the range holds no stab of the kind.  When it does hold one,
  // left may fall one short of the range, but only if the range starts with a stab of the kind.
  lemma SignalsAbsence(stabs: seq<Stab>, lo: int, hi: int, kind: uint8, addr: uint32)
    requires Within(stabs, lo, hi)
    ensures var region := Binsearch(stabs, lo, hi, kind, addr);
      && (region.left > region.right <==> !Occurs(stabs, lo, hi, kind))
      && (!Occurs(stabs, lo, hi, kind) ==> region == Region(lo, lo - 1))
      && (Occurs(stabs, lo, hi, kind) ==> lo - 1 <= region.left && region.right <= hi)
      && (region.left < lo ==> region.right == lo - 1 && IsAt(stabs, lo, hi, kind, lo))
  {
    RunExplores(stabs, lo, hi, kind, Start(lo, hi, addr));
  }

  // No stab of the kind sits at the last address, where addr++ would wrap to 0.
  ghost predicate NoneAtTop(stabs: seq<Stab>, lo: int, hi: int, kind: uint8)
    requires Within(stabs, lo, hi)
  {
    forall k :: IsAt(stabs, lo, hi, kind, k) ==> stabs[k].value + 1 < TWO_TO_32
  }

  ghost predicate Anchored(stabs: seq<Stab>, lo: int, hi: int, kind: uint8, s: Search)
    requires Within(stabs, lo, hi)
  {
    && Explored(stabs, lo, hi, kind, s)
    && (s.region.left == lo
        || (&& IsAt(stabs, lo, hi, kind, s.region.left)
            && s.region.left <= s.r
            && (s.region.left < s.l || stabs[s.region.left].value < s.addr)))
  }

  lemma {:induction false} RunAnchors(stabs: seq<Stab>, lo: int, hi: int, kind: uint8, s: Search)
    requires Within(stabs, lo, hi) && lo <= hi
    requires NoneAtTop(stabs, lo, hi, kind) && Anchored(stabs, lo, hi, kind, s)
    ensures Anchored(stabs, lo, hi, kind, Run(stabs, kind, s))
    decreases s.r - s.l, AtExactMatch(stabs, s)
  {
    if s.l > s.r {
    } else {
      var m := ScanLeft(stabs, s.l, Middle(s.l, s.r), kind);
      assert m >= s.l ==> IsAt(stabs, lo, hi, kind, m);
      RunAnchors(stabs, lo, hi, kind, Step(stabs, kind, s));
    }
  }

  // Unless addr++ can wrap, a stab other than the first of the range is returned only if it is of the kind.
  lemma FindsTheKind(stabs: seq<Stab>, lo: int, hi: int, kind: uint8, addr: uint32)
    requires Within(stabs, lo, hi) && NoneAtTop(stabs, lo, hi, kind)
    ensures var region := Binsearch(stabs, lo, hi, kind, addr);
      region.left > lo ==> IsAt(stabs, lo, hi, kind, region.left)
  {
    if lo <= hi {
      RunAnchors(stabs, lo, hi, kind, Start(lo, hi, addr));
    }
  }

  // The search stays in its range if the range begins with no stab of the kind, or with one at or below addr.
  lemma {:induction false} RunStays(stabs: seq<Stab>, lo: int, hi: int, kind: uint8, addr: uint32, s: Search)
    requires Within(stabs, lo, hi) && lo <= hi && NoneAtTop(stabs, lo, hi, kind)
    requires stabs[lo].kind == kind ==> stabs[lo].value <= addr
    requires Explored(stabs, lo, hi, kind, s) && lo <= s.r && addr <= s.addr
    ensures lo <= Run(stabs, kind, s).r
    decreases s.r - s.l, AtExactMatch(stabs, s)
  {
    if s.l > s.r {
    } else {
      var m := ScanLeft(stabs, s.l, Middle(s.l, s.r), kind);
      assert m >= s.l ==> IsAt(stabs, lo, hi, kind, m);
      StepExplores(stabs, lo, hi, kind, s);
      RunStays(stabs, lo, hi, kind, addr, Step(stabs, kind, s));
    }
  }

  lemma FirstStabStays(stabs: seq<Stab>, lo: int, hi: int, kind: uint8, addr: uint32)
    requires Within(stabs, lo, hi) && NoneAtTop(stabs, lo, hi, kind)
    requires lo <= hi && stabs[lo].kind == kind ==> stabs[lo].value <= addr
    ensures Binsearch(stabs, lo, hi, kind, addr).left >= lo
  {
    SignalsAbsence(stabs, lo, hi, kind, addr);
    if lo <= hi {
      RunStays(stabs, lo, hi, kind, addr, Start(lo, hi, addr));
    }
  }

  // ------------------------------------------------------------------
  // Sorted tables
  // ------------------------------------------------------------------

  // What has been left of l or right of r is on the right side of addr.
  ghost predicate Split(stabs: seq<Stab>, lo: int, hi: int, kind: uint8, addr: uint32, s: Search)
    requires Within(stabs, lo, hi)
  {
    && (forall k :: IsAt(stabs, lo, hi, kind, k) && k < s.l ==> stabs[k].value <= addr)
    && (forall k :: IsAt(stabs, lo, hi, kind, k) && k > s.r ==> stabs[k].value > addr)
    && (s.addr == addr || (s.addr == addr + 1 && exists k :: IsAt(stabs, lo, hi, kind, k) && stabs[k].value == addr))
  }

  ghost predicate Bracketing(stabs: seq<Stab>, lo: int, hi: int, kind: uint8, addr: uint32, s: Search)
    requires Within(stabs, lo, hi)
  {
    && Explored(stabs, lo, hi, kind, s)
    && Split(stabs, lo, hi, kind, addr, s)
    && (s.r == hi || IsAt(stabs, lo, hi, kind, s.r + 1))
    && (|| (s.region.left == lo && forall k :: lo <= k < s.l && k <= hi ==> stabs[k].kind != kind)
        || (IsAt(stabs, lo, hi, kind, s.region.left) && stabs[s.region.left].value <= addr))
  }

  lemma StepSplits(stabs: seq<Stab>, lo: int, hi: int, kind: uint8, addr: uint32, s: Search)
    requires Within(stabs, lo, hi) && Sane(stabs, s) && s.l <= s.r && lo <= s.l && s.r <= hi
    requires Sorted(stabs, lo, hi, kind) && NoClash(stabs, lo, hi, kind, addr)
    requires Split(stabs, lo, hi, kind, addr, s)
    ensures Split(stabs, lo, hi, kind, addr, Step(stabs, kind, s))
  {
    var m := ScanLeft(stabs, s.l, Middle(s.l, s.r), kind);
    if m >= s.l {
      assert IsAt(stabs, lo, hi, kind, m);
      // a second exact match would be a clash
      assert stabs[m].value == s.addr ==> s.addr == addr;
    }
  }

  lemma StepBrackets(stabs: seq<Stab>, lo: int, hi: int, kind: uint8, addr: uint32, s: Search)
    requires Within(stabs, lo, hi)
    requires Sorted(stabs, lo, hi, kind) && NoClash(stabs, lo, hi, kind, addr)
    requires Bracketing(stabs, lo, hi, kind, addr, s) && s.l <= s.r
    ensures Bracketing(stabs, lo, hi, kind, addr, Step(stabs, kind, s))
  {
    StepExplores(stabs, lo, hi, kind, s);
    StepSplits(stabs, lo, hi, kind, addr, s);
    var m := ScanLeft(stabs, s.l, Middle(s.l, s.r), kind);
    if m >= s.l {
      assert IsAt(stabs, lo, hi, kind, m);
    }
  }

  lemma {:induction false} RunBrackets(stabs: seq<Stab>, lo: int, hi: int, kind: uint8, addr: uint32, s: Search)
    requires Within(stabs, lo, hi)
    requires Sorted(stabs, lo, hi, kind) && NoClash(stabs, lo, hi, kind, addr)
    requires Bracketing(stabs, lo, hi, kind, addr, s)
    ensures Bracketing(stabs, lo, hi, kind, addr, Run(stabs, kind, s))
    decreases s.r - s.l, AtExactMatch(stabs, s)
  {
    if s.l > s.r {
    } else {
      StepBrackets(stabs, lo, hi, kind, addr, s);
      RunBrackets(stabs, lo, hi, kind, addr, Step(stabs, kind, s));
    }
  }

  lemma BracketingEnds(stabs: seq<Stab>, lo: int, hi: int, kind: uint8, addr: uint32, s: Search)
    requires Within(stabs, lo, hi)
    requires Bracketing(stabs, lo, hi, kind, addr, s) && s.l > s.r && s.anyMatches
    ensures Brackets(stabs, lo, hi, kind, addr, Finish(stabs, kind, s))
  {
    var region := Finish(stabs, kind, s);
    if IsAt(stabs, lo, hi, kind, s.region.left) && stabs[s.region.left].value <= addr {
      assert s.region.left <= s.r;
      assert IsAt(stabs, lo, hi, kind, region.left);
      assert Contains(stabs, lo, hi, kind, addr, region);
    } else {
      assert forall k :: lo <= k <= region.right ==> stabs[k].kind != kind;
      assert forall k :: IsAt(stabs, lo, hi, kind, k) ==> k > s.r;
    }
  }

  lemma BinsearchBrackets(stabs: seq<Stab>, lo: int, hi: int, kind: uint8, addr: uint32)
    requires Within(stabs, lo, hi)
    requires Sorted(stabs, lo, hi, kind) && NoClash(stabs, lo, hi, kind, addr)
    ensures Brackets(stabs, lo, hi, kind, addr, Binsearch(stabs, lo, hi, kind, addr))
  {
    var end := Run(stabs, kind, Start(lo, hi, addr));
    RunBrackets(stabs, lo, hi, kind, addr, Start(lo, hi, addr));
    if end.anyMatches {
      BracketingEnds(stabs, lo, hi, kind, addr, end);
    } else {
      assert !Occurs(stabs, lo, hi, kind);
    }
  }

  // ------------------------------------------------------------------
  // Exactly when the search may be trusted
  // ------------------------------------------------------------------

  lemma {:induction false} RunOvershoots(stabs: seq<Stab>, i: int, j: int, kind: uint8, addr: uint32, s: Search)
    requires 0 <= i < j < |stabs|
    requires stabs[i].kind == kind && stabs[i].value == addr
    requires stabs[j].kind == kind && stabs[j].value == addr + 1 && addr + 2 < TWO_TO_32
    requires forall k :: i < k < j ==> stabs[k].kind != kind
    requires Sane(stabs, s) && s.r == j && i <= s.l
    requires (s.addr == addr && s.l == i) || (s.anyMatches && addr < s.addr <= addr + 2)
    ensures var t := Run(stabs, kind, s); t.anyMatches && t.r == j
    decreases s.r - s.l, AtExactMatch(stabs, s)
  {
    if s.l > s.r {
    } else {
      var m := ScanLeft(stabs, s.l, Middle(s.l, s.r), kind);
      assert m < s.l || m == i || m == j;
      assert s.addr == addr ==> Middle(s.l, s.r) < j;
      RunOvershoots(stabs, i, j, kind, addr, Step(stabs, kind, s));
    }
  }

  // Searched between two neighbours at addr and addr + 1, the table gives the wrong answer.
  lemma ClashMisleads(stabs: seq<Stab>, i: int, j: int, kind: uint8, addr: uint32)
    requires 0 <= i < j < |stabs|
    requires stabs[i].kind == kind && stabs[i].value == addr
    requires stabs[j].kind == kind && stabs[j].value == addr + 1 && addr + 2 < TWO_TO_32
    requires forall k :: i < k < j ==> stabs[k].kind != kind
    ensures !Brackets(stabs, i, j, kind, addr, Binsearch(stabs, i, j, kind, addr))
  {
    RunOvershoots(stabs, i, j, kind, addr, Start(i, j, addr));
    assert IsAt(stabs, i, j, kind, i);
  }

  // So does the wrap of addr++ at the last address.
  lemma WrapMisleads(stabs: seq<Stab>, i: int, kind: uint8)
    requires 0 <= i < |stabs| && stabs[i].kind == kind && stabs[i].value == TWO_TO_32 - 1
    ensures !Brackets(stabs, i, i, kind, TWO_TO_32 - 1, Binsearch(stabs, i, i, kind, TWO_TO_32 - 1))
  {
    var s0 := Start(i, i, TWO_TO_32 - 1);
    var s1 := Search(i, i, Region(i, i), true, 0);
    var s2 := Search(i, i - 1, Region(i, i - 1), true, 0);
    assert Run(stabs, kind, s2) == s2;
    assert Run(stabs, kind, s1) == s2 by { assert Step(stabs, kind, s1) == s2; }
    assert Run(stabs, kind, s0) == s2 by { assert Step(stabs, kind, s0) == s1; }
    assert IsAt(stabs, i, i, kind, i);
  }

  // At 0xFFFFFFFE that wrap can undo a clash: this table is searched rightly on all of its ranges.
  lemma WrapUndoesClash()
    ensures var stabs := [Stab(0, N_FUN, 0, 0, TWO_TO_32 - 2), Stab(0, N_FUN, 0, 0, TWO_TO_32 - 1)];
      && !NoClash(stabs, 0, 1, N_FUN, TWO_TO_32 - 2)
      && forall lo, hi | Within(stabs, lo, hi) ::
           Brackets(stabs, lo, hi, N_FUN, TWO_TO_32 - 2, Binsearch(stabs, lo, hi, N_FUN, TWO_TO_32 - 2))
  {
    var a: uint32, stabs := TWO_TO_32 - 2, [Stab(0, N_FUN, 0, 0, TWO_TO_32 - 2), Stab(0, N_FUN, 0, 0, TWO_TO_32 - 1)];
    assert IsAt(stabs, 0, 1, N_FUN, 0) && IsAt(stabs, 0, 1, N_FUN, 1);
    forall lo, hi | Within(stabs, lo, hi)
      ensures Brackets(stabs, lo, hi, N_FUN, a, Binsearch(stabs, lo, hi, N_FUN, a))
    {
      if lo == 0 && hi == 1 {
        var s1 := Search(0, 1, Region(0, 1), true, a + 1);
        var s2 := Search(1, 1, Region(0, 1), true, a + 1);
        var s3 := Search(1, 1, Region(1, 1), true, 0);
        var s4 := Search(1, 0, Region(1, 0), true, 0);
        assert Run(stabs, N_FUN, s4) == s4;
        assert Run(stabs, N_FUN, s3) == s4 by { assert Step(stabs, N_FUN, s3) == s4; }
        assert Run(stabs, N_FUN, s2) == s4 by { assert Step(stabs, N_FUN, s2) == s3; }
        assert Run(stabs, N_FUN, s1) == s4 by { assert Step(stabs, N_FUN, s1) == s2; }
        assert Step(stabs, N_FUN, Start(lo, hi, a)) == s1;
        assert Contains(stabs, lo, hi, N_FUN, a, Finish(stabs, N_FUN, s4));
      } else {
        BinsearchBrackets(stabs, lo, hi, N_FUN, a);
      }
    }
  }

  lemma {:induction false} RunWraps(stabs: seq<Stab>, i: int, j: int, kind: uint8, s: Search)
    requires 0 <= i < j < |stabs|
    requires stabs[i].kind == kind && stabs[i].value == TWO_TO_32 - 2
    requires stabs[j].kind == kind && stabs[j].value == TWO_TO_32 - 1
    requires forall k :: i < k < j ==> stabs[k].kind != kind
    requires Sane(stabs, s) && s.r == j && i <= s.l <= j
    requires || (s.addr == TWO_TO_32 - 2 && s.l == i)
             || (s.anyMatches && s.addr == TWO_TO_32 - 1)
             || (s.anyMatches && s.addr == 0 && s.l == j == s.region.left)
    ensures var t := Run(stabs, kind, s); t.anyMatches && t.region == Region(j, j - 1)
    decreases s.r - s.l, AtExactMatch(stabs, s)
  {
    var m := ScanLeft(stabs, s.l, Middle(s.l, s.r), kind);
    assert m < s.l || m == i || m == j;
    var t := Step(stabs, kind, s);
    if s.addr == 0 {
      assert m == j;
      assert Run(stabs, kind, t) == t;
    } else {
      assert s.addr == TWO_TO_32 - 2 ==> m == i;
      RunWraps(stabs, i, j, kind, t);
    }
  }

  // A clash at 0xFFFFFFFE is answered rightly, between the two stabs, exactly if nothing lies between them.
  lemma WrapUndoesIff(stabs: seq<Stab>, i: int, j: int, kind: uint8)
    requires 0 <= i < j < |stabs|
    requires stabs[i].kind == kind && stabs[i].value == TWO_TO_32 - 2
    requires stabs[j].kind == kind && stabs[j].value == TWO_TO_32 - 1
    requires forall k :: i < k < j ==> stabs[k].kind != kind
    ensures Brackets(stabs, i, j, kind, TWO_TO_32 - 2, Binsearch(stabs, i, j, kind, TWO_TO_32 - 2)) <==> j == i + 1
  {
    RunWraps(stabs, i, j, kind, Start(i, j, TWO_TO_32 - 2));
    assert IsAt(stabs, i, j, kind, i);
    assert Binsearch(stabs, i, j, kind, TWO_TO_32 - 2) == Region(j - 1, j - 1);
  }

  lemma {:induction false} NeighbouringClash(stabs: seq<Stab>, i: int, j: int, kind: uint8, addr: uint32)
    returns (i': int, j': int)
    requires Within(stabs, 0, |stabs| - 1) && Sorted(stabs, 0, |stabs| - 1, kind)
    requires 0 <= i < j < |stabs|
    requires stabs[i].kind == kind && stabs[i].value == addr
    requires stabs[j].kind == kind && stabs[j].value == addr + 1
    ensures 0 <= i' < j' < |stabs|
    ensures stabs[i'].kind == kind && stabs[i'].value == addr
    ensures stabs[j'].kind == kind && stabs[j'].value == addr + 1
    ensures forall k :: i' < k < j' ==> stabs[k].kind != kind
    decreases j
  {
    i', j' := ScanLeft(stabs, i, j - 1, kind), j;
    var last := |stabs| - 1;
    assert IsAt(stabs, 0, last, kind, i) && IsAt(stabs, 0, last, kind, i') && IsAt(stabs, 0, last, kind, j);
    if stabs[i'].value != addr {
      i', j' := NeighbouringClash(stabs, i, i', kind, addr);
    }
  }

  lemma SomeRangeFails(stabs: seq<Stab>, kind: uint8, addr: uint32) returns (lo: int, hi: int)
    requires addr != TWO_TO_32 - 2
    requires Sorted(stabs, 0, |stabs| - 1, kind)
    requires !NoClash(stabs, 0, |stabs| - 1, kind, addr)
    ensures Within(stabs, lo, hi) && !Brackets(stabs, lo, hi, kind, addr, Binsearch(stabs, lo, hi, kind, addr))
  {
    var last := |stabs| - 1;
    if addr + 1 == TWO_TO_32 {
      lo :| IsAt(stabs, 0, last, kind, lo) && stabs[lo].value == addr;
      hi := lo;
      WrapMisleads(stabs, lo, kind);
    } else {
      var i, j :| IsAt(stabs, 0, last, kind, i) && stabs[i].value == addr
               && IsAt(stabs, 0, last, kind, j) && stabs[j].value == addr + 1;
      lo, hi := NeighbouringClash(stabs, i, j, kind, addr);
      ClashMisleads(stabs, lo, hi, kind, addr);
    }
  }

  // A search for addr in a sorted table is right on every range of the table if and only if
  // no stab of the kind at addr is followed by one at addr + 1 (or by the end of the address space).
  // (WrapUndoesIff and WrapUndoesClash are why the address 0xFFFFFFFE is left out.)
  lemma TrustedIff(stabs: seq<Stab>, kind: uint8, addr: uint32)
    requires addr != TWO_TO_32 - 2
    requires Sorted(stabs, 0, |stabs| - 1, kind)
    ensures (forall lo, hi | Within(stabs, lo, hi) ::
              Brackets(stabs, lo, hi, kind, addr, Binsearch(stabs, lo, hi, kind, addr)))
        <==> NoClash(stabs, 0, |stabs| - 1, kind, addr)
  {
    if NoClash(stabs, 0, |stabs| - 1, kind, addr) {
      forall lo, hi | Within(stabs, lo, hi)
        ensures Brackets(stabs, lo, hi, kind, addr, Binsearch(stabs, lo, hi, kind, addr))
      {
        SubrangeKeeps(stabs, lo, hi, kind, addr);
        BinsearchBrackets(stabs, lo, hi, kind, addr);
      }
    } else {
      var lo, hi := SomeRangeFails(stabs, kind, addr);
    }
  }

  lemma SubrangeKeeps(stabs: seq<Stab>, lo: int, hi: int, kind: uint8, addr: uint32)
    requires Within(stabs, lo, hi)
    requires Sorted(stabs, 0, |stabs| - 1, kind)
    ensures Sorted(stabs, lo, hi, kind)
    ensures NoClash(stabs, 0, |stabs| - 1, kind, addr) ==> NoClash(stabs, lo, hi, kind, addr)
  {
    assert forall k :: IsAt(stabs, lo, hi, kind, k) ==> IsAt(stabs, 0, |stabs| - 1, kind, k);
  }
}
