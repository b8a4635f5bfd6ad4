// debuginfo_eip: three nested stab searches and two scans (kern/kdebug.c).
module Debuginfo {
  import opened Machine
  import opened Kdebug

  const NUL: uint8 := 0
  const COLON: uint8 := 0x3a

  // A C string: the literal "<unknown>", or the bytes of the string table from an offset on.
  datatype Name = Unknown | At(offset: nat)

  datatype Info = Info(file: Name, line: int, fnName: Name, fnNamelen: int, fnAddr: uint32, fnNarg: int)

  // Stray: the code goes on to read the entry before the first stab.
  datatype Outcome = Panicked | Stray | Returned(code: int)

  class Eipdebuginfo {
    var file: Name
    var line: int
    var fnName: Name
    var fnNamelen: int
    var fnAddr: uint32
    var fnNarg: int

    ghost function Value(): Info
      reads this
    {
      Info(file, line, fnName, fnNamelen, fnAddr, fnNarg)
    }
  }

  predicate StrtabOk(strtab: seq<uint8>) {
    |strtab| > 0 && strtab[|strtab| - 1] == NUL
  }

  // ------------------------------------------------------------------
  // Specification
  // ------------------------------------------------------------------

  function NameAt(strtab: seq<uint8>, strx: uint32): (name: Name)
    ensures name.At? ==> name.offset < |strtab|
  {
    if strx < |strtab| then At(strx) else Unknown
  }

  function FindColon(strtab: seq<uint8>, k: nat): (end: nat)
    requires StrtabOk(strtab) && k < |strtab|
    ensures k <= end < |strtab| && (strtab[end] == NUL || strtab[end] == COLON)
    ensures forall j :: k <= j < end ==> strtab[j] != NUL && strtab[j] != COLON
    decreases |strtab| - k
  {
    if strtab[k] == NUL || strtab[k] == COLON then k else FindColon(strtab, k + 1)
  }

  function NameLength(strtab: seq<uint8>, name: Name): nat
    requires StrtabOk(strtab) && (name.At? ==> name.offset < |strtab|)
  {
    if name.Unknown? then |"<unknown>"| else FindColon(strtab, name.offset) - name.offset
  }

  predicate NamesFile(stab: Stab) {
    stab.kind == N_SOL || (stab.kind == N_SO && stab.value != 0)
  }

  function ScanFile(stabs: seq<Stab>, lo: int, k: int): (n: int)
    requires 0 <= lo && k < |stabs|
    ensures n <= k && (lo - 1 <= n || n == k)
    ensures n >= lo ==> NamesFile(stabs[n])
    ensures forall j :: n < j <= k ==> !NamesFile(stabs[j])
    decreases k - lo + 1
  {
    if k < lo || NamesFile(stabs[k]) then k else ScanFile(stabs, lo, k - 1)
  }

  function CountParams(stabs: seq<Stab>, k: int, end: int): (n: nat)
    requires 0 <= k <= end < |stabs|
    ensures k + n <= end
    ensures forall j :: k <= j < k + n ==> stabs[j].kind == N_PSYM
    ensures k + n < end ==> stabs[k + n].kind != N_PSYM
    decreases end - k
  {
    if k < end && stabs[k].kind == N_PSYM then 1 + CountParams(stabs, k + 1, end) else 0
  }

  function FileRegion(stabs: seq<Stab>, addr: uint32): (file: Region)
    ensures file.left > 0 ==> file.left <= file.right < |stabs|
    ensures file.left < 0 ==> |stabs| > 0 && stabs[0].kind == N_SO
  {
    SignalsAbsence(stabs, 0, |stabs| - 1, N_SO, addr);
    Binsearch(stabs, 0, |stabs| - 1, N_SO, addr)
  }

  function FunRegion(stabs: seq<Stab>, file: Region, addr: uint32): (fun: Region)
    requires 0 < file.left <= file.right < |stabs|
    ensures file.left - 1 <= fun.left && fun.right <= file.right
    ensures fun.left < file.left ==> stabs[file.left].kind == N_FUN
  {
    SignalsAbsence(stabs, file.left, file.right, N_FUN, addr);
    Binsearch(stabs, file.left, file.right, N_FUN, addr)
  }

  function LineRegion(stabs: seq<Stab>, range: Region, addr: uint32): (line: Region)
    requires 0 <= range.left <= range.right < |stabs|
    ensures range.left - 1 <= line.left <= range.right && line.right <= range.right
    ensures line.left < range.left ==> stabs[range.left].kind == N_SLINE
  {
    SignalsAbsence(stabs, range.left, range.right, N_SLINE, addr);
    Binsearch(stabs, range.left, range.right, N_SLINE, addr)
  }

  function InitialInfo(addr: uint32): Info {
    Info(Unknown, 0, Unknown, 9, addr, 0)
  }

  // The line search covers the function if there is one, and the whole file otherwise.
  function LineRange(file: Region, fun: Region): Region {
    if fun.left <= fun.right then fun else file
  }

  function LineAddr(stabs: seq<Stab>, fun: Region, addr: uint32): uint32
    requires 0 <= fun.left && fun.right < |stabs|
  {
    if fun.left <= fun.right then Sub32(addr, stabs[fun.left].value) else addr
  }

  // The function name, its length and its address.
  function WithFunction(info: Info, stabs: seq<Stab>, strtab: seq<uint8>, addr: uint32, fun: Region): Info
    requires StrtabOk(strtab)
    requires 0 <= fun.left && fun.right < |stabs|
  {
    var fnName := if fun.left <= fun.right then NameAt(strtab, stabs[fun.left].strx) else Unknown;
    info.(fnName := fnName,
          fnNamelen := NameLength(strtab, fnName),
          fnAddr := if fun.left <= fun.right then stabs[fun.left].value else addr)
  }

  // The line number, the file name nearest to the line, and the number of arguments.
  function WithLine(info: Info, stabs: seq<Stab>, strtab: seq<uint8>, lfile: int, fun: Region, line: Region): Info
    requires 0 <= lfile && 0 <= line.left < |stabs|
    requires 0 <= fun.left && fun.right < |stabs|
  {
    var name := ScanFile(stabs, lfile, line.left);
    info.(line := if line.left <= line.right then stabs[line.left].desc else info.line,
          file := if name >= lfile then NameAt(strtab, stabs[name].strx) else Unknown,
          fnNarg := if fun.left < fun.right then CountParams(stabs, fun.left + 1, fun.right) else info.fnNarg)
  }

  function Lookup(stabs: seq<Stab>, strtab: seq<uint8>, addr: uint32): (Outcome, Info) {
    if addr < ULIM then (Panicked, InitialInfo(addr))
    else if !StrtabOk(strtab) then (Returned(-1), InitialInfo(addr))
    else
      var file := FileRegion(stabs, addr);
      if file.left == 0 then (Returned(-1), InitialInfo(addr))
      else if file.left < 0 then (Stray, InitialInfo(addr))
      else
        var fun := FunRegion(stabs, file, addr);
        var info := WithFunction(InitialInfo(addr), stabs, strtab, addr, fun);
        var line := LineRegion(stabs, LineRange(file, fun), LineAddr(stabs, fun, addr));
        if line.left < 0 then (Stray, info)
        else (Returned(0), WithLine(info, stabs, strtab, file.left, fun, line))
  }

  // ------------------------------------------------------------------
  // debuginfo_eip
  // ------------------------------------------------------------------

  method Strfind(strtab: seq<uint8>, start: nat) returns (end: nat)
    requires StrtabOk(strtab) && start < |strtab|
    ensures end == FindColon(strtab, start)
  {
    end := start;
    while strtab[end] != NUL && strtab[end] != COLON
      invariant end < |strtab| && FindColon(strtab, end) == FindColon(strtab, start)
      decreases |strtab| - end
    {
      end := end + 1;
    }
  }

  // Backwards from the line to the nearest filename stab of the file.
  method FindFile(stabs: seq<Stab>, lfile: int, start: int) returns (lline: int)
    requires 0 <= lfile && start < |stabs|
    ensures lline == ScanFile(stabs, lfile, start)
  {
    lline := start;
    while lline >= lfile && !NamesFile(stabs[lline])
      invariant lline <= start
      invariant ScanFile(stabs, lfile, lline) == ScanFile(stabs, lfile, start)
    {
      lline := lline - 1;
    }
  }

  // Forwards over the parameter stabs of the function.
  method CountArgs(stabs: seq<Stab>, start: int, rfun: int) returns (narg: nat)
    requires 0 <= start <= rfun < |stabs|
    ensures narg == CountParams(stabs, start, rfun)
  {
    narg := 0;
    var lline := start;
    while lline < rfun && stabs[lline].kind == N_PSYM
      invariant start <= lline <= rfun
      invariant narg + CountParams(stabs, lline, rfun) == CountParams(stabs, start, rfun)
    {
      narg := narg + 1;
      lline := lline + 1;
    }
  }

  method RecordFunction(stabs: seq<Stab>, strtab: seq<uint8>, addr: uint32, lfun: int, rfun: int, info: Eipdebuginfo)
    requires StrtabOk(strtab)
    requires 0 <= lfun && rfun < |stabs|
    requires info.Value() == InitialInfo(addr)
    modifies info
    ensures info.Value() == WithFunction(old(info.Value()), stabs, strtab, addr, Region(lfun, rfun))
  {
    if lfun <= rfun {
      if stabs[lfun].strx < |strtab| {
        info.fnName := At(stabs[lfun].strx);
      }
      info.fnAddr := stabs[lfun].value;
    } else {
      info.fnAddr := addr;
    }
    // ignore what follows the colon
    if info.fnName.At? {
      var end := Strfind(strtab, info.fnName.offset);
      info.fnNamelen := end - info.fnName.offset;
    }
  }

  method RecordLine(stabs: seq<Stab>, strtab: seq<uint8>, lfile: int, lfun: int, rfun: int,
                    left: int, right: int, info: Eipdebuginfo)
    requires 0 <= lfile && 0 <= left < |stabs|
    requires 0 <= lfun && rfun < |stabs|
    requires info.file.Unknown? && info.fnNarg == 0
    modifies info
    ensures info.Value() == WithLine(old(info.Value()), stabs, strtab, lfile, Region(lfun, rfun), Region(left, right))
  {
    if left <= right {
      info.line := stabs[left].desc;
    }
    var lline := FindFile(stabs, lfile, left);
    if lline >= lfile && stabs[lline].strx < |strtab| {
      info.file := At(stabs[lline].strx);
    }
    if lfun < rfun {
      info.fnNarg := CountArgs(stabs, lfun + 1, rfun);
    }
  }

  method DebuginfoEip(stabs: seq<Stab>, strtab: seq<uint8>, eip: uint32, info: Eipdebuginfo)
    returns (outcome: Outcome)
    modifies info
    ensures (outcome, info.Value()) == Lookup(stabs, strtab, eip)
  {
    info.file, info.line, info.fnName, info.fnNamelen, info.fnAddr, info.fnNarg := Unknown, 0, Unknown, 9, eip, 0;
    if eip < ULIM {
      return Panicked;
    }
    if |strtab| == 0 || strtab[|strtab| - 1] != NUL {
      return Returned(-1);
    }

    // the file, then the function in that file
    var lfile, rfile := StabBinsearch(stabs, 0, |stabs| - 1, N_SO, eip);
    ghost var file := FileRegion(stabs, eip);
    if lfile == 0 {
      return Returned(-1);
    }
    if lfile < 0 {
      return Stray;
    }
    var lfun, rfun := StabBinsearch(stabs, lfile, rfile, N_FUN, eip);
    ghost var fun := FunRegion(stabs, file, eip);
    RecordFunction(stabs, strtab, eip, lfun, rfun, info);
    assert info.file == Unknown && info.fnNarg == 0;

    // then the line in that function, or in the whole file if there is no function
    var addr, lline, rline := eip, lfile, rfile;
    if lfun <= rfun {
      addr, lline, rline := Sub32(eip, stabs[lfun].value), lfun, rfun;
    }
    ghost var range := Region(lline, rline);
    assert range == LineRange(file, fun) && addr == LineAddr(stabs, fun, eip);
    lline, rline := StabBinsearch(stabs, lline, rline, N_SLINE, addr);
    ghost var line := LineRegion(stabs, range, addr);
    assert line == Region(lline, rline);
    if lline < 0 {
      return Stray;
    }
    RecordLine(stabs, strtab, lfile, lfun, rfun, lline, rline, info);
    return Returned(0);
  }

  // ------------------------------------------------------------------
  // What debuginfo_eip finds
  // ------------------------------------------------------------------

  // In a sorted range the containing stab and the end of its region are unique.
  lemma ContainsUnique(stabs: seq<Stab>, lo: int, hi: int, kind: uint8, addr: uint32, a: Region, b: Region)
    requires Within(stabs, lo, hi) && Sorted(stabs, lo, hi, kind)
    requires Contains(stabs, lo, hi, kind, addr, a) && Contains(stabs, lo, hi, kind, addr, b)
    ensures a == b
  {
    assert a.left < b.left ==> a.right < hi && IsAt(stabs, lo, hi, kind, a.right + 1);
    assert b.left < a.left ==> b.right < hi && IsAt(stabs, lo, hi, kind, b.right + 1);
    assert a.left == b.left;
  }

  ghost predicate Searchable(stabs: seq<Stab>, lo: int, hi: int, kind: uint8, addr: uint32) {
    Within(stabs, lo, hi) && Sorted(stabs, lo, hi, kind) && NoClash(stabs, lo, hi, kind, addr)
  }

  lemma FindsContaining(stabs: seq<Stab>, lo: int, hi: int, kind: uint8, addr: uint32, region: Region)
    requires Searchable(stabs, lo, hi, kind, addr)
    requires Contains(stabs, lo, hi, kind, addr, region)
    ensures Binsearch(stabs, lo, hi, kind, addr) == region
  {
    BinsearchBrackets(stabs, lo, hi, kind, addr);
    assert IsAt(stabs, lo, hi, kind, region.left);
    ContainsUnique(stabs, lo, hi, kind, addr, Binsearch(stabs, lo, hi, kind, addr), region);
  }

  ghost predicate Nested(stabs: seq<Stab>, file: Region, fun: Region, line: Region) {
    && 0 < file.left < fun.left < line.left <= line.right <= fun.right <= file.right < |stabs|
  }

  // ------------------------------------------------------------------
  // What is reported, for given results of the three searches
  // ------------------------------------------------------------------

  ghost predicate NamedBy(strtab: seq<uint8>, strx: uint32, name: Name) {
    name == if strx < |strtab| then At(strx) else Unknown
  }

  // The length is that of the name up to its first colon or its end; 9 is that of "<unknown>".
  ghost predicate IsLength(strtab: seq<uint8>, name: Name, len: int) {
    match name
    case Unknown => len == 9
    case At(o) =>
      && 0 <= len && o + len < |strtab|
      && (forall j :: o <= j < o + len ==> strtab[j] != 0 && strtab[j] != 0x3a)
      && (strtab[o + len] == 0 || strtab[o + len] == 0x3a)
  }

  // The function's stab gives name and address; without one, the address itself stands for the function.
  ghost predicate ReportsFunction(stabs: seq<Stab>, strtab: seq<uint8>, addr: uint32, fun: Region, info: Info)
    requires 0 <= fun.left && fun.right < |stabs|
  {
    && IsLength(strtab, info.fnName, info.fnNamelen)
    && if fun.left <= fun.right then
         info.fnAddr == stabs[fun.left].value && NamedBy(strtab, stabs[fun.left].strx, info.fnName)
       else
         info.fnAddr == addr && info.fnName == Unknown
  }

  // The stab of an included file, or one that begins a file.
  predicate IsFileName(stab: Stab) {
    stab.kind == 0x84 || (stab.kind == 0x64 && stab.value != 0)
  }

  // The file name is that of the nearest filename stab at or before the line, if the file has one there.
  ghost predicate ReportsFile(stabs: seq<Stab>, strtab: seq<uint8>, lfile: int, from: int, info: Info)
    requires 0 <= lfile && from < |stabs|
  {
    && (forall n :: lfile <= n <= from && IsFileName(stabs[n]) && (forall k :: n < k <= from ==> !IsFileName(stabs[k]))
          ==> NamedBy(strtab, stabs[n].strx, info.file))
    && ((forall n :: lfile <= n <= from ==> !IsFileName(stabs[n])) ==> info.file == Unknown)
  }

  // The arguments are the run of parameter stabs after the function; the last stab of its region is never counted.
  ghost predicate ReportsArgs(stabs: seq<Stab>, fun: Region, info: Info)
    requires 0 <= fun.left && fun.right < |stabs|
  {
    if fun.left < fun.right then
      && 0 <= info.fnNarg < fun.right - fun.left
      && (forall k :: fun.left < k <= fun.left + info.fnNarg ==> stabs[k].kind == 0xa0)
      && (fun.left + info.fnNarg + 1 < fun.right ==> stabs[fun.left + info.fnNarg + 1].kind != 0xa0)
    else info.fnNarg == 0
  }

  ghost predicate Reports(stabs: seq<Stab>, strtab: seq<uint8>, addr: uint32, lfile: int,
                          fun: Region, line: Region, info: Info)
    requires 0 <= lfile && 0 <= fun.left && fun.right < |stabs| && 0 <= line.left < |stabs|
  {
    && ReportsFunction(stabs, strtab, addr, fun, info)
    && info.line == (if line.left <= line.right then stabs[line.left].desc else 0)
    && ReportsFile(stabs, strtab, lfile, line.left, info)
    && ReportsArgs(stabs, fun, info)
  }

  lemma FunctionReported(stabs: seq<Stab>, strtab: seq<uint8>, addr: uint32, fun: Region)
    requires StrtabOk(strtab) && 0 <= fun.left && fun.right < |stabs|
    ensures ReportsFunction(stabs, strtab, addr, fun, WithFunction(InitialInfo(addr), stabs, strtab, addr, fun))
  {
  }

  lemma RecordReports(stabs: seq<Stab>, strtab: seq<uint8>, addr: uint32, lfile: int, fun: Region, line: Region)
    requires StrtabOk(strtab)
    requires 0 <= lfile && 0 <= fun.left && fun.right < |stabs| && 0 <= line.left < |stabs|
    ensures Reports(stabs, strtab, addr, lfile, fun, line,
                    WithLine(WithFunction(InitialInfo(addr), stabs, strtab, addr, fun),
                             stabs, strtab, lfile, fun, line))
  {
    FunctionReported(stabs, strtab, addr, fun);
  }

  // x - y on unsigned 32-bit operands.
  predicate IsDifference(d: uint32, x: uint32, y: uint32) {
    d == if x >= y then x - y else x - y + 0x1_0000_0000
  }

  // The results of the three searches: for the file in the whole table, for the function in the file, and for the
  // line in the function, by the distance from its start; or in the whole file if there is no function.
  ghost predicate Searched(stabs: seq<Stab>, addr: uint32, file: Region, fun: Region, line: Region) {
    && file == Binsearch(stabs, 0, |stabs| - 1, 0x64, addr)
    && 0 < file.left <= file.right < |stabs|
    && fun == Binsearch(stabs, file.left, file.right, 0x24, addr)
    && 0 <= fun.left && fun.right < |stabs| && 0 <= line.left < |stabs|
    && (fun.left <= fun.right ==>
          exists d: uint32 :: IsDifference(d, addr, stabs[fun.left].value)
                              && line == Binsearch(stabs, fun.left, fun.right, 0x44, d))
    && (fun.left > fun.right ==> line == Binsearch(stabs, file.left, file.right, 0x44, addr))
  }

  // On every table, sorted or not, success means that the results of these searches are reported.
  lemma SuccessReports(stabs: seq<Stab>, strtab: seq<uint8>, addr: uint32)
    returns (file: Region, fun: Region, line: Region)
    requires Lookup(stabs, strtab, addr).0 == Returned(0)
    ensures Searched(stabs, addr, file, fun, line)
    ensures Reports(stabs, strtab, addr, file.left, fun, line, Lookup(stabs, strtab, addr).1)
  {
    file := FileRegion(stabs, addr);
    fun := FunRegion(stabs, file, addr);
    line := LineRegion(stabs, LineRange(file, fun), LineAddr(stabs, fun, addr));
    if fun.left <= fun.right {
      assert IsDifference(LineAddr(stabs, fun, addr), addr, stabs[fun.left].value);
    }
    RecordReports(stabs, strtab, addr, file.left, fun, line);
  }

  // Only kernel addresses can be looked up, and a failure leaves the defaults.
  lemma DefaultsKept(stabs: seq<Stab>, strtab: seq<uint8>, addr: uint32)
    ensures Lookup(stabs, strtab, addr).0 == Panicked <==> addr < 0xef80_0000
    ensures Lookup(stabs, strtab, addr).0 in {Panicked, Returned(-1)} ==>
      Lookup(stabs, strtab, addr).1 == Info(Unknown, 0, Unknown, 9, addr, 0)
  {
  }

  lemma LookupThrough(stabs: seq<Stab>, strtab: seq<uint8>, addr: uint32, file: Region, fun: Region, line: Region)
    requires StrtabOk(strtab) && addr >= ULIM && Nested(stabs, file, fun, line)
    requires stabs[fun.left].value <= addr
    requires Binsearch(stabs, 0, |stabs| - 1, N_SO, addr) == file
    requires Binsearch(stabs, file.left, file.right, N_FUN, addr) == fun
    requires Binsearch(stabs, fun.left, fun.right, N_SLINE, addr - stabs[fun.left].value) == line
    ensures Lookup(stabs, strtab, addr)
         == (Returned(0), WithLine(WithFunction(InitialInfo(addr), stabs, strtab, addr, fun),
                                   stabs, strtab, file.left, fun, line))
  {
    assert FileRegion(stabs, addr) == file;
    assert FunRegion(stabs, file, addr) == fun;
    assert LineRegion(stabs, LineRange(file, fun), LineAddr(stabs, fun, addr)) == line;
  }

  ghost predicate Located(stabs: seq<Stab>, strtab: seq<uint8>, addr: uint32, file: Region, fun: Region, line: Region)
    requires Nested(stabs, file, fun, line)
  {
    var (outcome, info) := Lookup(stabs, strtab, addr);
    outcome == Returned(0) && Reports(stabs, strtab, addr, file.left, fun, line, info)
  }

  lemma LocatesLine(stabs: seq<Stab>, strtab: seq<uint8>, addr: uint32, file: Region, fun: Region, line: Region)
    requires StrtabOk(strtab) && addr >= ULIM && Nested(stabs, file, fun, line)
    requires Binsearch(stabs, 0, |stabs| - 1, N_SO, addr) == file
    requires Binsearch(stabs, file.left, file.right, N_FUN, addr) == fun && stabs[fun.left].value <= addr
    requires Searchable(stabs, fun.left, fun.right, N_SLINE, addr - stabs[fun.left].value)
    requires Contains(stabs, fun.left, fun.right, N_SLINE, addr - stabs[fun.left].value, line)
    ensures Located(stabs, strtab, addr, file, fun, line)
  {
    FindsContaining(stabs, fun.left, fun.right, N_SLINE, addr - stabs[fun.left].value, line);
    LookupThrough(stabs, strtab, addr, file, fun, line);
    RecordReports(stabs, strtab, addr, file.left, fun, line);
  }

  lemma LocatesFunction(stabs: seq<Stab>, strtab: seq<uint8>, addr: uint32, file: Region, fun: Region, line: Region)
    requires StrtabOk(strtab) && addr >= ULIM && Nested(stabs, file, fun, line)
    requires Binsearch(stabs, 0, |stabs| - 1, N_SO, addr) == file
    requires Searchable(stabs, file.left, file.right, N_FUN, addr)
    requires Contains(stabs, file.left, file.right, N_FUN, addr, fun)
    requires Searchable(stabs, fun.left, fun.right, N_SLINE, addr - stabs[fun.left].value)
    requires Contains(stabs, fun.left, fun.right, N_SLINE, addr - stabs[fun.left].value, line)
    ensures Located(stabs, strtab, addr, file, fun, line)
  {
    FindsContaining(stabs, file.left, file.right, N_FUN, addr, fun);
    LocatesLine(stabs, strtab, addr, file, fun, line);
  }

  // An address in the file that begins the table is not found, because the index 0 means failure.
  lemma FirstFileHidden(stabs: seq<Stab>, strtab: seq<uint8>, addr: uint32, end: int)
    requires addr >= ULIM && Searchable(stabs, 0, |stabs| - 1, N_SO, addr)
    requires Contains(stabs, 0, |stabs| - 1, N_SO, addr, Region(0, end))
    ensures Lookup(stabs, strtab, addr).0 == Returned(-1)
  {
    FindsContaining(stabs, 0, |stabs| - 1, N_SO, addr, Region(0, end));
    assert FileRegion(stabs, addr) == Region(0, end);
  }

  // Given any file, function and line regions around the address, the lookup succeeds and describes exactly
  // those; unless the file begins the table, which is taken for a failure.
  lemma LocatesAddress(stabs: seq<Stab>, strtab: seq<uint8>, addr: uint32, file: Region, fun: Region, line: Region)
    requires StrtabOk(strtab) && addr >= ULIM
    requires Searchable(stabs, 0, |stabs| - 1, N_SO, addr)
    requires Contains(stabs, 0, |stabs| - 1, N_SO, addr, file)
    requires Searchable(stabs, file.left, file.right, N_FUN, addr)
    requires Contains(stabs, file.left, file.right, N_FUN, addr, fun)
    requires Searchable(stabs, fun.left, fun.right, N_SLINE, addr - stabs[fun.left].value)
    requires Contains(stabs, fun.left, fun.right, N_SLINE, addr - stabs[fun.left].value, line)
    ensures if file.left == 0 then Lookup(stabs, strtab, addr).0 == Returned(-1)
            else Nested(stabs, file, fun, line) && Located(stabs, strtab, addr, file, fun, line)
  {
    if file.left == 0 {
      FirstFileHidden(stabs, strtab, addr, file.right);
    } else {
      RegionsNest(stabs, addr, file, fun, line);
      FindsContaining(stabs, 0, |stabs| - 1, N_SO, addr, file);
      LocatesFunction(stabs, strtab, addr, file, fun, line);
    }
  }

  lemma RegionsNest(stabs: seq<Stab>, addr: uint32, file: Region, fun: Region, line: Region)
    requires Within(stabs, 0, |stabs| - 1) && Contains(stabs, 0, |stabs| - 1, N_SO, addr, file) && file.left > 0
    requires Contains(stabs, file.left, file.right, N_FUN, addr, fun)
    requires Contains(stabs, fun.left, fun.right, N_SLINE, addr - stabs[fun.left].value, line)
    ensures Nested(stabs, file, fun, line)
  {
  }

  lemma LookupWithoutFunction(stabs: seq<Stab>, strtab: seq<uint8>, addr: uint32, file: Region, line: Region)
    requires StrtabOk(strtab) && addr >= ULIM && 0 < file.left <= file.right < |stabs| && 0 <= line.left < |stabs|
    requires Binsearch(stabs, 0, |stabs| - 1, N_SO, addr) == file
    requires Binsearch(stabs, file.left, file.right, N_FUN, addr) == Region(file.left, file.left - 1)
    requires Binsearch(stabs, file.left, file.right, N_SLINE, addr) == line
    ensures var fun := Region(file.left, file.left - 1);
      Lookup(stabs, strtab, addr)
      == (Returned(0), WithLine(WithFunction(InitialInfo(addr), stabs, strtab, addr, fun),
                                stabs, strtab, file.left, fun, line))
  {
    assert FileRegion(stabs, addr) == file;
    var fun := FunRegion(stabs, file, addr);
    assert LineRegion(stabs, LineRange(file, fun), LineAddr(stabs, fun, addr)) == line;
  }

  // Without a function, the address is reported in its place.
  ghost predicate DescribesFile(stabs: seq<Stab>, strtab: seq<uint8>, addr: uint32,
                                file: Region, line: Region, info: Info)
    requires 0 <= file.left && 0 <= line.left < |stabs|
  {
    && info.fnAddr == addr && info.fnName == Unknown && info.fnNamelen == 9 && info.fnNarg == 0
    && info.line == stabs[line.left].desc
    && ReportsFile(stabs, strtab, file.left, line.left, info)
  }

  lemma FileDescribed(stabs: seq<Stab>, strtab: seq<uint8>, addr: uint32, file: Region, line: Region)
    requires StrtabOk(strtab) && 0 < file.left <= file.right < |stabs|
    requires 0 <= line.left <= line.right && line.left < |stabs|
    ensures var fun := Region(file.left, file.left - 1);
      DescribesFile(stabs, strtab, addr, file, line,
                    WithLine(WithFunction(InitialInfo(addr), stabs, strtab, addr, fun),
                             stabs, strtab, file.left, fun, line))
  {
    RecordReports(stabs, strtab, addr, file.left, Region(file.left, file.left - 1), line);
  }

  lemma LocatesLineInFile(stabs: seq<Stab>, strtab: seq<uint8>, addr: uint32, file: Region, line: Region)
    requires StrtabOk(strtab) && addr >= ULIM && 0 < file.left <= file.right < |stabs|
    requires Binsearch(stabs, 0, |stabs| - 1, N_SO, addr) == file
    requires Binsearch(stabs, file.left, file.right, N_FUN, addr) == Region(file.left, file.left - 1)
    requires Searchable(stabs, file.left, file.right, N_SLINE, addr)
    requires Contains(stabs, file.left, file.right, N_SLINE, addr, line)
    ensures Lookup(stabs, strtab, addr).0 == Returned(0)
    ensures DescribesFile(stabs, strtab, addr, file, line, Lookup(stabs, strtab, addr).1)
  {
    FindsContaining(stabs, file.left, file.right, N_SLINE, addr, line);
    LookupWithoutFunction(stabs, strtab, addr, file, line);
    FileDescribed(stabs, strtab, addr, file, line);
  }

  // In a file without functions, the line is searched for in all of it, at the address itself.
  lemma LocatesWithoutFunction(stabs: seq<Stab>, strtab: seq<uint8>, addr: uint32, file: Region, line: Region)
    requires StrtabOk(strtab) && addr >= ULIM
    requires Searchable(stabs, 0, |stabs| - 1, N_SO, addr)
    requires Contains(stabs, 0, |stabs| - 1, N_SO, addr, file) && file.left > 0
    requires !Occurs(stabs, file.left, file.right, N_FUN)
    requires Searchable(stabs, file.left, file.right, N_SLINE, addr)
    requires Contains(stabs, file.left, file.right, N_SLINE, addr, line)
    ensures Lookup(stabs, strtab, addr).0 == Returned(0)
    ensures DescribesFile(stabs, strtab, addr, file, line, Lookup(stabs, strtab, addr).1)
  {
    FindsContaining(stabs, 0, |stabs| - 1, N_SO, addr, file);
    SignalsAbsence(stabs, file.left, file.right, N_FUN, addr);
    LocatesLineInFile(stabs, strtab, addr, file, line);
  }

  lemma AllAbove(stabs: seq<Stab>, lo: int, hi: int, kind: uint8, addr: uint32)
    requires Searchable(stabs, lo, hi, kind, addr) && Occurs(stabs, lo, hi, kind) && stabs[lo].kind != kind
    requires forall k :: IsAt(stabs, lo, hi, kind, k) ==> stabs[k].value > addr
    ensures Binsearch(stabs, lo, hi, kind, addr).left == lo <= Binsearch(stabs, lo, hi, kind, addr).right
  {
    BinsearchBrackets(stabs, lo, hi, kind, addr);
  }

  lemma TakenForFunction(stabs: seq<Stab>, strtab: seq<uint8>, addr: uint32, file: Region)
    requires StrtabOk(strtab) && addr >= ULIM && 0 < file.left <= file.right < |stabs|
    requires stabs[file.left].kind == N_SO
    requires Binsearch(stabs, 0, |stabs| - 1, N_SO, addr) == file
    requires file.left == Binsearch(stabs, file.left, file.right, N_FUN, addr).left
    requires file.left <= Binsearch(stabs, file.left, file.right, N_FUN, addr).right
    ensures var (outcome, info) := Lookup(stabs, strtab, addr);
      && outcome == Returned(0)
      && info.fnAddr == stabs[file.left].value && NamedBy(strtab, stabs[file.left].strx, info.fnName)
  {
    assert FileRegion(stabs, addr) == file;
    var fun := FunRegion(stabs, file, addr);
    FunctionReported(stabs, strtab, addr, fun);
  }

  // But if the functions of the file all lie above the address, the file's own stab is taken for a function.
  lemma FileTakenForFunction(stabs: seq<Stab>, strtab: seq<uint8>, addr: uint32, file: Region)
    requires StrtabOk(strtab) && addr >= ULIM
    requires Searchable(stabs, 0, |stabs| - 1, N_SO, addr)
    requires Contains(stabs, 0, |stabs| - 1, N_SO, addr, file) && file.left > 0
    requires Searchable(stabs, file.left, file.right, N_FUN, addr) && Occurs(stabs, file.left, file.right, N_FUN)
    requires forall k :: IsAt(stabs, file.left, file.right, N_FUN, k) ==> stabs[k].value > addr
    ensures var (outcome, info) := Lookup(stabs, strtab, addr);
      && outcome == Returned(0)
      && info.fnAddr == stabs[file.left].value && NamedBy(strtab, stabs[file.left].strx, info.fnName)
  {
    FindsContaining(stabs, 0, |stabs| - 1, N_SO, addr, file);
    AllAbove(stabs, file.left, file.right, N_FUN, addr);
    TakenForFunction(stabs, strtab, addr, file);
  }

  // ------------------------------------------------------------------
  // When debuginfo_eip fails
  // ------------------------------------------------------------------

  // The table begins with a file stab that lies above the address.
  predicate BeginsAbove(stabs: seq<Stab>, addr: uint32) {
    |stabs| > 0 && stabs[0].kind == N_SO && stabs[0].value > addr
  }

  // Some file stab after the first entry of the table lies at or below the address.
  ghost predicate FileBelow(stabs: seq<Stab>, addr: uint32) {
    exists k :: 0 < k < |stabs| && stabs[k].kind == N_SO && stabs[k].value <= addr
  }

  // The search for the file leaves the table exactly if the table begins with a file stab above the address.
  lemma FileSearch(stabs: seq<Stab>, addr: uint32)
    requires Searchable(stabs, 0, |stabs| - 1, N_SO, addr)
    ensures var file := FileRegion(stabs, addr);
      && (file.left < 0 <==> BeginsAbove(stabs, addr))
      && (file.left > 0 <==> FileBelow(stabs, addr))
      && (file.left > 0 ==> stabs[file.left].kind == N_SO)
  {
    BinsearchBrackets(stabs, 0, |stabs| - 1, N_SO, addr);
    var file := FileRegion(stabs, addr);
    if FileBelow(stabs, addr) {
      var k :| 0 < k < |stabs| && stabs[k].kind == N_SO && stabs[k].value <= addr;
      assert IsAt(stabs, 0, |stabs| - 1, N_SO, k);
      assert file.left == 0 ==> file.right < |stabs| - 1 && IsAt(stabs, 0, |stabs| - 1, N_SO, file.right + 1);
    }
    if BeginsAbove(stabs, addr) {
      assert IsAt(stabs, 0, |stabs| - 1, N_SO, 0);
    }
  }

  // Every outcome, whatever functions and lines the table holds.  The lookup succeeds if and only if there is a
  // file to report other than one that begins the table; a missing function or line is not a failure.
  lemma FailsIff(stabs: seq<Stab>, strtab: seq<uint8>, addr: uint32)
    requires addr >= ULIM && Searchable(stabs, 0, |stabs| - 1, N_SO, addr)
    ensures var outcome := Lookup(stabs, strtab, addr).0;
      var terminated := |strtab| > 0 && strtab[|strtab| - 1] == 0;
      && (outcome == Returned(-1) <==> !terminated || (!FileBelow(stabs, addr) && !BeginsAbove(stabs, addr)))
      && (outcome == Stray <==> terminated && BeginsAbove(stabs, addr))
      && (outcome == Returned(0) <==> terminated && FileBelow(stabs, addr))
  {
    FileSearch(stabs, addr);
  }

  lemma NoStray(stabs: seq<Stab>, strtab: seq<uint8>, addr: uint32)
    requires FileRegion(stabs, addr).left >= 0
    requires var lfile := FileRegion(stabs, addr).left; lfile > 0 ==> stabs[lfile].kind == N_SO
    ensures Lookup(stabs, strtab, addr).0 != Stray
  {
    var file := FileRegion(stabs, addr);
    if file.left > 0 {
      assert FunRegion(stabs, file, addr).left >= 1;
    }
  }

  // No access to the table is out of bounds, sorted or not, if the table does not begin with a file stab
  // above the address and addr++ cannot wrap in the search for the file.
  lemma StaysInBounds(stabs: seq<Stab>, strtab: seq<uint8>, addr: uint32)
    requires !BeginsAbove(stabs, addr)
    requires NoneAtTop(stabs, 0, |stabs| - 1, N_SO)
    ensures Lookup(stabs, strtab, addr).0 != Stray
  {
    FirstStabStays(stabs, 0, |stabs| - 1, N_SO, addr);
    FindsTheKind(stabs, 0, |stabs| - 1, N_SO, addr);
    NoStray(stabs, strtab, addr);
  }

  // A file without any line stab, and 0 is returned for an address in it.
  lemma MissingLineSucceeds()
    ensures var stabs := [Stab(0, 0, 0, 0, 0), Stab(0, N_SO, 0, 0, ULIM)];
      var (outcome, info) := Lookup(stabs, [NUL], ULIM);
      && (forall k :: 0 <= k < |stabs| ==> stabs[k].kind != N_SLINE)
      && outcome == Returned(0) && info.line == 0
  {
    var stabs := [Stab(0, 0, 0, 0, 0), Stab(0, N_SO, 0, 0, ULIM)];
    var file, fun := Region(1, 1), Region(1, 0);
    FindsContaining(stabs, 0, 1, N_SO, ULIM, file);
    SignalsAbsence(stabs, 1, 1, N_FUN, ULIM);
    SignalsAbsence(stabs, 1, 1, N_SLINE, ULIM);
    assert FileRegion(stabs, ULIM) == file;
    assert FunRegion(stabs, file, ULIM) == fun;
    assert LineRegion(stabs, LineRange(file, fun), LineAddr(stabs, fun, ULIM)) == Region(1, 0);
  }
}
