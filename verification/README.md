# A verified model of the JOS kernel's search, formatting, memory, boot and console code

JOS is a small teaching kernel for the i386. This project models, in Dafny, the parts of it that are
finished and intricate, and proves what they do for every input:

| file | models |
|---|---|
| `Kdebug.dfy`, `Debuginfo.dfy` | the symbol-table search `stab_binsearch` and the lookup `debuginfo_eip` built on it |
| `Memory.dfy` | `memmove` and `memset`, each in the C and in the assembly variant |
| `Numerals.dfy`, `Strtol.dfy` | numerals and fields, and the number parser `strtol` |
| `Printfmt.dfy`, `Directives.dfy` | `printnum`, `vprintfmt` and `vsnprintf`, and what each directive of a format means |
| `Mmu.dfy` | the address macros and the page-table walk `check_va2pa` |
| `Pmap.dfy` | `page_init` and the in-place partition of the free list |
| `Boot.dfy` | the boot loader: `readsect`, `readseg`, `bootmain` |
| `ConsoleInput.dfy` | the input ring and the keyboard's modifier state |
| `Screen.dfy` | the text display `cga_putc` |
| `Monitor.dfy` | the argument parser of `runcmd` |
| `Machine.dfy` | 8-, 16- and 32-bit ranges and wrapping increments |

Loops and state that the kernel updates in place are methods, arrays and classes here, and each method is
proved equal to a specification function or predicate. The theorems about whole runs, round trips and exact
conditions are lemmas about those specifications; they are stated in terms of the bytes of the disk, the entries of
the tables, the characters of a text and the codes of a keyboard, so that they do not rest on the functions that
the methods share with their specifications.

Memory, page arrays and tables are indexed by integers in place of pointers. Integers are unbounded except
where the width matters: `uint8`, `uint16` and `uint32` are ranges, `addr++` and the subtraction of addresses
wrap at 32 bits, cells of the display are cut to 16 bits, and page-table arithmetic is on 32-bit words.

## Where the code departs from its comments, or from what its formats suggest

The model follows the code.

* `stab_binsearch` is documented to return left > right when the address is in no stab of the type. It does so
  only when the range holds no stab of that type at all (`SignalsAbsence`); if they all lie above the address it
  returns a nonempty region, and left can be one below the range (`Brackets` gives every case).
* Its exact-match step (`addr++`) makes the answer wrong when stabs sit at both `addr` and `addr + 1`.
  `TrustedIff` says exactly which tables can be searched for an address.
* `debuginfo_eip` is documented to return -1 when it finds no line. It returns 0 (`FailsIff`,
  `MissingLineSucceeds`). It takes the index 0 for a failure, so the file that begins a table is never found
  (`FirstFileHidden`); and below that file's address it reads before the table (`FileSearch`). If the functions of a
  file all lie above the address, the file's own stab is taken for a function (`FileTakenForFunction`).
* `readseg` says that copying too much is harmless because segments are loaded in increasing order. That order is
  not enough (`IncreasingIsNotEnough`); `IncreasingIff` says exactly when it is.
* `bootmain` loads `p_memsz` bytes of the image, so memory past `p_filesz` is zero only if the image is
  (`TailZeroIff`).
* `check_va2pa` is documented to return the address of the page. For a large page it returns the address of the
  byte (`LargePageOffset`). That can be 0xffffffff, the value for an address that is not mapped (`UnmappedIff`).
* A directory that maps itself, as the kernel's does at `UVPT`, shows its own entries as translations, so a large
  page can be seen there even if it maps what the table mapped (`SelfMapIff`, `InvisibleIff`).
* With `%-5d` the padding is made of minus signs, printed before the number (`LeftFlagLost`).
* In `%.0s` the `0` is taken for a flag and sets no precision (`PrecisionIff`, `ZeroPrecisionIgnored`).
* `strtol` takes `0x` for a prefix even if no hexadecimal digit follows, and `endptr` then points after it
  (`BarePrefix`).
* `runcmd` reports a maximum of 16 arguments but accepts at most 15.

## Model

| member | source | states |
|---|---|---|
| `Kdebug.Step` | kern/kdebug.c:59-85 | every iteration shrinks [l, r], or keeps it and leaves no exact match at l; so the search ends on every table, sorted or not |
| `Kdebug.ScanBack` | kern/kdebug.c:62-64 | finds the nearest stab of the type at or below the midpoint, or gives up below l |
| `Kdebug.StabBinsearch` | kern/kdebug.c:50-97 | terminates within bounds on every table, and returns the region that the search's iteration leads to |
| `Kdebug.SignalsAbsence` | kern/kdebug.c:30-34 | on any table, left > right exactly when the range holds no stab of the type; otherwise the region lies in the range, or is one below a range that begins with such a stab |
| `Kdebug.FindsTheKind` | kern/kdebug.c:91-95 | on any table without a stab of the type at the last address, a left above the start of the range is a stab of the type |
| `Kdebug.BinsearchBrackets` | kern/kdebug.c:20-34 | in a sorted range without a clash: left is the last stab of the type at or below the address and right is just before the next one; the other two outcomes are given as well |
| `Kdebug.ClashMisleads` | kern/kdebug.c:78-84 | between neighbouring stabs at addr and addr + 1 the search always answers wrongly |
| `Kdebug.WrapMisleads` | kern/kdebug.c:83 | so it does for a stab at the last address, where addr++ wraps to 0 |
| `Kdebug.WrapUndoesClash` | kern/kdebug.c:78-84 | at 0xFFFFFFFE the wrap that follows a clash can put the answer right again: a table with a clash that is searched rightly on every range |
| `Kdebug.WrapUndoesIff` | kern/kdebug.c:78-84 | between neighbouring stabs at 0xFFFFFFFE and 0xFFFFFFFF the search is right if and only if no entry lies between them |
| `Kdebug.FirstStabStays` | kern/kdebug.c:75-77 | on any table, the search does not leave its range if the range does not begin with a stab of the type above the address |
| `Kdebug.TrustedIff` | kern/kdebug.c:50-97 | a sorted table is searched rightly on all of its ranges if and only if it has no stab at addr followed by one at addr + 1 or by the end of the address space |
| `Debuginfo.Strfind` | lib/string.c:109-118 | finds the first colon, or the end of the name |
| `Debuginfo.FindFile` | kern/kdebug.c:191-198 | finds the nearest filename stab at or before the line, within the file |
| `Debuginfo.CountArgs` | kern/kdebug.c:203-209 | counts the run of parameter stabs |
| `Debuginfo.RecordFunction` | kern/kdebug.c:155-173 | fills in the function's name, name length and address, or the defaults, and nothing else |
| `Debuginfo.RecordLine` | kern/kdebug.c:187-209 | fills in the line, the file name and the number of arguments, and nothing else |
| `Debuginfo.DebuginfoEip` | kern/kdebug.c:107-212 | for every table, leaves in `info` and the outcome what the three nested searches and two scans determine; every access is in bounds, but for the outcome that stands for reading before the table |
| `Debuginfo.SuccessReports` | kern/kdebug.c:142-209 | on any table, sorted or not, success means that the file, function and line found by the three searches are reported: name up to its colon, length, address, line, nearest filename stab and run of parameter stabs, or the address in place of a function |
| `Debuginfo.DefaultsKept` | kern/kdebug.c:115-135 | only addresses from 0xef800000 on are looked up, and a failure leaves the defaults in `info` |
| `Debuginfo.ContainsUnique` | kern/kdebug.c:20-34 | in a sorted range, the stab that contains an address and the end of its region are unique |
| `Debuginfo.FirstFileHidden` | kern/kdebug.c:145-146 | for an address in a file that begins the table, -1 is returned |
| `Debuginfo.LocatesAddress` | kern/kdebug.c:142-209 | for any file, function and line regions around an address, the lookup succeeds and reports that function, that line, the nearest filename stab and the number of parameter stabs, unless the file begins the table |
| `Debuginfo.LocatesWithoutFunction` | kern/kdebug.c:166-190 | in a file without functions, the line is searched for in all of it at the address itself, which is reported in place of a function, with the name `<unknown>` of length 9 |
| `Debuginfo.FileTakenForFunction` | kern/kdebug.c:149-163 | if the file's functions all lie above the address, the stab of the file is reported as the function |
| `Debuginfo.FileSearch` | kern/kdebug.c:142-152 | the file search ends before the table if and only if the table begins with a file stab above the address, and finds a file to search in if and only if a later file stab lies at or below it |
| `Debuginfo.FailsIff` | kern/kdebug.c:133-152 | exactly when the outcome is -1, success or a read before the table, whatever functions and lines the table holds: a missing function or line is no failure |
| `Debuginfo.StaysInBounds` | kern/kdebug.c:142-209 | on any table, sorted or not, no read before the table happens unless it begins with a file stab above the address or addr++ can wrap in the search for the file |
| `Debuginfo.MissingLineSucceeds` | kern/kdebug.c:176-190 | a table without line stabs on which 0 is returned |
| `Memory.UpwardsIff` | lib/string.c:197-204 | copying upwards is right for every content of memory if and only if memmove chooses it |
| `Memory.DownwardsMoves` | lib/string.c:197-201 | copying downwards is a simultaneous copy whenever the destination is above the source |
| `Memory.UpwardsMoves` | lib/string.c:202-204 | copying upwards is a simultaneous copy whenever the destination is not above the source |
| `Memory.WordIsFourBytes` | lib/string.c:154-166 | moving a whole word is the same as moving its bytes one at a time, in either direction, unless the destination is one to three bytes above |
| `Memory.CopyBytesUp` | lib/string.c:202-204 | the loop makes the byte-by-byte upward copy |
| `Memory.CopyBytesDown` | lib/string.c:197-201 | the loop makes the byte-by-byte downward copy |
| `Memory.CopyWordsUp` | lib/string.c:163-165 | the word loop gives the same memory as the upward byte loop |
| `Memory.CopyWordsDown` | lib/string.c:154-156 | the word loop gives the same memory as the downward byte loop |
| `Memory.MemmoveBytes` | lib/string.c:189-207 | for every overlap, each destination byte is the old source byte and all other bytes are unchanged |
| `Memory.MemmoveWords` | lib/string.c:143-171 | the same for the assembly variant, in words or in bytes |
| `Memory.MemsetBytes` | lib/string.c:175-187 | exactly the n bytes are set, if n is below 2^31; for a larger n the int counter is negative and nothing is set |
| `Memory.ReplicatedBytes` | lib/string.c:129-130 | each of the four bytes of the stored word is the low byte of c |
| `Memory.MemsetWords` | lib/string.c:121-141 | exactly the n bytes are set, by words or by bytes |
| `Numerals.NumTextStep` | lib/printfmt.c:39-41 | printing the quotient in a field one narrower, then the last digit, prints the number in its field |
| `Strtol.ReadDigits` | lib/string.c:265-281 | reads the longest run of digits of the base and returns its value |
| `Strtol.ReadUnsigned` | lib/string.c:257-281 | handles the base prefixes and the digits |
| `Strtol.Strtol` | lib/string.c:241-286 | returns the value and the end position that blanks, sign, prefix and digits determine |
| `Strtol.ParseMeans` | lib/string.c:241-286 | for every radix, blanks or tabs, a sign, a prefix and a run of digits parse to the signed value of the digits in the base that radix and prefix decide, and end after the digits |
| `Strtol.DigitMeans` | lib/string.c:268-277 | the digits are 0 to 9 and the letters of either case from 10 on |
| `Strtol.NumeralValue` | lib/printfmt.c:48-49 | the printed digits are digits of the base and denote the number |
| `Strtol.LeadingZeros` | lib/printfmt.c:43-45 | zeros printed as padding do not change the value |
| `Strtol.UndoesPrintnum` | lib/string.c:242-286 | parsing what printnum printed gives back the number and its end, for any value, width, padding of a format and whatever follows that does not continue it, if and only if no minus signs were printed as padding (one before a 0 does no harm) and it is not a lone hexadecimal 0 followed by an x |
| `Strtol.UndoesNegative` | lib/string.c:251-255 | a printed negative number comes back if and only if no padding but zeros follows the sign |
| `Strtol.UndoesPointer` | lib/string.c:257-259 | a printed pointer comes back with base 0 or 16 if and only if no padding but zeros follows the 0x |
| `Strtol.LeftFlagLost` | lib/printfmt.c:107-110 | a number under the left-justify flag comes back if and only if it has no padding, or is 0 with one minus sign; with one sign it is read as negated, with more as 0 |
| `Strtol.BarePrefix` | lib/string.c:257-259 | after any blanks and sign, 0x is consumed in any case: parsing ends after the x if and only if no hexadecimal digit follows, and the value is then 0 |
| `Printfmt.Sprintbuf.Putch` | lib/printfmt.c:260-266 | the sink counts every character and stores those that fit; no other position of the buffer changes |
| `Printfmt.Pad` | lib/printfmt.c:43-45 | emits the padding |
| `Printfmt.Printnum` | lib/printfmt.c:35-50 | emits the numeral of the number, right-justified in its field with the padding character |
| `Printfmt.Strnlen` | lib/string.c:21-29 | the length of the string, limited by a precision that is not negative |
| `Printfmt.PutString` | lib/printfmt.c:181-185 | emits the string up to the precision, with unprintable characters replaced under the # flag |
| `Printfmt.PrintString` | lib/printfmt.c:174-188 | emits the string justified to the left or right of its field |
| `Printfmt.ReadNumber` | lib/printfmt.c:127-132 | reads a number of the format and stops after its last digit |
| `Printfmt.ReadFlags` | lib/printfmt.c:98-156 | reads flags, width, precision and arguments taken by *, up to the conversion character |
| `Printfmt.NumberRead` | lib/printfmt.c:118-151 | digits that do not start with a 0 are the width, and the precision once there is a width; nothing else changes |
| `Printfmt.FlagRead` | lib/printfmt.c:107-156 | what each of `-`, `0`, `#`, `l`, `.` and `*` sets; the `*` takes the next argument, as width first and as precision later |
| `Printfmt.PrintError` | lib/printfmt.c:163-172 | emits the text of the error code, or `error` and its number, through a nested format |
| `Printfmt.PrintConversion` | lib/printfmt.c:158-232 | emits the text of the conversion and advances past the arguments it takes |
| `Printfmt.Rewinds` | lib/printfmt.c:234-239 | printing % and starting again after it prints an unrecognised or truncated escape verbatim |
| `Printfmt.PutUnknown` | lib/printfmt.c:234-239 | the default case backs up to just after the % and not further |
| `Printfmt.PutLiteral` | lib/printfmt.c:92-96 | copies ordinary characters up to the next % or the end |
| `Printfmt.PutEscape` | lib/printfmt.c:98-240 | handles one escape and resumes at or after its first character, never before it |
| `Printfmt.Vprintfmt` | lib/printfmt.c:82-242 | terminates, reads no character after the NUL of the format (every read goes through `At`, which requires it), and emits exactly the text that the format and the arguments denote |
| `Printfmt.Vsnprintf` | lib/printfmt.c:268-283 | for every format, argument list and n: the buffer holds the first min(length, n - 1) characters of the unbounded text and a NUL, the rest of the buffer is untouched, and the result is the untruncated length; a null buffer or n < 1 is refused |
| `Directives.DirectiveRead` | lib/printfmt.c:98-156 | wherever a directive of flags, width, precision, long flags and conversion stands in a format, reading it gives back exactly those parts |
| `Directives.DirectivePrints` | lib/printfmt.c:158-232 | every such directive prints the numeral, string, character or error text of its arguments, in its field, and the rest of the format follows with the arguments it leaves |
| `Directives.EightDigits` | lib/printfmt.c:112-133 | `%08x` prints the hexadecimal numeral with zeros up to eight digits |
| `Directives.OtherEscape` | lib/printfmt.c:234-239 | an escape that ends in any other character, or with the format, is printed verbatim |
| `Printfmt.QuotedPrintsItself` | lib/printfmt.c:229-232 | a string with every % doubled is printed as it is, whatever the arguments |
| `Printfmt.JoinsIff` | lib/printfmt.c:82-242 | the text of two formats joined is the text of the first and then that of the second for the arguments the first leaves, for every second format, if and only if the first does not end inside an escape |
| `Printfmt.PrecisionIff` | lib/printfmt.c:112-151 | the digits after a `.` are the precision if and only if they are not all zeros; otherwise there is none |
| `Printfmt.ZeroPrecisionIgnored` | lib/printfmt.c:112-115 | `%.0s` prints all of its string |
| `Printfmt.WidthLaw` | lib/printfmt.c:174-227 | a number is max(width, digits) long, not counting sign and 0x; a string is max(width, min(length, precision)) long |
| `Printfmt.SignedReadsBack` | lib/printfmt.c:190-198 | strtol reads back every %d, under every flag, if and only if no padding but zeros stands between its sign and its digits, and no minus signs before a positive number (one before a 0 does no harm) |
| `Printfmt.UnsignedReadsBack` | lib/printfmt.c:200-227 | strtol reads back every %u, %o and %x, under every flag, unless padded with minus signs, and with the one hexadecimal exception |
| `Printfmt.PointerReadsBack` | lib/printfmt.c:212-219 | strtol reads back every %p with base 0, under every flag, if and only if it has no padding but zeros |
| `Mmu.PgaddrJoins` | inc/mmu.h:16-42 | the three fields of an address make it up again |
| `Mmu.PgaddrSplits` | inc/mmu.h:32-42 | an address made of three fields in range has those fields |
| `Mmu.PanicsIff` | kern/pmap.c:657 | check_va2pa panics exactly if the page table lies beyond physical memory |
| `Mmu.UnmappedIff` | kern/pmap.c:653-659 | it returns 0xffffffff exactly if the directory entry, or the entry of a table in memory, is not present, or for the last byte of a large page at the end of physical memory; at a page boundary, exactly if the address is not mapped |
| `Mmu.LargeGives` | kern/pmap.c:655-656 | in a large page it returns the address of the byte |
| `Mmu.SmallGives` | kern/pmap.c:657-660 | in every other case it returns the frame of the table entry |
| `Mmu.LargePageIff` | kern/pmap.c:647-661 | replacing a page table by one large page is invisible to check_va2pa, at every page boundary that is not translated through the directory itself, if and only if the table maps all frames of the large page in order |
| `Mmu.SelfMapIff` | kern/pmap.c:140-145 | where the directory serves as its own table, it is invisible if and only if the large page begins in the frame that held the table |
| `Mmu.InvisibleIff` | kern/pmap.c:647-661 | it is invisible at every page boundary if and only if the first condition holds, and for a directory that maps itself the second as well |
| `Mmu.LargePageOffset` | kern/pmap.c:655-660 | elsewhere the large page adds the offset in the page; through the self map the entries themselves are seen; all other addresses are unaffected |
| `Mmu.LargeChecksCoverMemory` | kern/pmap.c:632-637 | the two checks of a directory with large pages imply that all 256 MB at KERNBASE translate to physical memory |
| `Pmap.HighPages` | kern/pmap.c:463 | the page type is 1 exactly from page 1024 on |
| `Pmap.ListDistinct` | kern/pmap.c:462 | a list that ends visits no page twice |
| `Pmap.PageMap.PageInit` | kern/pmap.c:239-265 | every page is unreferenced and linked to the one before it; the list starts at the last page |
| `Pmap.PageMap.PartitionLowFirst` | kern/pmap.c:457-470 | relinks any list that ends, in one pass, into its low pages followed by its high pages, each in the old order; links of other pages and all reference counts are unchanged |
| `Pmap.SelectConcat` | kern/pmap.c:462-466 | selecting a class keeps the order of the list |
| `Pmap.PartitionPermutes` | kern/pmap.c:457-470 | no page is lost or duplicated |
| `Pmap.PartitionSeparates` | kern/pmap.c:457-470 | all low pages come before all high ones |
| `Pmap.InitialList` | kern/pmap.c:259-264 | page_init on an empty list makes the list npages - 1 down to 0 |
| `Pmap.InitialPartition` | kern/pmap.c:457-470 | the partition of that list is min(npages, 1024) - 1 down to 0, then npages - 1 down to 1024 |
| `Boot.Readsect` | boot/main.c:106-124 | copies one disk sector to memory |
| `Boot.Readseg` | boot/main.c:71-96 | writes whole sectors over the rounded range; an aligned segment then holds the bytes of the disk from 512 + p_offset on, and memory outside those sectors is unchanged |
| `Boot.WritesIff` | boot/main.c:78-95 | the sectors written are those from the one the segment starts in that begin before its end |
| `Boot.MemoryAt` | boot/main.c:53-56 | after loading, every address holds what the last segment to write it put there |
| `Boot.PlacedIff` | boot/main.c:50-56 | whatever the disk and memory held, loading leaves every byte of every segment in place, if and only if, at each of them, the last segment to write it takes it from the right offset |
| `Boot.IncreasingIff` | boot/main.c:84-86 | segments in increasing order are all left in place if and only if they are aligned with the image and each later one starts its sectors above, or shares the placement of, each earlier one |
| `Boot.TailZeroIff` | boot/main.c:53-56 | memory between p_filesz and p_memsz is zero if and only if the image is zero there |
| `Boot.PairwiseSuffices` | boot/main.c:84-86 | it is so if segments are aligned with the image and each later one starts its sectors above, or ends them below, or shares the placement of, each earlier one |
| `Boot.IncreasingIsNotEnough` | boot/main.c:84-86 | increasing addresses alone do not make it so |
| `Boot.HeaderIntact` | boot/main.c:53-56 | the header of a segment yet to be loaded is still what it was when the page was read |
| `Boot.LoadHeader` | boot/main.c:53-56 | the header read from memory is that of the next segment |
| `Boot.LoadSegments` | boot/main.c:50-56 | loads the segments of the table in order, reading each header when its turn comes |
| `Boot.HeadersOnDisk` | boot/main.c:50-52 | the program headers are those at their offsets on the disk, little-endian, from the header that e_phoff gives on, e_phnum of them |
| `Boot.MagicOnDisk` | boot/main.c:46-48 | the image is taken for ELF exactly if the disk bytes 512 to 515 are 0x7f, E, L and F |
| `Boot.Bootmain` | boot/main.c:38-67 | refuses any other image; otherwise leaves the declared segments loaded, each byte from its place on the disk if they are consistent, and returns the entry point |
| `ConsoleInput.Cons.Put` | kern/console.c:403-405 | appends a byte, or makes the ring look empty if it is the 512th unread one |
| `ConsoleInput.Cons.Intr` | kern/console.c:393-407 | puts the bytes of a batch in order, dropping NULs |
| `ConsoleInput.Cons.Take` | kern/console.c:421-428 | takes the oldest unread byte, or returns 0 if there is none |
| `ConsoleInput.Cons.Getc` | kern/console.c:409-429 | polls both devices first, then takes a byte |
| `ConsoleInput.IntrIsRun` | kern/console.c:395-407 | a call of cons_intr is the run of the arrivals in its batch |
| `ConsoleInput.GetcIsRun` | kern/console.c:409-429 | a call of cons_getc is the run of the arrivals from both devices followed by one read |
| `ConsoleInput.OrderKept` | kern/console.c:393-429 | over every run, bytes come out in order of arrival, the queue is the end of what arrived, and 512 bytes are lost at each overflow and none otherwise |
| `ConsoleInput.WholeRingsLost` | kern/console.c:393-429 | between delivered bytes only multiples of 512 are missing |
| `ConsoleInput.ExactIff` | kern/console.c:393-429 | delivery is exact and in order if and only if no 512th unread byte ever arrived |
| `ConsoleInput.EscapeState` | kern/console.c:331-344 | E0ESC is set exactly when the last scan code is 0xE0 |
| `ConsoleInput.ModifierState` | kern/console.c:331-346 | over every history, shift, control and alt are set exactly while the latest event of that modifier is a press; prefixed fake shifts are no events |
| `ConsoleInput.LockState` | kern/console.c:347 | each lock is set exactly after an odd number of unprefixed presses of its key |
| `ConsoleInput.TypedChar` | kern/console.c:346-355 | over every history, the table is chosen by the control and shift keys held, and case is swapped after an odd number of presses of caps lock |
| `ConsoleInput.ReleaseSilent` | kern/console.c:331-339 | a prefix or release yields no character and no reboot |
| `ConsoleInput.PressesAlone` | kern/console.c:331-364 | over every history, the characters that reach the ring are those of the presses alone, in order |
| `ConsoleInput.ZerosDropped` | kern/console.c:400-402 | the ring takes a batch as if its zeros had not been returned |
| `ConsoleInput.SwapsCase` | kern/console.c:349-354 | caps lock exchanges the cases of the letters and changes nothing else |
| `ConsoleInput.RebootIff` | kern/console.c:357-362 | the reboot key works exactly while control and alt are held |
| `ConsoleInput.Keyboard.ProcData` | kern/console.c:315-365 | one scan code changes the state, yields a character and asks for a reboot as specified; a prefix or release yields 0; nothing changes when there is no data |
| `Screen.RowsMoved` | kern/console.c:198 | the overlapping memmove of the buffer's bytes moves its rows up by one |
| `Screen.Crt.Scroll` | kern/console.c:195-202 | moves all rows up by one through memmove and blanks the last |
| `Screen.Crt.Putc` | kern/console.c:162-209 | the cursor stays on the screen, and cells and cursor are as specified, tabs included |
| `Screen.WriteRefines` | kern/console.c:162-209 | one character does to the display what it does to a page on which nothing ever moves |
| `Screen.CharWritten` | kern/console.c:164-192 | an ordinary character is put at the cursor, in white on black if it has no attribute, and the cursor moves on by one |
| `Screen.LineFeedMoves` | kern/console.c:176-181 | a line feed goes to the start of the next row |
| `Screen.ReturnMoves` | kern/console.c:179-181 | a carriage return goes to the start of the row |
| `Screen.BackspaceErases` | kern/console.c:170-175 | a backspace moves back and erases, in its own attribute, unless it is at the start of the window |
| `Screen.TabWrites` | kern/console.c:182-188 | a tab is five blanks |
| `Screen.DisplayIsWindow` | kern/console.c:162-209 | after any output the display is the 25-row window at the end of that page |
| `Screen.HistoryKept` | kern/console.c:195-202 | rows that have scrolled off never change, and the window only moves down |
| `Monitor.WhiteMeans` | kern/monitor.c:68 | white space is tab, line feed, carriage return and blank |
| `Monitor.GobbleWhite` | kern/monitor.c:82-84 | turns white space into NULs up to the next word |
| `Monitor.ScanPast` | kern/monitor.c:94-95 | finds the end of the word |
| `Monitor.ParseArgs` | kern/monitor.c:78-97 | accepts a line exactly if it has at most 15 words; argv then points at them in order and ends with a null pointer, and only white space was overwritten |
| `Monitor.WordsAreMaximalRuns` | kern/monitor.c:81-96 | the words are all the maximal runs of other characters, in order |
| `Monitor.ArgumentsAreWords` | kern/monitor.c:81-97 | each argument is a NUL-terminated string in place, equal to its word |

## Left out

- `page_alloc`, `page_free`, `pgdir_walk`, `page_insert`, `page_lookup`, `page_remove`, `boot_map_region`, most of `boot_alloc` and the checks that use them: their bodies are empty.
- Port input and output, `waitdisk`, the serial and parallel ports, the cursor registers and the NVRAM: a disk sector is an array copy, and device bytes are parameters.
- The loops of `check_page_free_list` after the partition: they only check and fill pages.
- `readline`, `mon_help`, `mon_kerninfo` and the command dispatch of `runcmd`: they would add only easy members.
- ProcData: one function stands for the four key tables; the reboot is an out-parameter in place of the write to port 0x92.
- TrustedIff: does not cover the address 0xFFFFFFFE, where the wrap of addr++ that follows a clash can undo its effect (WrapUndoesIff, WrapUndoesClash); there, the condition is still sufficient (BinsearchBrackets).
- DebuginfoEip: stops with the outcome Stray where the code would read the entry before the first stab, because what it finds there is undefined.
- Vprintfmt: widths and precisions are unbounded integers, so overflow of their digits is not modelled; the one int that `%e` cannot negate is excluded by a precondition; `%c` passes on the low byte of its argument, so display attributes in the upper bytes are not modelled.
- Vsnprintf: the format and string arguments are values, so a buffer that overlaps them is not modelled; the int count of characters does not overflow.
- Strtol: overflow, which the code does not detect, is excluded by a precondition; the round-trip lemmas speak of the mathematical value of the text.
- MemsetBytes: n = 2^31 is excluded, because the int counter then overflows.
- MemmoveBytes: excludes ranges that reach the very end of the 32-bit address space.
- MemmoveWords: excludes ranges that reach the very end of the 32-bit address space.
- Bootmain: requires that no address computed for a segment wraps at 32 bits, that the header table lies in the first page of the image, and that no segment is loaded over the header of a later one; the jump to the entry point is the returned address.
