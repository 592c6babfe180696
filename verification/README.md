# tuxdump, modelled in Dafny

tuxdump finds memory offsets in a running game process. It compiles hex
byte patterns, scans the target's memory regions for them, and decodes the
`CALL rel32` targets it finds. It then walks the game's class list and
receive tables and prints the network variables it finds there.

The repository holds three generations of this dumper. Each re-implements
the same small algorithms with different semantics, so every core source
file has its own module here and nothing is unified across generations:

| module | source file | what it models |
|---|---|---|
| `TProcessUtility` | src/tprocess/utility.cpp | `HexToBinary`, the strict `..`/hex-pair compiler |
| `TProcessRegion` | src/tprocess/region.cpp | `Hex2Bin` into fixed arrays, `Region::Find`, signed rel32 decoding |
| `Memory` | src/memory.cpp | the lenient `Hex2Bin`, `Memory::Region::Find` with zero-filled windows, unsigned rel32, the region table |
| `Tuxdump` | tuxdump.c | the `?`/space/nibble parser, the scanner whose run state survives window boundaries, rel32 with short reads |
| `TProcessProcess` | src/tprocess/process.cpp | `GetRegion`, `HasRegion`, `UpdateRegion` on `m_regions` |
| `ToolsSignatures` | src/tools/signatures.cpp | per-entry resolution of `Tools::DumpSignatures` |
| `ToolsNetvars` | src/tools/netvars.cpp | `GetClassHead`, `DumpNetvarTable`, `Tools::DumpNetvars` |
| `Netvars` | src/netvars.cpp | `CleanPropString`, `NetVarManager::LoadTable`, the constructor's walk, and what `Dump` writes |
| `Printer` | src/printer.cpp | `RemoveChars`, `ReplaceChars`, `PrintDepth`, `PrintOffset`, and the table start and end lines |
| `Formatter` | src/formatter.cpp | `Indent`, `PrintRecursive` and `Print` over an abstract JSON tree |

Three modules are shared by the others:

- `Common` holds the machine integer types and C-style wrap-around, hex digits, C strings, and character removal and replacement.
- It also holds the target's address space. This is a partial map from address to byte, and a read transfers the longest readable prefix.
- `NetvarRecords` holds the game's `ClientClass`, `RecvTable` and `RecvProp` records (src/netvars.h:10-61), a snapshot that answers reads of them, and the class-list walk.
- `TuxProc` holds the process library that src/tools/ is written against. Its source is not part of this model, so each of its services is a function parameter.

The state-changing code is modelled as state-changing Dafny:

- The region tables are classes whose methods update a `seq` field.
- The pattern compilers that fill fixed arrays are classes over `array`s.
- `RemoveChars`, `ReplaceChars` and the `DT_` `memmove` work in place on a 256-character `array`.
- The formatter is a class whose `depth` field is raised and lowered around the recursion.

Each such method is proved against a function. The properties the source
promises are proved about that function as lemmas.

## Model

| member | source | states |
|---|---|---|
| Common.HexValue | src/memory.cpp:21-50 | the hex table gives a digit's value below 16, and 0 for any other character below 0xFF; `InHexTable` marks the characters the 255-entry table can be indexed with |
| Common.HexGroup | src/memory.cpp:70-74 | a group is a wildcard iff it starts with `.`, and a wildcard's byte is 0; otherwise the byte's high nibble is the first character's value and the low nibble the second's |
| Common.CPrefix | src/printer.cpp:11 | the C string of a buffer is its longest prefix without NUL, and the NUL follows it when the buffer is longer |
| Common.Transfer | tuxdump.c:122-133 | a read copies bytes from consecutive readable addresses only, and stops exactly at the first unreadable one |
| Common.ReadInto | src/tprocess/region.cpp:105-111 | the read reports how many bytes it moved; the buffer holds them at its front and is unchanged after them |
| Common.Fill | tuxdump.c:205 | `memset` sets every byte of the buffer |
| Common.Code32 | src/memory.cpp:102-103 | a 32-bit code read from up to four bytes is their little-endian value, with missing high bytes as zero |
| Common.SignExtend32 | src/tprocess/region.cpp:115 | the `int32_t` reading of a 32-bit pattern has the same low 32 bits, and is negative iff the top bit is set |
| Common.Removed | src/printer.cpp:8-16 | removal never lengthens a string and leaves no `c` |
| Common.RemovedLength | src/printer.cpp:8-16 | the result is the input's length minus the number of `c`s |
| Common.RemovedIdempotent | src/printer.cpp:8-16 | removing twice equals removing once |
| Common.RemovedAbsent | src/printer.cpp:8-16 | a string without `c` is unchanged |
| Common.RemovedAppend | src/printer.cpp:8-16 | removal distributes over concatenation, so the kept characters stay in their original order |
| Common.RemovedKeepsOthers | src/printer.cpp:8-16 | every character other than `c` occurs in the result exactly as often as in the input |
| Common.Replaced | src/printer.cpp:18-25 | replacement keeps the length, turns each `c` into `d` and leaves every other character unchanged |
| Common.ReplacedLeavesNone | src/printer.cpp:20-24 | with `c != d`, no `c` remains |
| Common.DropTablePrefix | src/printer.cpp:131-132 | a `DT_` name loses exactly those three characters; any other name is unchanged |
| TProcessUtility.Pairs | src/tprocess/utility.cpp:19-29 | a successful compile has one entry per two input characters |
| TProcessUtility.HexToBinary | src/tprocess/utility.cpp:16-32 | the pointer loop returns the group-wise entries, or an empty result when some group is malformed |
| TProcessUtility.AllGoodCons | src/tprocess/utility.cpp:19-22 | a string is well formed iff its first group is `..` or two hex digits and the rest is well formed |
| TProcessUtility.PairsSomeIff | src/tprocess/utility.cpp:20-28 | the compile succeeds iff the length is even and every group is `..` or two hex digits; a lone `.`, a non-hex character or an odd length clears the result |
| TProcessUtility.PairsEntries | src/tprocess/utility.cpp:19-25 | entry i is a wildcard for `..`, and otherwise the byte 16·hi + lo of group i, in input order |
| TProcessUtility.EntryText | src/tprocess/utility.cpp:20-25 | every entry is written back as exactly two characters |
| TProcessUtility.Text | src/tprocess/utility.cpp:20-25 | a compiled pattern is written back as two characters per entry |
| TProcessUtility.LowerHexText | src/tprocess/utility.cpp:22-24 | lower-casing the hex letters keeps the length |
| TProcessUtility.DigitRoundTrip | src/tprocess/utility.cpp:22-24 | a hex digit's value, written back in lower case, is the digit lower-cased |
| TProcessUtility.EntryTextLower | src/tprocess/utility.cpp:20-25 | a well-formed group, compiled and written back, is the group lower-cased |
| TProcessUtility.PairsRoundTrip | src/tprocess/utility.cpp:20-25 | writing each entry back as `..` or two lower-case digits gives the input with its hex letters lower-cased |
| TProcessUtility.EmptyLooksLikeFailure | src/tprocess/utility.cpp:18-19 | the empty pattern gives no entries, which is also what `.` and `zz` give |
| TProcessRegion.Pattern | src/tprocess/region.cpp:73-84 | an even-length pattern compiles to one entry per group, in order |
| TProcessRegion.Binary.Entries | src/tprocess/region.cpp:12-16 | the entries in use are the first `size` array slots |
| TProcessRegion.Binary.constructor | src/tprocess/region.cpp:12-16 | a new `binary_t` has zeroed arrays and no entries |
| TProcessRegion.Binary.Hex2Bin | src/tprocess/region.cpp:63-87 | for a C string of any length whose parse stays inside the arrays (`ParseFits`), fails iff the length is odd or some group starts with neither `.` nor a hex digit; on success there are len/2 entries, each `mask[i]` holds iff group i starts with `.`, and `mask[size]` is false |
| TProcessRegion.Skip | src/tprocess/region.cpp:164 | the do-while skip stops at the first non-wildcard position or at the end, passing only wildcards |
| TProcessRegion.FirstMatch | src/tprocess/region.cpp:161-168 | the first window offset whose inner loop matches, or none in the range |
| TProcessRegion.MatchesAt | src/tprocess/region.cpp:162-168 | the inner `match` loop at offset `b` answers whether the pattern matches there |
| TProcessRegion.SkipWildcards | src/tprocess/region.cpp:164 | the `do { match++; } while (mask[match])` loop computes `Skip` |
| TProcessRegion.MatchFromIff | src/tprocess/region.cpp:163-164 | reference definition: a match holds iff the start position and every non-wildcard position hold their data bytes |
| TProcessRegion.LeadingWildcardNeedsZero | src/tprocess/region.cpp:75-163 | a leading wildcard is compared by its data 0, so it matches only a zero byte |
| TProcessRegion.WildcardIgnored | src/tprocess/region.cpp:163-164 | the byte under a later wildcard is never compared, so changing it never changes a match |
| TProcessRegion.ScanStep | src/tprocess/region.cpp:159-174 | one window: the hit when a complete read matches, else the next window 0x1000 on, its size clamped to `end - readAddr` |
| TProcessRegion.SearchWindow | src/tprocess/region.cpp:161-169 | the `for b` loop returns the first matching offset of the window |
| TProcessRegion.Find | src/tprocess/region.cpp:148-177 | for a C-string pattern of any length whose parse stays inside the arrays, `Find` returns 0 for a rejected pattern or no hit, and otherwise `readAddr + b + offset` for the first hit of the window schedule |
| TProcessRegion.NewBuffer | src/tprocess/region.cpp:151 | the stack buffer holds whatever it held before |
| TProcessRegion.ScanWindows | src/tprocess/region.cpp:157-175 | the window loop starts at `start` with a full 0x1000-byte request and computes the scan |
| TProcessRegion.SearchReadWindow | src/tprocess/region.cpp:160-170 | one window reads into the buffer and searches it only when the read was complete |
| TProcessRegion.WindowHitSound | src/tprocess/region.cpp:160-166 | a hit in a completely read window lies on the bytes memory holds there |
| TProcessRegion.HitSoundAt | src/tprocess/region.cpp:158-171 | a window hit at an aligned window inside the region is sound |
| TProcessRegion.ScanHitSound | src/tprocess/region.cpp:157-176 | every hit of the window loop comes from an aligned window before `end` whose read was complete |
| TProcessRegion.GetAbsoluteAddress | src/tprocess/region.cpp:113-120 | 0 on a failed 4-byte read; otherwise `addr + sext32(code) + extra` mod 2^64 |
| TProcessRegion.GetCallAddress | src/tprocess/region.cpp:130-133 | the call target of a readable `CALL rel32` is `addr + 5 + sext32(rel32)` |
| TProcessRegion.CallAddressExample | src/tprocess/region.cpp:130-133 | `E8 20 00 00 00` at 0x1000 calls 0x1025 |
| TProcessRegion.CallAddressBackward | src/tprocess/region.cpp:115-117 | `E8 FB FF FF FF` at 0x1000 calls 0x1000, because the displacement is signed |
| Memory.Groups | src/memory.cpp:69-75 | one entry per two-character group, each the group's compiled value |
| Memory.Compile | src/memory.cpp:60-77 | an odd-length pattern gives no entries; an even one gives one entry per group |
| Memory.Hex2Bin | src/memory.cpp:60-77 | the `push_back` loop computes `Compile` |
| Memory.CompileIsLenient | src/memory.cpp:73 | `zz` compiles to one zero byte here, while the region compiler rejects it |
| Memory.WildcardAnyByte | src/memory.cpp:243 | a wildcard matches any byte: changing that byte never changes a match |
| Memory.FirstMatch | src/memory.cpp:241-248 | the first matching offset in the range, or none |
| Memory.MatchesAt | src/memory.cpp:242-248 | the `match` loop at offset `b` answers whether the pattern matches there |
| Memory.SearchWindow | src/memory.cpp:241-249 | the `for b` loop returns the first matching offset of a read window |
| Memory.ScanStep | src/memory.cpp:236-253 | one window of `min(total, 0x1000)` bytes at `start + 0x1000·chunk`: its hit, or the next window |
| Memory.SearchReadWindow | src/memory.cpp:239-250 | `memset`, then the read, then the search when the read was complete |
| Memory.ScanWindows | src/memory.cpp:234-253 | the window loop with its `chunk` and `total` counters computes the scan |
| Memory.Find | src/memory.cpp:224-256 | the pattern is cut at its first NUL (`pattern.c_str()` makes a new `std::string`); 0 when that C string is empty or of odd length and when nothing matches; otherwise the first hit's `readAddr + b + offset` |
| Memory.WindowHitSound | src/memory.cpp:240-247 | every non-wildcard byte of a hit within the window is in memory at `readAddr + b` |
| Memory.HitSoundAt | src/memory.cpp:237-247 | a window hit at an aligned window inside the region is sound |
| Memory.ScanHitSound | src/memory.cpp:236-253 | every hit of the window loop over a region that does not wrap is sound |
| Memory.FindHitSound | src/memory.cpp:228-253 | for the pattern cut at its first NUL, `Find`'s hit lies in an aligned window of `[start, end)`, and `readAddr + b` is in `[start, end)` |
| Memory.GetAbsoluteAddress | src/memory.cpp:100-107 | 0 on a failed 4-byte read; otherwise `addr + code + extra` mod 2^64 with `code` unsigned |
| Memory.GetCallAddress | src/memory.cpp:117-120 | the call target is `addr + 5 + code`, with the code unsigned |
| Memory.UnsignedAgreesWithSigned | src/memory.cpp:102-104 | the unsigned and signed decodings agree iff the read fails or the displacement's top bit is clear |
| Memory.CallAddressBackwardUnsigned | src/memory.cpp:102-104 | `E8 FB FF FF FF` at 0x1000 gives 0x1_0000_1000, 4 GiB past the signed result |
| Memory.FirstNamed | src/memory.cpp:134-139 | the index of the first region with the name, or none |
| Memory.FirstExtended | src/memory.cpp:154-160 | the index of the first same-named region ending at `start`, or none |
| Memory.UpdatedMerges | src/memory.cpp:154-164 | with such a region, only the first one changes: it gets `end`, and `start` if that is lower; the count is unchanged |
| Memory.UpdatedAppends | src/memory.cpp:156-167 | without one, exactly `{name, start, end}` is appended, even when the range ends where a same-named one starts |
| Memory.UpdatedKeepsNames | src/memory.cpp:152-168 | updating never removes or reorders entries and adds at most one |
| Memory.MergeIsForwardOnly | src/memory.cpp:156-160 | `[a,b)` then `[b,c)` merge into `[a,c)`, but the other order keeps two entries |
| Memory.Memory.constructor | src/memory.cpp:86-88 | a new `Memory` has the pid and an empty table before the maps file is parsed |
| Memory.Memory.GetRegion | src/memory.cpp:132-141 | true iff some region has the name, and then a copy of the first one; on false `region_out` is untouched |
| Memory.Memory.UpdateRegion | src/memory.cpp:152-168 | the table becomes `Updated` of the old table |
| Tuxdump.Finish | tuxdump.c:114-118 | a pending nibble is flushed as one more entry |
| Tuxdump.EntriesGrow | tuxdump.c:82-118 | the parser only appends: the entries written so far stay a prefix of the entries at the end |
| Tuxdump.ParseSplit | tuxdump.c:82-112 | parsing a string is parsing its prefix, then its suffix from there |
| Tuxdump.FailedStays | tuxdump.c:92-107 | once the parse fails it stays failed |
| Tuxdump.FailsIff | tuxdump.c:84-109 | the parse fails iff some character is not a hex digit, a space or `?` |
| Tuxdump.CompileSomeIff | tuxdump.c:72-120 | `tuxdump_hex2bin` returns true iff every character is a hex digit, a space or `?` |
| Tuxdump.WildcardsAppend | tuxdump.c:87-104 | wildcards are counted additively over concatenation |
| Tuxdump.WildcardsFollowMarks | tuxdump.c:87-104 | along a successful parse, each `?` adds exactly one wildcard and nothing else does |
| Tuxdump.WildcardCount | tuxdump.c:87-104 | an accepted pattern has exactly as many wildcards as `?` characters |
| Tuxdump.DigitPair | tuxdump.c:95-109 | two adjacent hex digits form one byte, high nibble first |
| Tuxdump.LoneDigit | tuxdump.c:84-99 | a lone digit followed by a space or `?` is a byte holding just that nibble |
| Tuxdump.LoneDigitAtEnd | tuxdump.c:114-118 | a lone digit at the end of the input is flushed as a byte of its own |
| Tuxdump.FeedAt | tuxdump.c:82 | the loop consumes the input one character at a time |
| Tuxdump.DocExampleWildcards | tuxdump.c:62 | `"ab?cd?ef"` parses to `ab, ?, cd, ?, ef` |
| Tuxdump.ExampleNibblesHead | tuxdump.c:63 | the first six characters of `"a b c ? e f"` give `0a, 0b, 0c` |
| Tuxdump.DocExampleNibbles | tuxdump.c:63 | `"a b c ? e f"` parses to `0a, 0b, 0c, ?, 0e, 0f` |
| Tuxdump.ExampleMixedHead | tuxdump.c:64 | the first five characters of `"ab c?d ef?"` give `ab, 0c, ?` |
| Tuxdump.DocExampleMixed | tuxdump.c:64 | `"ab c?d ef?"` parses to `ab, 0c, ?, 0d, ef, ?` |
| Tuxdump.TuxBinary.Entries | tuxdump.c:15-19 | the entries in use are the first `len` slots of the two arrays |
| Tuxdump.TuxBinary.constructor | tuxdump.c:192 | an uninitialised `tuxdump_binary` with arrays of the declared capacity |
| Tuxdump.TuxBinary.Hex2Bin | tuxdump.c:72-120 | for a pattern whose parse writes at most 256 slots (`Width`, which does not count the pending nibble of a failing parse), returns true iff `Compile` succeeds, and then the entries are the compiled pattern |
| Tuxdump.TuxBinary.Clear | tuxdump.c:78-80 | both arrays are cleared and `len` is 0 |
| Tuxdump.TuxBinary.Append | tuxdump.c:85-117 | one entry is written into the next free slot and the rest stays cleared |
| Tuxdump.TuxBinary.Consume | tuxdump.c:83-111 | one pass of the loop body does what `Feed` says, failing exactly when `Feed` fails |
| Tuxdump.Addressed | tuxdump.c:207-211 | each scanned byte is paired with its address `read_addr + b` |
| Tuxdump.StepByte | tuxdump.c:208-220 | the scan stops iff the byte fits the current pattern position and that position is the last |
| Tuxdump.ScanStream | tuxdump.c:207-222 | a scan that goes on keeps its match count below the pattern length |
| Tuxdump.ScanAppend | tuxdump.c:198-226 | scanning two streams in turn is scanning their concatenation: the run state survives window boundaries and skipped windows |
| Tuxdump.ScanFirstWindow | tuxdump.c:202-226 | the window loop scans the first window, then the rest from where it left off |
| Tuxdump.FindAddress | tuxdump.c:187-228 | true iff the pattern parses and the scan stops; `*addr_out` then holds the result, and is otherwise unchanged |
| Tuxdump.ScanModule | tuxdump.c:198-227 | the window loop with `chunk`, `total_size` and the run state computes the scan from an empty run |
| Tuxdump.ScanReadWindow | tuxdump.c:203-223 | `memset`, the read, and the inner loop when at least one byte was transferred |
| Tuxdump.ScanWindow | tuxdump.c:207-222 | the inner loop over the window's bytes computes `ScanStream` |
| Tuxdump.FirstNonzeroAppend | tuxdump.c:210-212 | the recorded run address is the first non-zero address in the run |
| Tuxdump.PrefixExtend | tuxdump.c:208-209 | a fitting byte extends a matching run prefix |
| Tuxdump.StepTracks | tuxdump.c:208-220 | each byte keeps the run state describing the last `matches` bytes, or completes a matching run at the recorded address |
| Tuxdump.FoundEnd | tuxdump.c:213-215 | a scan that stops consumes at least one byte of the stream |
| Tuxdump.ScanSound | tuxdump.c:208-215 | a stopping scan reports the last `|pat|` bytes consumed: they fit the pattern position by position, at their first non-zero address |
| Tuxdump.ScanFromEmptySound | tuxdump.c:198-215 | from the empty run, the reported run fits the pattern and its address is the run's first non-zero address |
| Tuxdump.FindSound | tuxdump.c:187-228 | on success, `*addr_out` is where a matching run of consecutive scanned bytes began, plus `offset` |
| Tuxdump.MissesOverlappingRestart | tuxdump.c:217-220 | a mismatch restarts without re-testing the byte, so `0a 0a 0b` in `0a 0a 0a 0b` is missed |
| Tuxdump.AbsoluteAddress | tuxdump.c:136-144 | 0 when the read transfers no byte; otherwise `addr + extra + code` mod 2^64 (which can itself be 0), with the bytes it got as the low bytes of an unsigned code |
| Tuxdump.CallAddress | tuxdump.c:146-149 | a call target is 0 when no displacement byte can be read |
| Tuxdump.AgreesWithMemory | tuxdump.c:139-143 | with four readable bytes this is the unsigned decoding of `Memory`; with one to three, `Memory` gives 0 |
| Tuxdump.ShortReadCall | tuxdump.c:132-141 | with only `E8 20 01` readable at 0x1000 the C helper gives 0x1125, while `Memory` gives 0 |
| TProcessProcess.FirstNamed | src/tprocess/process.cpp:68-73 | the index of the first region with the name, or none |
| TProcessProcess.FirstExtended | src/tprocess/process.cpp:105-111 | the index of the first same-named region ending at `start`, or none |
| TProcessProcess.Updated | src/tprocess/process.cpp:103-120 | an update adds at most one region |
| TProcessProcess.UpdatedMerges | src/tprocess/process.cpp:105-115 | with a region to extend, only the first one changes and the count stays the same |
| TProcessProcess.UpdatedAppends | src/tprocess/process.cpp:118-119 | otherwise exactly `{name, pid, start, end}` is appended at the end |
| TProcessProcess.UpdatedKeepsOrder | src/tprocess/process.cpp:103-120 | no entry is removed or reordered: each keeps its place, name and pid |
| TProcessProcess.UpdatedStaysOrdered | src/tprocess/process.cpp:107-114 | with `start <= end` everywhere, the `start < r.start` branch never fires and every range stays ordered |
| TProcessProcess.MergeIsForwardOnly | src/tprocess/process.cpp:107-111 | `[a,b)` then `[b,c)` merge; the other order keeps two entries |
| TProcessProcess.Process.constructor | src/tprocess/process.h:16 | `Process() = default` leaves `m_iPid` at its default -1 (src/tprocess/memory.h:58) and the table empty |
| TProcessProcess.Process.SetPID | src/tprocess/memory.h:16 | the pid becomes the given one and the table is unchanged |
| TProcessProcess.Process.GetRegion | src/tprocess/process.cpp:66-75 | for a C-string name (`strcmp`), true iff some region has the name, and then a copy of the first; on false `region_out` is untouched |
| TProcessProcess.Process.HasRegion | src/tprocess/process.cpp:84-92 | for a C-string name, true exactly when `GetRegion` would find a region |
| TProcessProcess.Process.UpdateRegion | src/tprocess/process.cpp:103-120 | the table becomes `Updated` of the old table |
| TuxProc.ChainSnoc | src/tools/signatures.cpp:29-31 | one more offset is one more pointer read, at the end of the chain |
| TuxProc.ChainAppend | src/tools/signatures.cpp:29-31 | two chains in turn are the chain of their concatenation |
| TuxProc.FollowChain | src/tools/signatures.cpp:29-31 | the read loop performs one `Read<uintptr_t>(addr + offset[i])` per offset, in order |
| ToolsSignatures.Reported | src/tools/signatures.cpp:24-36 | a resolved address of 0 reports 0; otherwise `addr + extra - start`, narrowed to `unsigned int` |
| ToolsSignatures.NarrowWide | src/tools/signatures.cpp:36 | narrowing the `uintptr_t` keeps the low 32 bits of the exact value |
| ToolsSignatures.ReportedIsModuleOffset | src/tools/signatures.cpp:26-36 | a relative entry within 4 GiB of the start reports exactly its distance from the start plus `extra` |
| ToolsSignatures.NonRelativeIgnoresChain | src/tools/signatures.cpp:25-36 | a non-relative entry reports the `int` read at the scan hit plus `extra`; `offset[1..]` and the region start play no part |
| ToolsSignatures.RelativeExample | src/tools/signatures.cpp:36 | start 0x7f0000, resolved 0x7f0123 and `extra` 4 report 0x127 |
| ToolsSignatures.ResolveEntry | src/tools/signatures.cpp:24-36 | the loop body computes `Reported` |
| ToolsSignatures.DumpSignatures | src/tools/signatures.cpp:8-41 | one key per entry, named after it, in configuration order, each holding the reported value |
| ToolsNetvars.GetClassHead | src/tools/netvars.cpp:66-78 | the scan hit with `offset[0]`, its call target, then one pointer read per remaining offset |
| ToolsNetvars.TableShape | src/tools/netvars.cpp:84-129 | a table prints nothing iff its array read fails, its only prop is `baseclass`, or its first name is digit-led; otherwise it prints one block from TableStart to TableEnd |
| ToolsNetvars.NestedOffsetOnlyWhenPositive | src/tools/netvars.cpp:115-124 | a nesting DataTable prop prints its own offset first iff `m_Offset > 0` |
| ToolsNetvars.LeafAlwaysPrinted | src/tools/netvars.cpp:125-127 | any other printable prop prints its offset at `depth + 1`, even an offset of 0 |
| ToolsNetvars.RunAppend | src/tools/netvars.cpp:100-129 | replaying two event sequences in turn is replaying their concatenation |
| ToolsNetvars.TableNests | src/tools/netvars.cpp:80-130 | a dumped table is well bracketed: TableStart and TableEnd carry the same name and depth, and everything between sits one level deeper |
| ToolsNetvars.PropsNest | src/tools/netvars.cpp:101-128 | the events of the props are well bracketed |
| ToolsNetvars.PropNests | src/tools/netvars.cpp:115-127 | the events of one prop are well bracketed |
| ToolsNetvars.CleanAppend | src/tools/netvars.cpp:107-113 | clean output stays clean under concatenation |
| ToolsNetvars.TableOffsetsClean | src/tools/netvars.cpp:103-113 | no offset of a dumped table is named `baseclass` or starts with a digit, at any nesting level |
| ToolsNetvars.PropsOffsetsClean | src/tools/netvars.cpp:103-113 | the same for the props of a table |
| ToolsNetvars.PropOffsetsClean | src/tools/netvars.cpp:103-127 | the same for one prop |
| ToolsNetvars.ListEventsSnoc | src/tools/netvars.cpp:139-146 | one more node prints its events after the others |
| ToolsNetvars.DumpClass | src/tools/netvars.cpp:140-145 | a node prints its table at depth 1, and nothing when `m_pRecvTable` is null |
| ToolsNetvars.DumpNetvars | src/tools/netvars.cpp:132-149 | when every table the dump reads fits `props[1024]`, the walk follows `m_pNext` from the head until 0 and prints the nodes' tables in list order |
| ToolsNetvars.ListNests | src/tools/netvars.cpp:138-146 | the whole netvar dump is well bracketed and prints no skipped name |
| NetvarRecords.Nodes | src/tools/netvars.cpp:139-146 | the walk visits at most `fuel` nodes |
| NetvarRecords.NodesFollowList | src/netvars.cpp:36-41 | on a list that ends, the walk starts at the head, follows every `m_pNext`, and stops at the first node whose `m_pNext` is 0 |
| NetvarRecords.NodesStep | src/netvars.cpp:37-41 | one step of the walk: the head, then the nodes after it |
| Netvars.Cleaned | src/netvars.cpp:5-24 | cleaning never lengthens a name |
| Netvars.CleanPropString | src/netvars.cpp:5-24 | the in-place loop computes `Cleaned` |
| Netvars.ReplaceStep | src/netvars.cpp:10-15 | turning the examined `.` or `[` into `_` keeps the loop invariant |
| Netvars.KeepStep | src/netvars.cpp:19-20 | stepping over any other character keeps the loop invariant |
| Netvars.EraseStep | src/netvars.cpp:16-18 | erasing the examined `]` and stepping past its successor keeps the loop invariant |
| Netvars.CleanedWithoutBrackets | src/netvars.cpp:8-15 | without `]`, the length is kept, `.` and `[` become `_`, and all else is unchanged |
| Netvars.CleanedIdempotent | src/netvars.cpp:8-15 | without `]`, cleaning twice equals cleaning once |
| Netvars.DoubleBracketExample | src/netvars.cpp:8-18 | `"a]]"` becomes `"a]"`, because the character sliding into the erased slot is not examined |
| Netvars.LoadTable | src/netvars.cpp:49-80 | the descriptor loop computes `Loaded` |
| Netvars.LoadDescriptor | src/netvars.cpp:57-76 | one descriptor is skipped, or becomes a child table or a child prop |
| Netvars.LoadStep | src/netvars.cpp:61-76 | a descriptor adds at most one child, at the end of its list |
| Netvars.ChildrenFiltered | src/netvars.cpp:61-73 | no kept child has a null or digit-led name or is `baseclass`; every child table carries its descriptor and that descriptor's offset |
| Netvars.ArrayPropsKept | src/netvars.cpp:69-76 | an Array-kind descriptor that passes the skips becomes a child prop |
| Netvars.ChildrenGrowAtEnd | src/netvars.cpp:56-75 | later descriptors add children only after earlier ones, so both lists keep array order |
| Netvars.ChildrenCount | src/netvars.cpp:56-77 | the two child lists together are no longer than the array |
| Netvars.ClassTablesInOrder | src/netvars.cpp:37-41 | table k is the loaded table of node k: one table per node, in list order |
| Netvars.ClassTablesSnoc | src/netvars.cpp:38-40 | one more node appends its loaded table |
| Netvars.NetVarManager.constructor | src/netvars.cpp:33-42 | the walk loads one table per class node, in list order, until `m_pNext` is 0 |
| Netvars.FirstIndex | src/netvars.cpp:159-194 | `find_first_of('_')`: the index of the first `_`, or none |
| Netvars.MemberNameExample | src/netvars.cpp:119-163 | `DT_Foo` is written as member `m_Foo` and as namespace `Foo` |
| Netvars.PositiveAppend | src/netvars.cpp:150-186 | positive offsets stay positive under concatenation |
| Netvars.BracesAppend | src/netvars.cpp:118-179 | replaying two line sequences in turn is replaying their concatenation |
| Netvars.SoundAppend | src/netvars.cpp:111-133 | sound output stays sound under concatenation |
| Netvars.PropLinesSound | src/netvars.cpp:149-190 | the prop lines hold only positive offsets |
| Netvars.BodySound | src/netvars.cpp:147-210 | a table body is sound |
| Netvars.TablesSound | src/netvars.cpp:157-209 | the child tables' lines are sound |
| Netvars.ChildSound | src/netvars.cpp:158-208 | one child table's lines are sound: its member line has a positive offset |
| Netvars.BlockSound | src/netvars.cpp:171-208 | a heading, the body, and for C++ the closing brace are sound |
| Netvars.DumpSound | src/netvars.cpp:111-133 | the dump writes no zero offset; in C++ style every namespace is closed at the level it was opened, and raw style writes no closing line |
| Netvars.TopBlockSound | src/netvars.cpp:112-132 | one top-level table's lines are sound |
| Netvars.EmptyTablesSilent | src/netvars.cpp:112-169 | tables without children write nothing |
| Printer.CPrefixOfCString | src/printer.cpp:45 | a name without NUL is its own C string |
| Printer.CPrefixAppend | src/printer.cpp:15 | whatever follows a terminator is not part of the C string |
| Printer.CStringAt | src/printer.cpp:45-130 | a buffer holding `r` and then NUL holds the C string `r` |
| Printer.CPrefixShort | src/printer.cpp:11 | the C string of a buffer with a NUL ends before the end of the buffer |
| Printer.CopyName | src/printer.cpp:44-45 | `strcpy` into the 256-character buffer leaves the name followed by NUL |
| Printer.CStringLength | src/printer.cpp:11-20 | a buffer with a NUL holds the C string `CPrefix` gives, followed by NUL |
| Printer.RemovedPrefixStep | src/printer.cpp:12-13 | one more character read by the loop is kept unless it is `before` |
| Printer.RemovedNoNul | src/printer.cpp:8-16 | removing characters from a C string leaves a C string |
| Printer.RemoveChars | src/printer.cpp:8-16 | the two-pointer compaction leaves the name without `before`, then NUL, and the bytes after that unchanged |
| Printer.RemoveCharsCString | src/printer.cpp:8-16 | afterwards the buffer's C string is the old one without `before` |
| Printer.ReplaceChars | src/printer.cpp:18-25 | each `before` of the C string becomes `after`, and nothing from the terminator on changes |
| Printer.ReplaceCharsCString | src/printer.cpp:18-25 | afterwards the buffer's C string is the replaced one, cut at the first `after` when that is NUL |
| Printer.AppliedStep | src/printer.cpp:46-54 | one more entry applies after the ones before it |
| Printer.AppliedFirst | src/printer.cpp:46-54 | entries apply in list order: the first entry sees the name itself |
| Printer.StepKeepsAbsent | src/printer.cpp:46-54 | a character that is no entry's target stays out |
| Printer.RemovedSubset | src/printer.cpp:8-16 | removal adds no character |
| Printer.RemovedStaysOut | src/printer.cpp:46-54 | a character one entry removes stays out unless a later entry replaces something with it |
| Printer.ReplaceByNulTruncates | src/printer.cpp:22 | replacing `c` by NUL cuts the name just before its first `c` |
| Printer.PrintDepth | src/printer.cpp:27-35 | the delimiter is written exactly `max(depth, 0)` times, and nothing without a `tab_character` |
| Printer.ApplyEntry | src/printer.cpp:47-53 | a one-element entry removes its character and a two-element one replaces it |
| Printer.PrintOffset | src/printer.cpp:37-59 | the indentation, then one offset line with the replacement list applied in order, or the plain name without a list |
| Printer.ShiftOutPrefix | src/printer.cpp:132 | `memmove` moves the buffer three characters down and leaves its last three unchanged |
| Printer.TablePrefixTest | src/printer.cpp:131 | `strncmp` with `DT_` tests the name's first three characters |
| Printer.ShiftedName | src/printer.cpp:132 | after the shift the buffer holds the name without its first three characters |
| Printer.StripTablePrefix | src/printer.cpp:129-133 | the buffer then holds the name without a leading `DT_`, and any other name unchanged |
| Printer.PrintNetvarTableStart | src/printer.cpp:116-139 | nothing without `table_start`; otherwise the indentation and the name, without `DT_` when `strip_table_prefix` is set |
| Printer.PrintNetvarTableEnd | src/printer.cpp:141-149 | the indentation, then the end line when `table_end` exists |
| Formatter.Find | src/formatter.cpp:95-102 | `find(c, from)` is the first `c` at or after `from`, or none |
| Formatter.RemovedErase | src/formatter.cpp:98 | erasing one `c` does not change what removing all of them gives |
| Formatter.ApplyPair | src/formatter.cpp:95-105 | one pair's loop computes `PairApplied` |
| Formatter.EraseAll | src/formatter.cpp:97-99 | a pair `(c, 0)` erases every `c` |
| Formatter.ReplaceAll | src/formatter.cpp:100-103 | a pair `(c, d)` turns every `c` into `d`, and ends even when `d == c` because the search resumes at `pos + 1` |
| Formatter.ApplyPairs | src/formatter.cpp:94-106 | the pairs apply one after the other, in list order |
| Formatter.RenamedFirst | src/formatter.cpp:94 | the first pair sees the scope itself |
| Formatter.PairEffect | src/formatter.cpp:97-103 | `(c, 0)` leaves no `c` and shortens by their count; `(c, d)` keeps the length and turns each `c` into `d` |
| Formatter.EmittedObject | src/formatter.cpp:80-92 | an object writes its scope without `DT_` between an indented TableBegin and TableEnd, its members one level deeper |
| Formatter.EmittedInt | src/formatter.cpp:93-108 | an int leaf writes its renamed scope, unstripped, and its value as `unsigned` |
| Formatter.NestAppend | src/formatter.cpp:85-92 | replaying two event sequences in turn is replaying their concatenation |
| Formatter.PadsNest | src/formatter.cpp:68-73 | indentation opens and closes nothing |
| Formatter.EmittedNests | src/formatter.cpp:75-110 | every member closes each scope it opens, with the same name |
| Formatter.ChildrenNest | src/formatter.cpp:87-89 | so do an object's members in order |
| Formatter.Formatter.constructor | src/formatter.cpp:49-59 | a formatter starts at `default_depth` with the format's pairs |
| Formatter.Formatter.Indent | src/formatter.cpp:68-73 | one indent string per level of a positive depth, and `m_depth` unchanged |
| Formatter.Formatter.PrintRecursive | src/formatter.cpp:75-110 | writes `Emitted` for the member and leaves `m_depth` as it found it |
| Formatter.Formatter.PrintMembers | src/formatter.cpp:87-89 | every member of an object, in member order, at the current depth |
| Formatter.Formatter.Print | src/formatter.cpp:126-138 | the indentation, then every top-level member in order |
| Formatter.DocumentNests | src/formatter.cpp:134-138 | the whole document's output closes every scope it opens |

## Left out

- Remote memory access (`process_vm_readv` in tuxdump.c:122-133, src/tprocess/region.cpp:105-111 and the `Read` templates of src/memory.h) is a partial map from address to byte. Wrappers that need a full read and `tuxdump_read`, which succeeds on any positive byte count, are told apart by how they use the transfer.
- The /proc scanning is not modelled: `Process::Attach` with its sleep and retry loop, both `ParseMaps`, and `tuxdump_load_module`. Only their effect is modelled: `Attach` through `SetPID`, and the maps parsers through `UpdateRegion`.
- The configuration, formatting and output libraries are not modelled: src/config.cpp, the libconfig lookups in src/printer.cpp and `Formatter::LoadFormat`, fmt and rapidjson, `PrintTimestamp`, the file header and footer, and src/logger.h.
- The printer's settings are a `Style` value in which a missing setting is `None`. The formatter's replacement pairs are a constructor parameter.
- Output is a sequence of abstract events or lines, not formatted text.
- `Printer.PrintOffset`: a format without `variable_offset`, which the source does not catch, is not modelled.
- `Formatter.Formatter.Print`: the JSON output path (`m_bJson`, which prints the document as it is) is not modelled, and neither are the header, timestamp and footer texts.
- `Formatter.EmittedObject`: `m_fmtRemovePrefix` is read from the format but never used, so objects always lose `DT_`. Only that behaviour is modelled.
- `Formatter.Formatter.PrintRecursive`: `m_depth` is an unbounded integer, so `int` overflow is not modelled.
- `Formatter.EmittedInt`: rapidjson's `GetUint` asserts on a negative `int`; the model gives its two's-complement value instead.
- The CLI drivers are not modelled: getopt and the driver loops in src/main.cpp and main.c. This includes main.c:111-113, which subtracts the client start even for engine signatures.
- The TuxProc library's source is not part of this model. `FindPattern`, `GetRegion`, `GetCallAddress` and `Read` are function parameters.
- `ToolsSignatures.DumpSignatures`: src/tools/signatures.cpp:23 tests the region name, not the region pointer, so the region is assumed to exist.
- Undefined behaviour is excluded by preconditions, not modelled. This covers:
  - the pattern arrays (256 entries in tuxdump.c, 128 in src/tprocess/region.cpp). For tuxdump.c, `Tuxdump.Width` counts only the slots the parse writes. A failing parse writes its entries but never its pending nibble, so such a pattern is excluded only when its entries alone overflow. For src/tprocess/region.cpp, `TProcessRegion.ParseFits` excludes only the patterns whose parse would write past the arrays. These are the even-length patterns of 128 or more groups whose first 129 groups are all led by `.` or a hex digit. Longer patterns that are rejected earlier, and odd-length ones, are modelled;
  - `props[1024]` in src/tools/netvars.cpp. `ToolsNetvars.TreeFits` and `ToolsNetvars.ClassFits` require the bound only of the tables the dump actually reads, within the nesting fuel;
  - the 256-byte `strcpy` in src/printer.cpp;
  - the 256-byte region name copied by `TProcess::Region`;
  - an empty pattern in tuxdump.c and src/tprocess/region.cpp, whose inner loops then read past the pattern;
  - a pattern character 0xFF looked up in the 255-entry `hltbl` of src/memory.cpp:23 and src/tprocess/region.cpp:26, which reads one entry past the table. `Memory.LookupsInTable` and `TProcessRegion.LookupsInTable` exclude it: the first covers both characters of every group not led by `.` (src/memory.cpp:73), the second the unchecked second character of a group led by a hex digit (src/tprocess/region.cpp:78). tuxdump.c and src/tprocess/utility.cpp test `isxdigit` before every lookup.
- `Memory.Find`, `TProcessRegion.Find`: `buf[b + match]` can read past the 0x1000-byte buffer. What lies there is an explicit `overrun` parameter, and nothing is claimed about it. src/tprocess/region.cpp leaves the buffer uninitialised and keeps stale bytes across windows, so its initial contents are a parameter too.
- `Memory.FindHitSound`, `TProcessRegion.ScanHitSound`, `Tuxdump.FindSound` claim only that a hit is sound. No `Find` is complete over the whole region: a match that spans a 0x1000 window is not found by either `Find`, and `tuxdump_find_address` misses overlapping restarts (`Tuxdump.MissesOverlappingRestart`).
- `TProcessRegion.Find` requires `end <= 2^64 - 0x1000`, so `readAddr += 0x1000` cannot wrap.
- `NetvarRecords.Nodes`, `Netvars.Loaded`: the class-list and nested-table walks have no cycle guard. The list walk requires the list to end within a ghost node bound, and table loading and dumping are cut after `fuel` levels of nesting.
- `Netvars.NameAt`, `ToolsNetvars.FirstName`, `ToolsNetvars.DumpTable`: a name whose 64-byte read fails keeps what the snapshot says the buffer holds. No stale stack contents are modelled. This includes the `propName` and `tableName` buffers of src/tools/netvars.cpp:83 and :136, which keep the previous iteration's name.
- `ToolsNetvars.Silent`: the prop array is read whole or not at all. A partial read of the array is not modelled.
- `Printer.CopyName`: the characters after the copied name are zero in the model. In the source they are stale stack bytes, which the prefix `memmove` moves but never prints.
- `Netvars.DumpLines`: the default indents of `PrintIndent()` and `DumpTable*()` come from the header's default arguments and are parameters here.
- The stale headers are not followed. src/netvars.h names the class `NetvarDumper`, and src/tprocess/process.h does not match src/tprocess/process.cpp. The model follows the .cpp files and uses the headers only for record layouts.
