/**
 * The `TProcess::Memory` class: a lenient pattern compiler (`Hex2Bin`),
 * a windowed scanner that zero-fills each window (`Region::Find`), unsigned
 * rel32 decoding (`GetAbsoluteAddress`, `GetCallAddress`) and the table of
 * named regions (`GetRegion`, `UpdateRegion`).
 */
module Memory {
  import opened Common
  import TProcessRegion

  /** `Memory::Region`: a named `[start, end)` range. */
  datatype Region = Region(name: string, start: u64, end: u64)

  // ---------------------------------------------------------------------
  // Pattern compiler.
  // ---------------------------------------------------------------------

  /** The entries of an even-length string, one per two-character group. */
  function Groups(s: string): (r: seq<PatternByte>)
    requires |s| % 2 == 0
    ensures |r| == |s| / 2
    ensures forall i :: 0 <= i < |r| ==> r[i] == HexGroup(s[2 * i], s[2 * i + 1])
    decreases |s|
  {
    if s == [] then [] else [HexGroup(s[0], s[1])] + Groups(s[2..])
  }

  /**
   * What `Hex2Bin` returns: nothing for odd length; otherwise one entry per
   * group, a wildcard when the group starts with `.` (its second character
   * is ignored) and else the byte of the two digits, where a non-hex
   * character counts as 0.
   */
  function Compile(src: string): (r: seq<PatternByte>)
    requires LookupsInTable(src)
    ensures |src| % 2 != 0 ==> r == []
    ensures |src| % 2 == 0 ==>
      (|r| == |src| / 2 && forall i :: 0 <= i < |r| ==> r[i] == HexGroup(src[2 * i], src[2 * i + 1]))
  {
    if |src| % 2 != 0 then [] else Groups(src)
  }

  /**
   * Every `hltbl` lookup `Hex2Bin` makes stays inside the 255-entry table:
   * on an even-length string, both characters of each group not led by `.`.
   */
  predicate LookupsInTable(src: string)
  {
    |src| % 2 == 0 ==> forall i :: 0 <= i < |src| / 2 ==> GroupInTable(src, i)
  }

  /** Group `i` is led by `.`, or both of its characters index `hltbl`. */
  predicate GroupInTable(src: string, i: nat)
    requires 2 * i + 1 < |src|
  {
    src[2 * i] != '.' ==> InHexTable(src[2 * i]) && InHexTable(src[2 * i + 1])
  }

  /** `Hex2Bin(src)`: the `push_back` loop over the groups. */
  method Hex2Bin(src: string) returns (bin: seq<PatternByte>)
    requires LookupsInTable(src)
    ensures bin == Compile(src)
  {
    if |src| % 2 != 0 {
      return [];
    }
    bin := [];
    var i := 0;
    while i < |src|
      invariant i % 2 == 0 && i <= |src| && |bin| == i / 2
      invariant forall k :: 0 <= k < |bin| ==> bin[k] == HexGroup(src[2 * k], src[2 * k + 1])
    {
      if src[i] == '.' {
        bin := bin + [PatternByte(true, 0)];
      } else {
        bin := bin + [PatternByte(false, 16 * HexValue(src[i]) + HexValue(src[i + 1]))];
      }
      i := i + 2;
    }
  }

  /** Unlike the fixed-array compiler, this one accepts groups that are not hexadecimal. */
  lemma CompileIsLenient()
    ensures Compile("zz") == [PatternByte(false, 0)]
    ensures !TProcessRegion.Accepts("zz")
  {
    assert !IsHexDigit("zz"[2 * 0]);
  }

  // ---------------------------------------------------------------------
  // Matching and the window loop.
  // ---------------------------------------------------------------------

  /** A wildcard matches any byte; every other position must hold its byte. */
  predicate MatchAt(pat: seq<PatternByte>, v: seq<u8>, b: nat)
    requires b + |pat| <= |v|
  {
    forall j :: 0 <= j < |pat| ==> pat[j].wildcard || pat[j].value == v[b + j]
  }

  /** A wildcard's byte never decides a match. */
  lemma WildcardAnyByte(pat: seq<PatternByte>, v: seq<u8>, b: nat, j: nat, x: u8)
    requires b + |pat| <= |v| && j < |pat| && pat[j].wildcard
    ensures MatchAt(pat, v, b) == MatchAt(pat, v[b + j := x], b)
  {
    var w := v[b + j := x];
    assert forall k :: 0 <= k < |pat| && k != j ==>
      (pat[k].wildcard || pat[k].value == w[b + k]) == (pat[k].wildcard || pat[k].value == v[b + k]);
  }

  /** The first `b` in `[lo, n)` at which the pattern matches. */
  function FirstMatch(pat: seq<PatternByte>, v: seq<u8>, lo: nat, n: nat): (r: Option<nat>)
    requires lo <= n && n + |pat| <= |v|
    ensures r.Some? ==> lo <= r.value < n && MatchAt(pat, v, r.value)
    ensures r.None? ==> forall b :: lo <= b < n ==> !MatchAt(pat, v, b)
    ensures r.Some? ==> forall b :: lo <= b < r.value ==> !MatchAt(pat, v, b)
    decreases n - lo
  {
    if lo == n then None
    else if MatchAt(pat, v, lo) then Some(lo)
    else FirstMatch(pat, v, lo + 1, n)
  }

  /**
   * One window: searched when its read is complete, skipped otherwise.
   * The buffer is zero-filled first, so bytes past a short window read 0.
   */
  function Window(mem: AddressSpace, pat: seq<PatternByte>, readAddr: u64, readSize: nat, overrun: seq<u8>): Option<nat>
    requires |overrun| >= |pat| && readSize <= BufSize
  {
    var got := Transfer(mem, readAddr, readSize);
    if |got| == readSize then FirstMatch(pat, Overwrite(Zeros(), got) + overrun, 0, readSize) else None
  }

  /** A hit: the window's address and size, and the offset of the match in it. */
  datatype Hit = Hit(readAddr: u64, size: nat, index: nat)

  /**
   * The window loop of `Find` from window number `chunk` with `total` bytes
   * left: each window is zero-filled, read in full or skipped, and searched.
   */
  function Scan(mem: AddressSpace, pat: seq<PatternByte>, start: u64, total: nat, chunk: nat,
                overrun: seq<u8>): (r: Option<Hit>)
    requires |overrun| >= |pat|
    decreases total
  {
    if total == 0 then None
    else
      var readSize := if total < BufSize then total else BufSize;
      var readAddr := WindowAddr(start, chunk);
      var found := Window(mem, pat, readAddr, readSize, overrun);
      if found.Some? then Some(Hit(readAddr, readSize, found.value))
      else Scan(mem, pat, start, total - readSize, chunk + 1, overrun)
  }

  /** The result of `Memory::Region::Find`: 0 for an empty pattern or no hit. */
  function FindResult(region: Region, mem: AddressSpace, pattern: string, offset: u64, overrun: seq<u8>): u64
    requires LookupsInTable(CPrefix(pattern)) && |overrun| >= |pattern| / 2
  {
    var pat := Compile(CPrefix(pattern));
    if pat == [] then 0
    else match Scan(mem, pat, region.start, Wrap64(region.end - region.start), 0, overrun)
      case None => 0
      case Some(h) => Wrap64(h.readAddr + h.index + offset)
  }

  /** The `match` loop of `Find` at window offset `b`. */
  method MatchesAt(pat: seq<PatternByte>, buf: array<u8>, overrun: seq<u8>, b: nat) returns (found: bool)
    requires 0 < |pat| && buf.Length == BufSize && b < BufSize && |overrun| >= |pat|
    ensures found == MatchAt(pat, buf[..] + overrun, b)
  {
    ghost var v := buf[..] + overrun;
    var m := 0;
    while pat[m].wildcard || pat[m].value == (if b + m < BufSize then buf[b + m] else overrun[b + m - BufSize])
      invariant m < |pat|
      invariant forall j :: 0 <= j < m ==> pat[j].wildcard || pat[j].value == v[b + j]
      decreases |pat| - m
    {
      m := m + 1;
      if m == |pat| {
        return true;
      }
    }
    return false;
  }

  /** The `for b` loop of `Find` over one completely read window. */
  method SearchWindow(pat: seq<PatternByte>, buf: array<u8>, overrun: seq<u8>, size: nat) returns (found: Option<nat>)
    requires 0 < |pat| && buf.Length == BufSize && size <= BufSize && |overrun| >= |pat|
    ensures found == FirstMatch(pat, buf[..] + overrun, 0, size)
  {
    ghost var v := buf[..] + overrun;
    var b := 0;
    while b < size
      invariant b <= size
      invariant FirstMatch(pat, v, 0, size) == FirstMatch(pat, v, b, size)
    {
      var hit := MatchesAt(pat, buf, overrun, b);
      if hit {
        return Some(b);
      }
      b := b + 1;
    }
    return None;
  }

  /** One turn of the window loop. */
  lemma ScanStep(mem: AddressSpace, pat: seq<PatternByte>, start: u64, total: nat, chunk: nat, overrun: seq<u8>)
    requires |overrun| >= |pat| && total > 0
    ensures var readSize := if total < BufSize then total else BufSize;
      var readAddr := WindowAddr(start, chunk);
      var found := Window(mem, pat, readAddr, readSize, overrun);
      Scan(mem, pat, start, total, chunk, overrun) ==
        if found.Some? then Some(Hit(readAddr, readSize, found.value))
        else Scan(mem, pat, start, total - readSize, chunk + 1, overrun)
  {
  }

  /**
   * The body of the window loop: zero the buffer, read the window, and
   * search it when the read was complete.
   */
  method SearchReadWindow(pat: seq<PatternByte>, mem: AddressSpace, buf: array<u8>, readAddr: u64,
                          readSize: nat, overrun: seq<u8>) returns (found: Option<nat>)
    requires 0 < |pat| && |overrun| >= |pat| && buf.Length == BufSize && readSize <= BufSize
    modifies buf
    ensures found == Window(mem, pat, readAddr, readSize, overrun)
  {
    Fill(buf, 0);
    assert buf[..] == Zeros();
    var n := ReadInto(mem, readAddr, buf, readSize);
    if n == readSize {
      found := SearchWindow(pat, buf, overrun, readSize);
    } else {
      found := None;
    }
  }

  /** The window loop of `Find`, with the `chunk`/`total` counters of the source. */
  method ScanWindows(pat: seq<PatternByte>, mem: AddressSpace, start: u64, end: u64, overrun: seq<u8>)
      returns (hit: Option<Hit>)
    requires 0 < |pat| && |overrun| >= |pat|
    ensures hit == Scan(mem, pat, start, Wrap64(end - start), 0, overrun)
  {
    var buf := new u8[BufSize];
    var chunk := 0;
    var total: u64 := Wrap64(end - start);
    while total > 0
      invariant buf.Length == BufSize
      invariant Scan(mem, pat, start, Wrap64(end - start), 0, overrun) == Scan(mem, pat, start, total, chunk, overrun)
      decreases total
    {
      ScanStep(mem, pat, start, total, chunk, overrun);
      var readSize := if total < BufSize then total else BufSize;
      var readAddr := WindowAddr(start, chunk);
      var found := SearchReadWindow(pat, mem, buf, readAddr, readSize, overrun);
      if found.Some? {
        return Some(Hit(readAddr, readSize, found.value));
      }
      total := total - readSize;
      chunk := chunk + 1;
    }
    return None;
  }

  /**
   * `Memory::Region::Find`: compiles the pattern (an empty result gives 0)
   * and scans `end - start` bytes from `start`, reducing the length modulo
   * 2^64 as `size_t` does.  `overrun` is what lies after the stack buffer.
   */
  method Find(region: Region, mem: AddressSpace, pattern: string, offset: u64, overrun: seq<u8>)
      returns (r: u64)
    requires LookupsInTable(CPrefix(pattern)) && |overrun| >= |pattern| / 2
    ensures r == FindResult(region, mem, pattern, offset, overrun)
  {
    var bin := Hex2Bin(CPrefix(pattern));
    if |bin| == 0 {
      return 0;
    }
    var hit := ScanWindows(bin, mem, region.start, region.end, overrun);
    r := if hit.Some? then Wrap64(hit.value.readAddr + hit.value.index + offset) else 0;
  }

  /**
   * A hit lies in a window that starts `0x1000·k` past the region start and
   * whose read was complete; the matched address is inside `[start, end)`;
   * and when the match fits in the window, memory holds every non-wildcard
   * byte of the pattern there.
   */
  predicate HitSound(mem: AddressSpace, pat: seq<PatternByte>, start: int, end: int, h: Hit)
  {
    start <= h.readAddr && (h.readAddr - start) % BufSize == 0 &&
    h.index < h.size <= BufSize && |Transfer(mem, h.readAddr, h.size)| == h.size &&
    start <= h.readAddr + h.index < end &&
    (h.index + |pat| <= h.size ==> MatchesMemory(pat, mem, h.readAddr + h.index))
  }

  /** Every non-wildcard byte of the pattern is in memory at `a`. */
  predicate MatchesMemory(pat: seq<PatternByte>, mem: AddressSpace, a: int)
  {
    forall j :: 0 <= j < |pat| && !pat[j].wildcard ==> ByteAt(mem, a + j) == Some(pat[j].value)
  }

  /**
   * A window hit is at an offset inside the window, the window's read was
   * complete, and memory holds the pattern there when it fits in the window.
   */
  lemma WindowHitSound(mem: AddressSpace, pat: seq<PatternByte>, readAddr: u64, readSize: nat, overrun: seq<u8>)
    requires |overrun| >= |pat| && readSize <= BufSize
    requires Window(mem, pat, readAddr, readSize, overrun).Some?
    ensures var b := Window(mem, pat, readAddr, readSize, overrun).value;
      b < readSize && |Transfer(mem, readAddr, readSize)| == readSize &&
      (b + |pat| <= readSize ==> MatchesMemory(pat, mem, readAddr + b))
  {
    var got := Transfer(mem, readAddr, readSize);
    var v := Overwrite(Zeros(), got) + overrun;
    var b := Window(mem, pat, readAddr, readSize, overrun).value;
    if b + |pat| <= readSize {
      forall j | 0 <= j < |pat| && !pat[j].wildcard
        ensures ByteAt(mem, readAddr + b + j) == Some(pat[j].value)
      {
        assert v[b + j] == got[b + j];
      }
    }
  }

  lemma HitSoundAt(mem: AddressSpace, pat: seq<PatternByte>, start: int, end: int, readAddr: u64,
                   readSize: nat, overrun: seq<u8>)
    requires |overrun| >= |pat| && readSize <= BufSize && Window(mem, pat, readAddr, readSize, overrun).Some?
    requires start <= readAddr && (readAddr - start) % BufSize == 0 && readAddr + readSize <= end
    ensures HitSound(mem, pat, start, end, Hit(readAddr, readSize, Window(mem, pat, readAddr, readSize, overrun).value))
  {
    WindowHitSound(mem, pat, readAddr, readSize, overrun);
  }

  lemma {:induction false} Aligned(k: nat)
    ensures (BufSize * k) % BufSize == 0
  {
    if k > 0 {
      Aligned(k - 1);
      assert BufSize * k == BufSize * (k - 1) + BufSize;
    }
  }

  /** Every hit of the window loop over a region that does not wrap is sound. */
  lemma {:induction false} ScanHitSound(mem: AddressSpace, pat: seq<PatternByte>, start: u64, end: int,
                                        total: nat, chunk: nat, overrun: seq<u8>)
    requires |overrun| >= |pat| && start + BufSize * chunk + total == end <= U64
    requires Scan(mem, pat, start, total, chunk, overrun).Some?
    ensures HitSound(mem, pat, start, end, Scan(mem, pat, start, total, chunk, overrun).value)
    decreases total
  {
    var readSize := if total < BufSize then total else BufSize;
    var readAddr := start + BufSize * chunk;
    assert WindowAddr(start, chunk) == readAddr;
    Aligned(chunk);
    var found := Window(mem, pat, readAddr, readSize, overrun);
    ScanStep(mem, pat, start, total, chunk, overrun);
    if found.Some? {
      HitSoundAt(mem, pat, start, end, readAddr, readSize, overrun);
    } else {
      var rest := total - readSize;
      assert Scan(mem, pat, start, rest, chunk + 1, overrun).Some?;
      assert rest > 0 && readSize == BufSize;
      assert start + BufSize * (chunk + 1) + rest == end;
      ScanHitSound(mem, pat, start, end, rest, chunk + 1, overrun);
    }
  }

  /** The hit `Find` reports for a region with `start <= end` is sound. */
  lemma FindHitSound(region: Region, mem: AddressSpace, pattern: string, overrun: seq<u8>)
    requires LookupsInTable(CPrefix(pattern)) && |overrun| >= |pattern| / 2 && region.start <= region.end
    requires Compile(CPrefix(pattern)) != []
    requires Scan(mem, Compile(CPrefix(pattern)), region.start, region.end - region.start, 0, overrun).Some?
    ensures HitSound(mem, Compile(CPrefix(pattern)), region.start, region.end,
                     Scan(mem, Compile(CPrefix(pattern)), region.start, region.end - region.start, 0, overrun).value)
  {
    var pat := Compile(CPrefix(pattern));
    assert |pat| <= |pattern| / 2;
    ScanHitSound(mem, pat, region.start, region.end, region.end - region.start, 0, overrun);
  }

  // ---------------------------------------------------------------------
  // Displacement decoding.
  // ---------------------------------------------------------------------

  /**
   * `Memory::GetAbsoluteAddress`: reads a 4-byte uint32_t at `addr + offset`
   * (a short read gives 0) and adds it, without sign extension, to `addr`
   * and `extra`.
   */
  function GetAbsoluteAddress(mem: AddressSpace, addr: u64, offset: u64, extra: u64): (r: u64)
    ensures |Transfer(mem, Wrap64(addr + offset), 4)| < 4 ==> r == 0
    ensures |Transfer(mem, Wrap64(addr + offset), 4)| == 4 ==>
      (r - addr - extra - LittleEndian(Transfer(mem, Wrap64(addr + offset), 4))) % U64 == 0
  {
    var got := Transfer(mem, Wrap64(addr + offset), 4);
    if |got| == 4 then Wrap64(addr + Code32(got) + extra) else 0
  }

  /** `Memory::GetCallAddress`: `GetAbsoluteAddress(addr, 1, 5)`. */
  function GetCallAddress(mem: AddressSpace, addr: u64): (r: u64)
    ensures |Transfer(mem, Wrap64(addr + 1), 4)| == 4 ==>
      (r - addr - 5 - LittleEndian(Transfer(mem, Wrap64(addr + 1), 4))) % U64 == 0
  {
    GetAbsoluteAddress(mem, addr, 1, 5)
  }

  /**
   * The unsigned decoding agrees with the signed one of `TProcess::Region`
   * exactly when the read fails or the displacement's top bit is clear.
   */
  lemma UnsignedAgreesWithSigned(mem: AddressSpace, addr: u64, offset: u64, extra: u64)
    ensures GetAbsoluteAddress(mem, addr, offset, extra) == TProcessRegion.GetAbsoluteAddress(mem, addr, offset, extra)
      <==> |Transfer(mem, Wrap64(addr + offset), 4)| < 4 || Code32(Transfer(mem, Wrap64(addr + offset), 4)) < 0x8000_0000
  {
    var got := Transfer(mem, Wrap64(addr + offset), 4);
    if |got| == 4 && Code32(got) >= 0x8000_0000 {
      WrapSeparates(addr + Code32(got) + extra);
    }
  }

  /** Two integers 2^32 apart never reduce to the same 64-bit value. */
  lemma WrapSeparates(x: int)
    ensures Wrap64(x) != Wrap64(x - U32)
  {
    assert x == U64 * (x / U64) + x % U64;
    assert x - U32 == U64 * ((x - U32) / U64) + (x - U32) % U64;
  }

  /** `E8 FB FF FF FF` at 0x1000: the unsigned decoding lands 4 GiB past the signed one. */
  lemma CallAddressBackwardUnsigned()
    ensures GetCallAddress(map[0x1000 := 0xE8, 0x1001 := 0xFB, 0x1002 := 0xFF, 0x1003 := 0xFF, 0x1004 := 0xFF], 0x1000) == 0x1_0000_1000
  {
    var mem: AddressSpace := map[0x1000 := 0xE8, 0x1001 := 0xFB, 0x1002 := 0xFF, 0x1003 := 0xFF, 0x1004 := 0xFF];
    assert Transfer(mem, 0x1001, 4) == [0xFB, 0xFF, 0xFF, 0xFF];
  }

  // ---------------------------------------------------------------------
  // The region table.
  // ---------------------------------------------------------------------

  // The region table's lookups; `TProcessProcess` states the same ones for
  // its own region type, which also carries the pid.

  /** The index of the first region named `name`, if any. */
  function FirstNamed(rs: seq<Region>, name: string): (r: Option<nat>)
    ensures r.Some? ==> r.value < |rs| && rs[r.value].name == name
    ensures r.Some? ==> forall j :: 0 <= j < r.value ==> rs[j].name != name
    ensures r.None? ==> forall j :: 0 <= j < |rs| ==> rs[j].name != name
  {
    if rs == [] then None
    else if rs[0].name == name then Some(0)
    else var t := FirstNamed(rs[1..], name); if t.Some? then Some(t.value + 1) else None
  }

  /** Whether region `r` is the one `UpdateRegion(name, start, end)` extends. */
  predicate Extends(r: Region, name: string, start: u64)
  {
    r.name == name && r.end == start
  }

  /**
   * The table after `UpdateRegion(name, start, end)`: the first same-named
   * region ending at `start` gets `end` (and `start` if that is lower);
   * without one, the range is appended.
   */
  function Updated(rs: seq<Region>, name: string, start: u64, end: u64): (r: seq<Region>)
  {
    if rs == [] then [Region(name, start, end)]
    else if Extends(rs[0], name, start) then
      [rs[0].(end := end, start := if start < rs[0].start then start else rs[0].start)] + rs[1..]
    else [rs[0]] + Updated(rs[1..], name, start, end)
  }

  /** The index of the first region `UpdateRegion(name, start, _)` extends. */
  function FirstExtended(rs: seq<Region>, name: string, start: u64): (r: Option<nat>)
    ensures r.Some? ==> r.value < |rs| && Extends(rs[r.value], name, start)
    ensures r.Some? ==> forall j :: 0 <= j < r.value ==> !Extends(rs[j], name, start)
    ensures r.None? ==> forall j :: 0 <= j < |rs| ==> !Extends(rs[j], name, start)
  {
    if rs == [] then None
    else if Extends(rs[0], name, start) then Some(0)
    else var t := FirstExtended(rs[1..], name, start); if t.Some? then Some(t.value + 1) else None
  }

  /**
   * When a same-named region ends at `start`, the first such region gets
   * `end` and the lower of the two starts, and no other entry changes.
   */
  lemma {:induction false} UpdatedMerges(rs: seq<Region>, name: string, start: u64, end: u64)
    requires FirstExtended(rs, name, start).Some?
    ensures var i := FirstExtended(rs, name, start).value;
      Updated(rs, name, start, end) ==
        rs[i := rs[i].(end := end, start := if start < rs[i].start then start else rs[i].start)]
  {
    if !Extends(rs[0], name, start) {
      UpdatedMerges(rs[1..], name, start, end);
      var i := FirstExtended(rs[1..], name, start).value;
      assert [rs[0]] + rs[1..][i := rs[1..][i].(end := end, start := if start < rs[1..][i].start then start else rs[1..][i].start)]
          == rs[i + 1 := rs[i + 1].(end := end, start := if start < rs[i + 1].start then start else rs[i + 1].start)];
    }
  }

  /** Otherwise exactly one region is appended, even when the range ends where a same-named one starts. */
  lemma {:induction false} UpdatedAppends(rs: seq<Region>, name: string, start: u64, end: u64)
    requires FirstExtended(rs, name, start).None?
    ensures Updated(rs, name, start, end) == rs + [Region(name, start, end)]
  {
    if rs != [] {
      assert !Extends(rs[0], name, start);
      UpdatedAppends(rs[1..], name, start, end);
      assert [rs[0]] + (rs[1..] + [Region(name, start, end)]) == rs + [Region(name, start, end)];
    }
  }

  /** Updating never removes or reorders regions: names keep their places and at most one entry is added. */
  lemma UpdatedKeepsNames(rs: seq<Region>, name: string, start: u64, end: u64)
    ensures var r := Updated(rs, name, start, end);
      |rs| <= |r| <= |rs| + 1 && forall i :: 0 <= i < |rs| ==> r[i].name == rs[i].name
  {
    if FirstExtended(rs, name, start).Some? {
      UpdatedMerges(rs, name, start, end);
    } else {
      UpdatedAppends(rs, name, start, end);
    }
  }

  /** Merging is forward-only: `[a,b)` then `[b,c)` become `[a,c)`, but the other order keeps two entries. */
  lemma MergeIsForwardOnly(name: string)
    ensures Updated(Updated([], name, 0x1000, 0x2000), name, 0x2000, 0x3000) == [Region(name, 0x1000, 0x3000)]
    ensures Updated(Updated([], name, 0x2000, 0x3000), name, 0x1000, 0x2000)
         == [Region(name, 0x2000, 0x3000), Region(name, 0x1000, 0x2000)]
  {
  }

  /** `Memory`: the target's pid and its table of regions. */
  class Memory {
    const pid: int
    var regions: seq<Region>

    /** A `Memory` whose table has not been filled from the maps file yet. */
    constructor (pid: int)
      ensures this.pid == pid && regions == []
    {
      this.pid := pid;
      regions := [];
    }

    /**
     * `GetRegion(name, region_out)`: true with a copy of the first region
     * named `name`, or false with `region_out` untouched.
     */
    method GetRegion(name: string, regionIn: Region) returns (found: bool, regionOut: Region)
      ensures found <==> exists i :: 0 <= i < |regions| && regions[i].name == name
      ensures found ==> regionOut == regions[FirstNamed(regions, name).value]
      ensures !found ==> regionOut == regionIn
    {
      var i := 0;
      while i < |regions|
        invariant i <= |regions|
        invariant forall j :: 0 <= j < i ==> regions[j].name != name
      {
        if regions[i].name == name {
          FirstNamedIs(regions, name, i);
          return true, regions[i];
        }
        i := i + 1;
      }
      return false, regionIn;
    }

    /** `UpdateRegion(name, start, end)`: extends the first region it may, or appends. */
    method UpdateRegion(name: string, start: u64, end: u64)
      modifies this
      ensures regions == Updated(old(regions), name, start, end)
    {
      var i := 0;
      while i < |regions|
        invariant i <= |regions| && regions == old(regions)
        invariant forall j :: 0 <= j < i ==> !Extends(regions[j], name, start)
      {
        var r := regions[i];
        if r.name == name {
          if start == r.end {
            r := r.(end := end);
          } else {
            i := i + 1;
            continue;
          }
          if start < r.start {
            r := r.(start := start);
          }
          FirstExtendedIs(regions, name, start, i);
          UpdatedMerges(regions, name, start, end);
          regions := regions[i := r];
          return;
        }
        i := i + 1;
      }
      FirstExtendedNone(regions, name, start);
      UpdatedAppends(regions, name, start, end);
      regions := regions + [Region(name, start, end)];
    }
  }

  lemma FirstExtendedIs(rs: seq<Region>, name: string, start: u64, i: nat)
    requires i < |rs| && Extends(rs[i], name, start)
    requires forall j :: 0 <= j < i ==> !Extends(rs[j], name, start)
    ensures FirstExtended(rs, name, start) == Some(i)
  {
    var r := FirstExtended(rs, name, start);
    assert r.Some?;
    if r.value < i {
    } else if r.value > i {
    }
  }

  lemma FirstExtendedNone(rs: seq<Region>, name: string, start: u64)
    requires forall j :: 0 <= j < |rs| ==> !Extends(rs[j], name, start)
    ensures FirstExtended(rs, name, start) == None
  {
  }

  lemma FirstNamedIs(rs: seq<Region>, name: string, i: nat)
    requires i < |rs| && rs[i].name == name
    requires forall j :: 0 <= j < i ==> rs[j].name != name
    ensures FirstNamed(rs, name) == Some(i)
  {
    var r := FirstNamed(rs, name);
    assert r.Some?;
    if r.value < i {
    } else if r.value > i {
    }
  }
}
