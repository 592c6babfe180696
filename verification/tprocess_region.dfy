/**
 * A memory region of the TProcess library: its pattern compiler (`Hex2Bin`
 * into fixed 128-entry arrays), its windowed pattern scanner (`Find`) and
 * its signed rel32 decoding (`GetAbsoluteAddress`, `GetCallAddress`).
 */
module TProcessRegion {
  import opened Common

  /** Capacity of the compiled pattern arrays. */
  const PatternCap: int := 128

  /** A named `[start, end)` range of the target process. */
  datatype Region = Region(name: string, pid: int, start: u64, end: u64)

  // ---------------------------------------------------------------------
  // Pattern compiler.
  // ---------------------------------------------------------------------

  /**
   * What `Hex2Bin` accepts: an even number of characters, each group led by
   * `.` or a hexadecimal digit.  The second character of a group is never
   * looked at.
   */
  predicate Accepts(src: string)
  {
    |src| % 2 == 0 && forall i :: 0 <= i < |src| / 2 ==> src[2 * i] == '.' || IsHexDigit(src[2 * i])
  }

  /** Groups 0 to n - 1 are each led by `.` or a hexadecimal digit. */
  predicate LedWellBefore(src: string, n: nat)
  {
    forall k :: 0 <= k < n && 2 * k < |src| ==> src[2 * k] == '.' || IsHexDigit(src[2 * k])
  }

  /**
   * Every `hltbl` lookup `Hex2Bin` makes stays inside the 255-entry table:
   * on an even-length string, the second character of each group it reaches
   * that is led by a hexadecimal digit (the digit itself always is).
   */
  predicate LookupsInTable(src: string)
  {
    |src| % 2 == 0 ==>
      forall i :: 0 <= i < |src| / 2 && IsHexDigit(src[2 * i]) && LedWellBefore(src, i) ==> InHexTable(src[2 * i + 1])
  }

  /**
   * `Hex2Bin` never writes past its 128-entry arrays: an even-length pattern
   * of 128 groups or more is rejected at one of its first 129 groups (the
   * 128 entries and the closing `mask[size]` fill the arrays exactly).
   */
  predicate ParseFits(src: string)
  {
    |src| % 2 == 0 && |src| >= 2 * PatternCap ==> !LedWellBefore(src, PatternCap + 1)
  }

  /** An accepted pattern that the arrays hold has fewer than 128 groups. */
  lemma AcceptedFits(src: string)
    requires Accepts(src) && ParseFits(src)
    ensures |src| < 2 * PatternCap
  {
    LedWellThrough(src, |src| / 2, PatternCap + 1);
  }

  /** Once every group is led well, any number of leading groups is. */
  lemma LedWellThrough(src: string, n: nat, m: nat)
    requires LedWellBefore(src, n) && |src| <= 2 * n
    ensures LedWellBefore(src, m)
  {
  }

  /** Entry i of a group-wise compiled pattern. */
  function GroupEntry(src: string, i: nat): (e: PatternByte)
    requires 2 * i + 1 < |src|
  {
    HexGroup(src[2 * i], src[2 * i + 1])
  }

  /** The compiled entries of an accepted pattern, one per group. */
  function Pattern(src: string): (p: seq<PatternByte>)
    requires |src| % 2 == 0
    ensures |p| == |src| / 2
    ensures forall i :: 0 <= i < |p| ==> p[i] == GroupEntry(src, i)
  {
    seq(|src| / 2, i requires 0 <= i < |src| / 2 => GroupEntry(src, i))
  }

  /** `binary_t`: fixed data and mask arrays and the number of entries in use. */
  class Binary {
    var data: array<u8>
    var mask: array<bool>
    var size: nat

    /** The arrays are of the declared capacity and the entries fit. */
    predicate Valid()
      reads this
    {
      data.Length == PatternCap && mask.Length == PatternCap && size < PatternCap
    }

    /** The entries in use, as (wildcard, byte) pairs. */
    function Entries(): (p: seq<PatternByte>)
      reads this, data, mask
      requires Valid()
      ensures |p| == size
    {
      Zip(data[..size], mask[..size])
    }

    /** A default `binary_t`: zeroed arrays and no entries. */
    constructor ()
      ensures Valid() && size == 0 && fresh(data) && fresh(mask)
      ensures forall i :: 0 <= i < PatternCap ==> data[i] == 0 && !mask[i]
    {
      data := new u8[PatternCap](_ => 0);
      mask := new bool[PatternCap](_ => false);
      size := 0;
    }

    /**
     * `Hex2Bin(src, bin)` on a fresh binary: fails on odd length and at the
     * first group led by anything other than `.` or a hex digit; on success
     * holds one entry per group and a false mask just after the last entry.
     */
    method Hex2Bin(src: string) returns (ok: bool)
      requires Valid() && size == 0
      requires NoNul(src) && ParseFits(src) && LookupsInTable(src)
      modifies this, data, mask
      ensures data == old(data) && mask == old(mask) && size <= PatternCap
      ensures |src| < 2 * PatternCap ==> Valid()
      ensures ok <==> Accepts(src)
      ensures ok ==> Valid() && size == |src| / 2 && Entries() == Pattern(src) && !mask[size]
    {
      if |src| % 2 != 0 {
        return false;
      }
      var i := 0;
      while i < |src|
        invariant i % 2 == 0 && i <= |src| && size == i / 2
        invariant data == old(data) && mask == old(mask) && size <= PatternCap
        invariant |src| < 2 * PatternCap ==> Valid()
        invariant LedWellBefore(src, size)
        invariant forall k :: 0 <= k < size ==> PatternByte(mask[k], data[k]) == GroupEntry(src, k)
      {
        if src[i] == '.' || IsHexDigit(src[i]) {
          assert LedWellBefore(src, size + 1);
        }
        if src[i] == '.' {
          data[size] := 0;
          mask[size] := true;
        } else if IsHexDigit(src[i]) {
          data[size] := 16 * HexValue(src[i]) + HexValue(src[i + 1]);
          mask[size] := false;
        } else {
          assert !(src[2 * size] == '.' || IsHexDigit(src[2 * size]));
          return false;
        }
        size := size + 1;
        i := i + 2;
      }
      LedWellThrough(src, size, PatternCap + 1);
      mask[size] := false;
      assert Entries() == Pattern(src);
      return true;
    }
  }

  // ---------------------------------------------------------------------
  // Matching one position.
  // ---------------------------------------------------------------------

  /** The first position at or after `j` that is the end or not a wildcard. */
  function Skip(pat: seq<PatternByte>, j: nat): (k: nat)
    requires j <= |pat|
    ensures j <= k <= |pat|
    ensures k < |pat| ==> !pat[k].wildcard
    ensures forall i :: j <= i < k ==> pat[i].wildcard
    decreases |pat| - j
  {
    if j == |pat| || !pat[j].wildcard then j else Skip(pat, j + 1)
  }

  /** Whether the pattern position `m` is compared against the data. */
  predicate Compared(pat: seq<PatternByte>, m: nat)
    requires m < |pat|
  {
    m == 0 || !pat[m].wildcard
  }

  /**
   * The inner loop of `Find` from position `m`: position `m` is compared by
   * value, and after a match the wildcards that follow are skipped.
   */
  predicate MatchFrom(pat: seq<PatternByte>, v: seq<u8>, b: nat, m: nat)
    requires m < |pat| && b + |pat| <= |v|
    decreases |pat| - m
  {
    pat[m].value == v[b + m] && (Skip(pat, m + 1) == |pat| || MatchFrom(pat, v, b, Skip(pat, m + 1)))
  }

  /** The view of the scanner: the 0x1000-byte buffer and whatever follows it. */
  function View(buf: seq<u8>, overrun: seq<u8>): seq<u8>
  {
    buf + overrun
  }

  /** The first `b` in `[lo, n)` at which the pattern matches the view. */
  function FirstMatch(pat: seq<PatternByte>, v: seq<u8>, lo: nat, n: nat): (r: Option<nat>)
    requires 0 < |pat| && lo <= n && n + |pat| <= |v|
    ensures r.Some? ==> lo <= r.value < n && MatchFrom(pat, v, r.value, 0)
    ensures r.None? ==> forall b :: lo <= b < n ==> !MatchFrom(pat, v, b, 0)
    ensures r.Some? ==> forall b :: lo <= b < r.value ==> !MatchFrom(pat, v, b, 0)
    decreases n - lo
  {
    if lo == n then None
    else if MatchFrom(pat, v, lo, 0) then Some(lo)
    else FirstMatch(pat, v, lo + 1, n)
  }

  /**
   * The inner `match` loop of `Find` at window offset `b`, reading past the
   * buffer into `overrun` as the C code reads past its stack array.
   */
  method MatchesAt(bin: Binary, buf: array<u8>, overrun: seq<u8>, b: nat) returns (found: bool)
    requires bin.Valid() && 0 < bin.size && !bin.mask[bin.size]
    requires buf.Length == BufSize && b < BufSize && |overrun| >= PatternCap
    ensures found == MatchFrom(bin.Entries(), View(buf[..], overrun), b, 0)
  {
    ghost var pat := bin.Entries();
    ghost var v := View(buf[..], overrun);
    var m := 0;
    while bin.data[m] == (if b + m < BufSize then buf[b + m] else overrun[b + m - BufSize])
      invariant m < bin.size
      invariant MatchFrom(pat, v, b, 0) == MatchFrom(pat, v, b, m)
      decreases bin.size - m
    {
      m := SkipWildcards(bin, m + 1);
      if m == bin.size {
        return true;
      }
    }
    return false;
  }

  /** The `do { match++; } while (bin.mask[match])` skip, after its first increment. */
  method SkipWildcards(bin: Binary, j: nat) returns (k: nat)
    requires bin.Valid() && 0 < j <= bin.size && !bin.mask[bin.size]
    ensures k == Skip(bin.Entries(), j)
  {
    ghost var pat := bin.Entries();
    k := j;
    while bin.mask[k]
      invariant j <= k <= bin.size
      invariant Skip(pat, j) == Skip(pat, k)
      decreases bin.size - k
    {
      k := k + 1;
    }
  }

  /** Reference definition: every compared position holds its byte. */
  lemma {:induction false} MatchFromIff(pat: seq<PatternByte>, v: seq<u8>, b: nat, m: nat)
    requires m < |pat| && b + |pat| <= |v|
    ensures MatchFrom(pat, v, b, m) <==>
      pat[m].value == v[b + m] &&
      forall j :: m < j < |pat| && !pat[j].wildcard ==> pat[j].value == v[b + j]
    decreases |pat| - m
  {
    var k := Skip(pat, m + 1);
    if k < |pat| {
      MatchFromIff(pat, v, b, k);
    }
  }

  /** A leading wildcard is compared by its data value 0, so it matches only a zero byte. */
  lemma LeadingWildcardNeedsZero(pat: seq<PatternByte>, v: seq<u8>, b: nat)
    requires 0 < |pat| && b + |pat| <= |v|
    requires pat[0] == PatternByte(true, 0)
    ensures MatchFrom(pat, v, b, 0) ==> v[b] == 0
  {
  }

  /** The byte under a later wildcard is never compared: changing it never changes a match. */
  lemma WildcardIgnored(pat: seq<PatternByte>, v: seq<u8>, b: nat, j: nat, x: u8)
    requires 0 < j < |pat| && b + |pat| <= |v|
    requires pat[j].wildcard
    ensures MatchFrom(pat, v, b, 0) == MatchFrom(pat, v[b + j := x], b, 0)
  {
    MatchFromIff(pat, v, b, 0);
    MatchFromIff(pat, v[b + j := x], b, 0);
  }

  // ---------------------------------------------------------------------
  // The window loop.
  // ---------------------------------------------------------------------

  /** A hit: the window's address and size, and the offset of the match in it. */
  datatype Hit = Hit(readAddr: u64, size: nat, index: nat)

  /** The scan arguments the window loop keeps fixed. */
  predicate ScanArgs(pat: seq<PatternByte>, end: u64, buf: seq<u8>, overrun: seq<u8>)
  {
    0 < |pat| < PatternCap && end <= U64 - BufSize && |buf| == BufSize && |overrun| >= PatternCap
  }

  /** The window size after the one at `next - 0x1000` had size `size`. */
  function NextSize(end: u64, next: int, size: nat): nat
  {
    if size > Wrap64(end - next) then Wrap64(end - next) else size
  }

  /**
   * One window: the read copies what it can into the buffer, and the buffer
   * is searched only when the read was complete.
   */
  function Window(mem: AddressSpace, pat: seq<PatternByte>, readAddr: u64, readSize: nat,
                  buf: seq<u8>, overrun: seq<u8>): Option<nat>
    requires 0 < |pat| && |buf| == BufSize && |overrun| >= |pat| && readSize <= BufSize
  {
    var got := Transfer(mem, readAddr, readSize);
    if |got| == readSize then FirstMatch(pat, View(Overwrite(buf, got), overrun), 0, readSize) else None
  }

  /**
   * The window loop of `Find` from the window at `readAddr` of `readSize`
   * bytes, with `buf` holding what the buffer holds before that read: a
   * window whose read is short is not scanned, but the bytes it did copy
   * stay in the buffer.
   */
  function Scan(mem: AddressSpace, pat: seq<PatternByte>, end: u64, readAddr: u64, readSize: nat,
                buf: seq<u8>, overrun: seq<u8>): (r: Option<Hit>)
    requires ScanArgs(pat, end, buf, overrun) && readSize <= BufSize
    decreases end - readAddr
  {
    if readAddr >= end then None
    else
      var got := Transfer(mem, readAddr, readSize);
      var buf' := Overwrite(buf, got);
      var found := Window(mem, pat, readAddr, readSize, buf, overrun);
      if found.Some? then Some(Hit(readAddr, readSize, found.value))
      else
        var next := readAddr + BufSize;
        Scan(mem, pat, end, next, NextSize(end, next, readSize), buf', overrun)
  }

  /** One turn of the window loop. */
  lemma ScanStep(mem: AddressSpace, pat: seq<PatternByte>, end: u64, readAddr: u64, readSize: nat,
                 buf: seq<u8>, overrun: seq<u8>)
    requires ScanArgs(pat, end, buf, overrun) && readSize <= BufSize && readAddr < end
    ensures var got := Transfer(mem, readAddr, readSize);
      var buf' := Overwrite(buf, got);
      var found := Window(mem, pat, readAddr, readSize, buf, overrun);
      Scan(mem, pat, end, readAddr, readSize, buf, overrun) ==
        if found.Some? then Some(Hit(readAddr, readSize, found.value))
        else Scan(mem, pat, end, readAddr + BufSize, NextSize(end, readAddr + BufSize, readSize), buf', overrun)
  {
  }

  /** The `for b` loop of `Find` over one completely read window. */
  method SearchWindow(bin: Binary, buf: array<u8>, overrun: seq<u8>, size: nat) returns (found: Option<nat>)
    requires bin.Valid() && 0 < bin.size && !bin.mask[bin.size]
    requires buf.Length == BufSize && size <= BufSize && |overrun| >= PatternCap
    ensures found == FirstMatch(bin.Entries(), View(buf[..], overrun), 0, size)
  {
    ghost var pat := bin.Entries();
    ghost var v := View(buf[..], overrun);
    var b := 0;
    while b < size
      invariant b <= size
      invariant FirstMatch(pat, v, 0, size) == FirstMatch(pat, v, b, size)
    {
      var hit := MatchesAt(bin, buf, overrun, b);
      if hit {
        return Some(b);
      }
      b := b + 1;
    }
    return None;
  }

  /** The result of `Region::Find`: 0 for a rejected pattern or no hit. */
  function FindResult(region: Region, mem: AddressSpace, pattern: string, offset: u64,
                      init: seq<u8>, overrun: seq<u8>): u64
    requires 0 < |pattern| && NoNul(pattern) && ParseFits(pattern) && region.end <= U64 - BufSize
    requires |init| == BufSize && |overrun| >= PatternCap
  {
    if !Accepts(pattern) then 0
    else
      AcceptedFits(pattern);
      match Scan(mem, Pattern(pattern), region.end, region.start, BufSize, init, overrun)
      case None => 0
      case Some(h) => Wrap64(h.readAddr + h.index + offset)
  }

  /**
   * `Region::Find`: compiles the pattern and scans the region window by
   * window, starting at `start` with a full 0x1000-byte request.  `init` is
   * what the uninitialised buffer holds and `overrun` what lies after it.
   */
  method Find(region: Region, mem: AddressSpace, pattern: string, offset: u64,
              init: seq<u8>, overrun: seq<u8>) returns (r: u64)
    requires 0 < |pattern| && NoNul(pattern) && ParseFits(pattern) && LookupsInTable(pattern)
    requires region.end <= U64 - BufSize
    requires |init| == BufSize && |overrun| >= PatternCap
    ensures r == FindResult(region, mem, pattern, offset, init, overrun)
  {
    var buf := NewBuffer(init);
    var bin := new Binary();
    var ok := bin.Hex2Bin(pattern);
    if !ok {
      return 0;
    }
    var hit := ScanWindows(bin, mem, region.start, region.end, buf, overrun);
    r := if hit.Some? then Wrap64(hit.value.readAddr + hit.value.index + offset) else 0;
  }

  /** The stack buffer of `Find`, holding whatever `init` says it holds. */
  method NewBuffer(init: seq<u8>) returns (buf: array<u8>)
    ensures fresh(buf) && buf[..] == init
  {
    buf := new u8[|init|](i requires 0 <= i < |init| => init[i]);
  }

  /** The window loop of `Find`, with the compiled pattern in `bin`. */
  method ScanWindows(bin: Binary, mem: AddressSpace, start: u64, end: u64, buf: array<u8>, overrun: seq<u8>)
      returns (hit: Option<Hit>)
    requires bin.Valid() && 0 < bin.size && !bin.mask[bin.size] && buf != bin.data
    requires ScanArgs(bin.Entries(), end, buf[..], overrun)
    modifies buf
    ensures hit == Scan(mem, bin.Entries(), end, start, BufSize, old(buf[..]), overrun)
  {
    ghost var pat := bin.Entries();
    var readSize: nat := BufSize;
    var readAddr: u64 := start;
    while readAddr < end
      invariant buf.Length == BufSize && readSize <= BufSize
      invariant Scan(mem, pat, end, start, BufSize, old(buf[..]), overrun)
             == Scan(mem, pat, end, readAddr, readSize, buf[..], overrun)
      decreases end - readAddr
    {
      ScanStep(mem, pat, end, readAddr, readSize, buf[..], overrun);
      var found := SearchReadWindow(bin, mem, buf, readAddr, readSize, overrun);
      if found.Some? {
        return Some(Hit(readAddr, readSize, found.value));
      }
      readAddr := readAddr + BufSize;
      var rest := Wrap64(end - readAddr);
      if readSize > rest {
        readSize := rest;
      }
    }
    return None;
  }

  /** One window of `Find`: the read, then the search when the read was complete. */
  method SearchReadWindow(bin: Binary, mem: AddressSpace, buf: array<u8>, readAddr: u64, readSize: nat,
                          overrun: seq<u8>) returns (found: Option<nat>)
    requires bin.Valid() && 0 < bin.size && !bin.mask[bin.size] && buf != bin.data
    requires ScanArgs(bin.Entries(), U64 - BufSize, buf[..], overrun) && readSize <= BufSize
    modifies buf
    ensures found == Window(mem, bin.Entries(), readAddr, readSize, old(buf[..]), overrun)
    ensures buf[..] == Overwrite(old(buf[..]), Transfer(mem, readAddr, readSize))
  {
    var n := ReadInto(mem, readAddr, buf, readSize);
    if n == readSize {
      found := SearchWindow(bin, buf, overrun, readSize);
    } else {
      found := None;
    }
  }

  /**
   * A match found in a completely read window lies on the bytes memory holds
   * there, when the whole pattern fits in the window.
   */
  lemma WindowHitSound(mem: AddressSpace, pat: seq<PatternByte>, readAddr: u64, readSize: nat,
                       buf: seq<u8>, overrun: seq<u8>)
    requires 0 < |pat| < PatternCap && |buf| == BufSize && |overrun| >= PatternCap && readSize <= BufSize
    requires Window(mem, pat, readAddr, readSize, buf, overrun).Some?
    ensures var b := Window(mem, pat, readAddr, readSize, buf, overrun).value;
      b < readSize && |Transfer(mem, readAddr, readSize)| == readSize &&
      (b + |pat| <= readSize ==> MatchesMemory(pat, mem, readAddr + b))
  {
    var got := Transfer(mem, readAddr, readSize);
    var v := View(Overwrite(buf, got), overrun);
    var b := Window(mem, pat, readAddr, readSize, buf, overrun).value;
    if b + |pat| <= readSize {
      assert forall i :: 0 <= i < readSize ==> v[i] == got[i];
      MatchFromIff(pat, v, b, 0);
      forall j | 0 <= j < |pat| && Compared(pat, j)
        ensures ByteAt(mem, readAddr + b + j) == Some(pat[j].value)
      {
        assert v[b + j] == got[b + j];
      }
    }
  }

  /**
   * A hit at or after `from`: a window that starts a multiple of 0x1000 past
   * `start` and before `end`, whose read was complete, and whose bytes in
   * memory hold the pattern when the match lies inside the window.
   */
  predicate HitSound(mem: AddressSpace, pat: seq<PatternByte>, start: int, end: int, from: int, h: Hit)
  {
    from <= h.readAddr < end && (h.readAddr - start) % BufSize == 0 &&
    h.index < h.size <= BufSize && |Transfer(mem, h.readAddr, h.size)| == h.size &&
    (h.index + |pat| <= h.size ==> MatchesMemory(pat, mem, h.readAddr + h.index))
  }

  lemma StepKeepsAlignment(x: int)
    requires x % BufSize == 0
    ensures (x + BufSize) % BufSize == 0
  {
  }

  lemma HitSoundAt(mem: AddressSpace, pat: seq<PatternByte>, start: int, end: int, readAddr: u64,
                   readSize: nat, buf: seq<u8>, overrun: seq<u8>)
    requires 0 < |pat| < PatternCap && |buf| == BufSize && |overrun| >= PatternCap && readSize <= BufSize
    requires Window(mem, pat, readAddr, readSize, buf, overrun).Some?
    requires start <= readAddr < end && (readAddr - start) % BufSize == 0
    ensures HitSound(mem, pat, start, end, readAddr, Hit(readAddr, readSize, Window(mem, pat, readAddr, readSize, buf, overrun).value))
  {
    WindowHitSound(mem, pat, readAddr, readSize, buf, overrun);
  }

  /** Every hit of the window loop is sound in the sense of HitSound. */
  lemma {:induction false} ScanHitSound(mem: AddressSpace, pat: seq<PatternByte>, start: u64, end: u64,
                                        readAddr: u64, readSize: nat, buf: seq<u8>, overrun: seq<u8>)
    requires ScanArgs(pat, end, buf, overrun) && readSize <= BufSize
    requires start <= readAddr && (readAddr - start) % BufSize == 0
    requires Scan(mem, pat, end, readAddr, readSize, buf, overrun).Some?
    ensures HitSound(mem, pat, start, end, readAddr, Scan(mem, pat, end, readAddr, readSize, buf, overrun).value)
    decreases end - readAddr
  {
    var buf' := Overwrite(buf, Transfer(mem, readAddr, readSize));
    var found := Window(mem, pat, readAddr, readSize, buf, overrun);
    ScanStep(mem, pat, end, readAddr, readSize, buf, overrun);
    if found.Some? {
      HitSoundAt(mem, pat, start, end, readAddr, readSize, buf, overrun);
    } else {
      var next := readAddr + BufSize;
      StepKeepsAlignment(readAddr - start);
      ScanHitSound(mem, pat, start, end, next, NextSize(end, next, readSize), buf', overrun);
    }
  }

  /** Every compared position of the pattern holds its byte in memory at `a`. */
  predicate MatchesMemory(pat: seq<PatternByte>, mem: AddressSpace, a: int)
  {
    forall j :: 0 <= j < |pat| && Compared(pat, j) ==> ByteAt(mem, a + j) == Some(pat[j].value)
  }

  // ---------------------------------------------------------------------
  // Displacement decoding.
  // ---------------------------------------------------------------------

  /**
   * `Region::GetAbsoluteAddress`: reads a 4-byte int32_t at `addr + offset`
   * (a short read gives 0) and adds it, sign-extended, to `addr` and `extra`.
   */
  function GetAbsoluteAddress(mem: AddressSpace, addr: u64, offset: u64, extra: u64): (r: u64)
    ensures |Transfer(mem, Wrap64(addr + offset), 4)| < 4 ==> r == 0
    ensures |Transfer(mem, Wrap64(addr + offset), 4)| == 4 ==>
      (r - addr - extra - SignExtend32(Code32(Transfer(mem, Wrap64(addr + offset), 4)))) % U64 == 0
  {
    var got := Transfer(mem, Wrap64(addr + offset), 4);
    if |got| == 4 then Wrap64(addr + SignExtend32(Code32(got)) + extra) else 0
  }

  /** `Region::GetCallAddress`: the target of a 5-byte `CALL rel32` at `addr`. */
  function GetCallAddress(mem: AddressSpace, addr: u64): (r: u64)
    ensures |Transfer(mem, Wrap64(addr + 1), 4)| == 4 ==>
      (r - addr - 5 - SignExtend32(Code32(Transfer(mem, Wrap64(addr + 1), 4)))) % U64 == 0
  {
    GetAbsoluteAddress(mem, addr, 1, 5)
  }

  /** `E8 20 00 00 00` at 0x1000 calls 0x1025. */
  lemma CallAddressExample()
    ensures GetCallAddress(map[0x1000 := 0xE8, 0x1001 := 0x20, 0x1002 := 0, 0x1003 := 0, 0x1004 := 0], 0x1000) == 0x1025
  {
    var mem: AddressSpace := map[0x1000 := 0xE8, 0x1001 := 0x20, 0x1002 := 0, 0x1003 := 0, 0x1004 := 0];
    assert Transfer(mem, 0x1001, 4) == [0x20, 0, 0, 0];
  }

  /** A displacement with its top bit set jumps backwards: `E8 FB FF FF FF` at 0x1000 calls 0x1000. */
  lemma CallAddressBackward()
    ensures GetCallAddress(map[0x1000 := 0xE8, 0x1001 := 0xFB, 0x1002 := 0xFF, 0x1003 := 0xFF, 0x1004 := 0xFF], 0x1000) == 0x1000
  {
    var mem: AddressSpace := map[0x1000 := 0xE8, 0x1001 := 0xFB, 0x1002 := 0xFF, 0x1003 := 0xFF, 0x1004 := 0xFF];
    assert Transfer(mem, 0x1001, 4) == [0xFB, 0xFF, 0xFF, 0xFF];
  }
}
