/**
 * Shared vocabulary of the dumper model: machine integers, the compiled
 * wildcard pattern entry, the hexadecimal digit table, the target process's
 * address space seen as a partial map from address to byte, and the two
 * character-level string rewrites used by the printers.
 */
module Common {

  const U32: int := 0x1_0000_0000
  const U64: int := 0x1_0000_0000_0000_0000

  /** Size of the window every scanner reads at a time (bufSize, TUXDUMP_BUFFER_SIZE). */
  const BufSize: int := 0x1000

  type u8 = x: int | 0 <= x < 0x100
  type u32 = x: int | 0 <= x < 0x1_0000_0000
  type i32 = x: int | -0x8000_0000 <= x < 0x8000_0000
  type u64 = x: int | 0 <= x < 0x1_0000_0000_0000_0000

  datatype Option<T> = None | Some(value: T)

  /** Reduction of an integer to uintptr_t / size_t, as C's unsigned arithmetic does. */
  function Wrap64(x: int): (r: u64)
    ensures 0 <= x < U64 ==> r == x
    ensures (r - x) % U64 == 0
  {
    x % U64
  }

  /** Reduction of an integer to a 32-bit unsigned int. */
  function Wrap32(x: int): (r: u32)
    ensures 0 <= x < U32 ==> r == x
    ensures (r - x) % U32 == 0
  {
    x % U32
  }

  /** The int32_t that a 32-bit pattern denotes (two's complement). */
  function SignExtend32(x: u32): (r: i32)
    ensures Wrap32(r) == x
    ensures r < 0 <==> x >= 0x8000_0000
  {
    if x < 0x8000_0000 then x else x - U32
  }

  /** One compiled pattern position: a wildcard or a concrete byte. */
  datatype PatternByte = PatternByte(wildcard: bool, value: u8)

  /** Pairs a prefix of a byte array with one of a mask array. */
  function Zip(ds: seq<u8>, ms: seq<bool>): (p: seq<PatternByte>)
    requires |ds| == |ms|
    ensures |p| == |ds|
    ensures forall i :: 0 <= i < |p| ==> p[i] == PatternByte(ms[i], ds[i])
  {
    seq(|ds|, i requires 0 <= i < |ds| => PatternByte(ms[i], ds[i]))
  }

  /** `Some(xs + v)` when `o` is `Some(v)`, and None otherwise. */
  function Then<T>(xs: seq<T>, o: Option<seq<T>>): (r: Option<seq<T>>)
    ensures r.Some? <==> o.Some?
    ensures r.Some? ==> r.value == xs + o.value
  {
    if o.Some? then Some(xs + o.value) else None
  }

  lemma ThenAppend<T>(xs: seq<T>, e: T, o: Option<seq<T>>)
    ensures Then(xs, Then([e], o)) == Then(xs + [e], o)
  {
    if o.Some? {
      assert xs + ([e] + o.value) == (xs + [e]) + o.value;
    }
  }

  /** `isxdigit` in the C locale. */
  predicate IsHexDigit(c: char)
  {
    ('0' <= c <= '9') || ('a' <= c <= 'f') || ('A' <= c <= 'F')
  }

  /** `isdigit` in the C locale. */
  predicate IsDigit(c: char)
  {
    '0' <= c <= '9'
  }

  /**
   * The lookup table `hltbl`: the value of a hexadecimal digit, and 0 for
   * every other character below 0xFF (the table is zero-filled before the
   * digits are set).  The table has 255 entries, so a compiler that looks
   * a character up must keep it `InHexTable`; the value given here outside
   * the table is never used by such a compiler.
   */
  function HexValue(c: char): (v: nat)
    ensures v < 16
    ensures !IsHexDigit(c) ==> v == 0
  {
    if '0' <= c <= '9' then c as int - '0' as int
    else if 'a' <= c <= 'f' then c as int - 'a' as int + 10
    else if 'A' <= c <= 'F' then c as int - 'A' as int + 10
    else 0
  }

  /** `hltbl[255]` can be indexed by the bytes 0 to 254 only. */
  predicate InHexTable(c: char)
  {
    c as int < 0xFF
  }

  /**
   * The entry the `hltbl`-based compilers make of the group (c0, c1): a
   * wildcard when c0 is `.`, and otherwise the byte (hltbl[c0] << 4) | hltbl[c1].
   */
  function HexGroup(c0: char, c1: char): (e: PatternByte)
    ensures e.wildcard <==> c0 == '.'
    ensures e.wildcard ==> e.value == 0
    ensures !e.wildcard ==> e.value / 16 == HexValue(c0) && e.value % 16 == HexValue(c1)
  {
    if c0 == '.' then PatternByte(true, 0) else PatternByte(false, 16 * HexValue(c0) + HexValue(c1))
  }

  /** The lower-case hexadecimal digit of a nibble. */
  function LowerHexDigit(v: nat): (c: char)
    requires v < 16
    ensures IsHexDigit(c) && HexValue(c) == v
    ensures !('A' <= c <= 'F')
  {
    if v < 10 then ('0' as int + v) as char else ('a' as int + v - 10) as char
  }

  /** `tolower` restricted to the hexadecimal letters. */
  function LowerHex(c: char): char
  {
    if 'A' <= c <= 'F' then (c as int - 'A' as int + 'a' as int) as char else c
  }

  /** A C string: no character is the terminator. */
  predicate NoNul(s: string)
  {
    forall i :: 0 <= i < |s| ==> s[i] != '\0'
  }

  /** The C string a character buffer holds: everything before the first NUL. */
  function CPrefix(s: string): (r: string)
    ensures |r| <= |s| && r == s[..|r|] && NoNul(r)
    ensures |r| < |s| ==> s[|r|] == '\0'
  {
    if s == [] || s[0] == '\0' then [] else [s[0]] + CPrefix(s[1..])
  }

  // ---------------------------------------------------------------------
  // The target's address space.
  // ---------------------------------------------------------------------

  /** Readable bytes of the target process; an address outside the map cannot be read. */
  type AddressSpace = m: map<int, u8> | forall a | a in m :: 0 <= a < U64

  /** The byte stored at address `a`, or None when `a` cannot be read. */
  function ByteAt(mem: AddressSpace, a: int): Option<u8>
  {
    if a in mem then Some(mem[a]) else None
  }

  /**
   * What one process_vm_readv call of `len` bytes at `a` copies: the longest
   * readable prefix of the requested range.
   */
  function Transfer(mem: AddressSpace, a: int, len: nat): (got: seq<u8>)
    ensures |got| <= len
    ensures forall i :: 0 <= i < |got| ==> ByteAt(mem, a + i) == Some(got[i])
    ensures |got| < len ==> ByteAt(mem, a + |got|) == None
    decreases len
  {
    if len == 0 || a !in mem then [] else [mem[a]] + Transfer(mem, a + 1, len - 1)
  }

  /** A buffer after the transfer `got` has been copied to its front. */
  function Overwrite(buf: seq<u8>, got: seq<u8>): (r: seq<u8>)
    requires |got| <= |buf|
    ensures |r| == |buf|
    ensures forall i :: 0 <= i < |r| ==> r[i] == if i < |got| then got[i] else buf[i]
  {
    got + buf[|got|..]
  }

  /**
   * Reads `len` bytes at `a` into the front of `buf` and returns the number
   * of bytes transferred; a short transfer still overwrites what it copied.
   */
  method ReadInto(mem: AddressSpace, a: int, buf: array<u8>, len: nat) returns (n: nat)
    requires len <= buf.Length
    modifies buf
    ensures n == |Transfer(mem, a, len)|
    ensures buf[..] == Overwrite(old(buf[..]), Transfer(mem, a, len))
  {
    var got := Transfer(mem, a, len);
    n := |got|;
    var i := 0;
    while i < n
      invariant 0 <= i <= n
      invariant forall k :: 0 <= k < i ==> buf[k] == got[k]
      invariant forall k :: i <= k < buf.Length ==> buf[k] == old(buf[k])
    {
      buf[i] := got[i];
      i := i + 1;
    }
  }

  /** A zero-filled window buffer. */
  function Zeros(): (z: seq<u8>)
    ensures |z| == BufSize && forall i :: 0 <= i < |z| ==> z[i] == 0
  {
    seq(BufSize, _ => 0)
  }

  /** `start + 0x1000 * chunk` as a `uintptr_t`: the address of window number `chunk`. */
  function WindowAddr(start: u64, chunk: nat): u64
  {
    Wrap64(start + BufSize * chunk)
  }

  /** `memset(buf, x, size)`. */
  method Fill(buf: array<u8>, x: u8)
    modifies buf
    ensures forall i :: 0 <= i < buf.Length ==> buf[i] == x
  {
    var i := 0;
    while i < buf.Length
      invariant i <= buf.Length
      invariant forall k :: 0 <= k < i ==> buf[k] == x
    {
      buf[i] := x;
      i := i + 1;
    }
  }

  /** Little-endian value of a byte sequence (x86-64 byte order). */
  function LittleEndian(bs: seq<u8>): (v: nat)
    ensures bs == [] ==> v == 0
  {
    if bs == [] then 0 else bs[0] + 0x100 * LittleEndian(bs[1..])
  }

  lemma {:induction false} LittleEndianBound(bs: seq<u8>, n: nat)
    requires |bs| <= n
    ensures LittleEndian(bs) < Pow256(n)
  {
    if bs != [] {
      LittleEndianBound(bs[1..], n - 1);
    }
  }

  function Pow256(n: nat): (p: nat)
    ensures p >= 1
  {
    if n == 0 then 1 else 0x100 * Pow256(n - 1)
  }

  /** A 32-bit value read from at most four bytes; missing high bytes count as zero. */
  function Code32(bs: seq<u8>): (v: u32)
    requires |bs| <= 4
    ensures v == LittleEndian(bs)
  {
    LittleEndianBound(bs, 4);
    assert Pow256(4) == U32;
    LittleEndian(bs)
  }

  // ---------------------------------------------------------------------
  // Character-level rewrites.
  // ---------------------------------------------------------------------

  /** The characters of `s` other than `c`, in their original order. */
  function Removed(s: string, c: char): (r: string)
    ensures |r| <= |s|
    ensures c !in r
  {
    if s == [] then [] else (if s[0] == c then [] else [s[0]]) + Removed(s[1..], c)
  }

  /** `s` with every `c` turned into `d`. */
  function Replaced(s: string, c: char, d: char): (r: string)
    ensures |r| == |s|
    ensures forall i :: 0 <= i < |s| ==> r[i] == if s[i] == c then d else s[i]
  {
    seq(|s|, i requires 0 <= i < |s| => if s[i] == c then d else s[i])
  }

  /** Number of occurrences of `c` in `s`. */
  function Count(s: string, c: char): nat
  {
    if s == [] then 0 else (if s[0] == c then 1 else 0) + Count(s[1..], c)
  }

  lemma {:induction false} RemovedLength(s: string, c: char)
    ensures |Removed(s, c)| == |s| - Count(s, c)
  {
    if s != [] {
      RemovedLength(s[1..], c);
    }
  }

  lemma {:induction false} RemovedIdempotent(s: string, c: char)
    ensures Removed(Removed(s, c), c) == Removed(s, c)
  {
    RemovedAbsent(Removed(s, c), c);
  }

  /** Removing a character that does not occur changes nothing. */
  lemma {:induction false} RemovedAbsent(s: string, c: char)
    requires c !in s
    ensures Removed(s, c) == s
  {
    if s != [] {
      assert s[0] != c;
      assert c !in s[1..];
      RemovedAbsent(s[1..], c);
    }
  }

  /** Removal keeps every other character, in order: it distributes over concatenation. */
  lemma {:induction false} RemovedAppend(s: string, t: string, c: char)
    ensures Removed(s + t, c) == Removed(s, c) + Removed(t, c)
  {
    if s != [] {
      assert (s + t)[1..] == s[1..] + t;
      RemovedAppend(s[1..], t, c);
    } else {
      assert s + t == t;
    }
  }

  /** A name carrying the receive-table prefix `DT_`. */
  predicate HasTablePrefix(name: string)
  {
    |name| >= 3 && name[..3] == "DT_"
  }

  /** Removal keeps every other character as often as it occurs. */
  lemma {:induction false} RemovedKeepsOthers(s: string, c: char, x: char)
    requires x != c
    ensures Count(Removed(s, c), x) == Count(s, x)
  {
    if s != [] {
      RemovedKeepsOthers(s[1..], c, x);
      CountAppend(if s[0] == c then [] else [s[0]], Removed(s[1..], c), x);
    }
  }

  lemma {:induction false} CountAppend(s: string, t: string, x: char)
    ensures Count(s + t, x) == Count(s, x) + Count(t, x)
  {
    if s == [] {
      assert s + t == t;
    } else {
      assert (s + t)[1..] == s[1..] + t;
      CountAppend(s[1..], t, x);
    }
  }

  /** A table name with one leading `DT_` removed; any other name is unchanged. */
  function DropTablePrefix(name: string): (r: string)
    ensures HasTablePrefix(name) ==> "DT_" + r == name
    ensures !HasTablePrefix(name) ==> r == name
  {
    if HasTablePrefix(name) then name[3..] else name
  }

  lemma ReplacedLeavesNone(s: string, c: char, d: char)
    requires c != d
    ensures c !in Replaced(s, c, d)
  {
    var r := Replaced(s, c, d);
    forall i | 0 <= i < |r| ensures r[i] != c {
    }
  }
}
