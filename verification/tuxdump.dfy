/**
 * The C generation of the dumper: a lenient pattern parser that accepts
 * `?` wildcards, single nibbles and spaces (`tuxdump_hex2bin`), a scanner
 * whose partial-match state survives window boundaries
 * (`tuxdump_find_address`), and rel32 decoding that accepts a short read
 * (`tuxdump_absolute_address`, `tuxdump_call_address`).
 */
module Tuxdump {
  import opened Common
  import Memory

  /** TUXDUMP_PATTERN_MAX: capacity of the parsed pattern arrays. */
  const PatternMax: int := 256

  /** `struct tuxdump_module`: a named `[start, end)` range of process `pid`. */
  datatype Module = Module(name: string, start: u64, end: u64, pid: int)

  // ---------------------------------------------------------------------
  // Pattern parser.
  // ---------------------------------------------------------------------

  /** The pending nibble `byte`: -1 when there is none. */
  type Nibble = x: int | -1 <= x < 16

  /** The parser's state: the entries so far, the pending nibble, and whether it has failed. */
  datatype Parsed = Parsed(entries: seq<PatternByte>, pending: Nibble, failed: bool)

  const Start: Parsed := Parsed([], -1, false)

  /** One character of the parser's loop; a failed state stays as it is. */
  function Feed(st: Parsed, c: char): Parsed
  {
    if st.failed then st
    else if st.pending != -1 then
      if c == ' ' then Parsed(st.entries + [PatternByte(false, st.pending)], -1, false)
      else if c == '?' then Parsed(st.entries + [PatternByte(false, st.pending), PatternByte(true, 0)], -1, false)
      else if !IsHexDigit(c) then st.(failed := true)
      else Parsed(st.entries + [PatternByte(false, 16 * st.pending + HexValue(c))], -1, false)
    else
      if c == ' ' then st
      else if c == '?' then Parsed(st.entries + [PatternByte(true, 0)], -1, false)
      else if !IsHexDigit(c) then st.(failed := true)
      else Parsed(st.entries, HexValue(c), false)
  }

  /** The state after feeding every character of `s`, in order. */
  function ParseFrom(st: Parsed, s: string): Parsed
    decreases |s|
  {
    if s == [] then st else ParseFrom(Feed(st, s[0]), s[1..])
  }

  /** The entries once a pending nibble has been flushed as a byte of its own. */
  function Finish(st: Parsed): (es: seq<PatternByte>)
    ensures |es| == |st.entries| + (if st.pending != -1 then 1 else 0)
  {
    if st.pending != -1 then st.entries + [PatternByte(false, st.pending)] else st.entries
  }

  /**
   * How many array slots the parse of `s` writes: the entries when it fails
   * (a pending nibble is dropped without being written), and otherwise the
   * entries with the final pending nibble flushed.
   */
  function Width(s: string): nat
  {
    var st := ParseFrom(Start, s);
    if st.failed then |st.entries| else |Finish(st)|
  }

  /** What `tuxdump_hex2bin` produces: None when it returns false. */
  function Compile(src: string): Option<seq<PatternByte>>
  {
    var st := ParseFrom(Start, src);
    if st.failed then None else Some(Finish(st))
  }

  /** The characters the parser accepts. */
  predicate Allowed(c: char)
  {
    IsHexDigit(c) || c == ' ' || c == '?'
  }

  /** Feeding only appends: the entries written so far stay a prefix of the entries at the end. */
  lemma {:induction false} EntriesGrow(st: Parsed, s: string)
    ensures |st.entries| <= |ParseFrom(st, s).entries|
    ensures ParseFrom(st, s).entries[..|st.entries|] == st.entries
    decreases |s|
  {
    if s != [] {
      var st' := Feed(st, s[0]);
      EntriesGrow(st', s[1..]);
      assert st'.entries[..|st.entries|] == st.entries;
    }
  }

  lemma {:induction false} ParseSplit(st: Parsed, s: string, i: nat)
    requires i <= |s|
    ensures ParseFrom(st, s) == ParseFrom(ParseFrom(st, s[..i]), s[i..])
    decreases i
  {
    if i > 0 {
      assert s[..i][1..] == s[1..][..i - 1];
      assert s[i..] == s[1..][i - 1..];
      ParseSplit(Feed(st, s[0]), s[1..], i - 1);
    }
  }

  /** A failed state stays failed. */
  lemma {:induction false} FailedStays(st: Parsed, s: string)
    requires st.failed
    ensures ParseFrom(st, s) == st
    decreases |s|
  {
    if s != [] {
      FailedStays(Feed(st, s[0]), s[1..]);
    }
  }

  /** The parse fails exactly when some character is not a hex digit, a space or `?`. */
  lemma {:induction false} FailsIff(st: Parsed, s: string)
    requires !st.failed
    ensures ParseFrom(st, s).failed <==> exists i :: 0 <= i < |s| && !Allowed(s[i])
    decreases |s|
  {
    if s != [] {
      var st' := Feed(st, s[0]);
      if st'.failed {
        FailedStays(st', s[1..]);
        assert !Allowed(s[0]);
      } else {
        FailsIff(st', s[1..]);
        assert Allowed(s[0]);
        if exists i :: 0 <= i < |s| && !Allowed(s[i]) {
          var i :| 0 <= i < |s| && !Allowed(s[i]);
          assert !Allowed(s[1..][i - 1]);
        }
        if exists i :: 0 <= i < |s[1..]| && !Allowed(s[1..][i]) {
          var i :| 0 <= i < |s[1..]| && !Allowed(s[1..][i]);
          assert !Allowed(s[i + 1]);
        }
      }
    }
  }

  /** `tuxdump_hex2bin` returns false iff some character is not a hex digit, a space or `?`. */
  lemma CompileSomeIff(src: string)
    ensures Compile(src).Some? <==> forall i :: 0 <= i < |src| ==> Allowed(src[i])
  {
    FailsIff(Start, src);
  }

  /** Number of wildcard entries. */
  function Wildcards(es: seq<PatternByte>): nat
  {
    if es == [] then 0 else (if es[0].wildcard then 1 else 0) + Wildcards(es[1..])
  }

  lemma {:induction false} WildcardsAppend(xs: seq<PatternByte>, ys: seq<PatternByte>)
    ensures Wildcards(xs + ys) == Wildcards(xs) + Wildcards(ys)
    decreases |xs|
  {
    if xs != [] {
      assert (xs + ys)[1..] == xs[1..] + ys;
      WildcardsAppend(xs[1..], ys);
    } else {
      assert xs + ys == ys;
    }
  }

  /** Along a successful parse, every `?` adds exactly one wildcard entry and nothing else adds one. */
  lemma {:induction false} WildcardsFollowMarks(st: Parsed, s: string)
    requires !ParseFrom(st, s).failed
    ensures Wildcards(Finish(ParseFrom(st, s))) == Wildcards(Finish(st)) + Count(s, '?')
    decreases |s|
  {
    if s != [] {
      var st' := Feed(st, s[0]);
      if st'.failed {
        FailedStays(st', s[1..]);
      }
      WildcardsFollowMarks(st', s[1..]);
      var c := s[0];
      if st.pending != -1 {
        if c == ' ' || c == '?' || IsHexDigit(c) {
          WildcardsAppend(st.entries, [PatternByte(false, st.pending)]);
          if c == '?' {
            WildcardsAppend(st.entries + [PatternByte(false, st.pending)], [PatternByte(true, 0)]);
            assert st.entries + [PatternByte(false, st.pending), PatternByte(true, 0)]
                == st.entries + [PatternByte(false, st.pending)] + [PatternByte(true, 0)];
          } else if c != ' ' {
            WildcardsAppend(st.entries, [PatternByte(false, 16 * st.pending + HexValue(c))]);
          }
        }
      } else {
        if c == '?' {
          WildcardsAppend(st.entries, [PatternByte(true, 0)]);
        } else if IsHexDigit(c) {
          WildcardsAppend(st.entries, [PatternByte(false, HexValue(c))]);
        }
      }
    }
  }

  /** Each `?` of an accepted pattern produces exactly one wildcard entry. */
  lemma WildcardCount(src: string)
    requires Compile(src).Some?
    ensures Wildcards(Compile(src).value) == Count(src, '?')
  {
    WildcardsFollowMarks(Start, src);
  }

  /** Two adjacent hex digits after no pending nibble form one byte, high nibble first. */
  lemma DigitPair(st: Parsed, h: char, l: char, rest: string)
    requires !st.failed && st.pending == -1 && IsHexDigit(h) && IsHexDigit(l)
    ensures ParseFrom(st, [h, l] + rest)
         == ParseFrom(Parsed(st.entries + [PatternByte(false, 16 * HexValue(h) + HexValue(l))], -1, false), rest)
  {
    var s := [h, l] + rest;
    assert s[0] == h && s[1..] == [l] + rest;
    assert ([l] + rest)[0] == l && ([l] + rest)[1..] == rest;
    assert Feed(st, h) == Parsed(st.entries, HexValue(h), false);
    assert ParseFrom(st, s) == ParseFrom(Feed(st, h), [l] + rest);
  }

  /** A lone digit followed by a space or `?` is a byte holding just that nibble. */
  lemma LoneDigit(st: Parsed, h: char, c: char, rest: string)
    requires !st.failed && st.pending == -1 && IsHexDigit(h) && (c == ' ' || c == '?')
    ensures ParseFrom(st, [h, c] + rest)
         == ParseFrom(Parsed(st.entries + [PatternByte(false, HexValue(h))]
                             + (if c == '?' then [PatternByte(true, 0)] else []), -1, false), rest)
  {
    assert ([h, c] + rest)[1..] == [c] + rest;
    assert ([c] + rest)[1..] == rest;
    if c == '?' {
      assert st.entries + [PatternByte(false, HexValue(h)), PatternByte(true, 0)]
          == st.entries + [PatternByte(false, HexValue(h))] + [PatternByte(true, 0)];
    } else {
      assert st.entries + [PatternByte(false, HexValue(h))] + [] == st.entries + [PatternByte(false, HexValue(h))];
    }
  }

  /** A lone digit at the end of the input is flushed as a byte of its own. */
  lemma LoneDigitAtEnd(st: Parsed, h: char)
    requires !st.failed && st.pending == -1 && IsHexDigit(h)
    ensures Finish(ParseFrom(st, [h])) == st.entries + [PatternByte(false, HexValue(h))]
  {
  }

  function B(v: u8): PatternByte { PatternByte(false, v) }
  const Any: PatternByte := PatternByte(true, 0)

  /** Feeding the character at position `k` of the input. */
  lemma FeedAt(st: Parsed, s: string, k: nat, next: Parsed)
    requires k < |s| && Feed(st, s[k]) == next
    ensures ParseFrom(st, s[k..]) == ParseFrom(next, s[k + 1..])
  {
    assert s[k..][0] == s[k] && s[k..][1..] == s[k + 1..];
  }

  /** The first example of the parser's documentation: wildcards between full bytes. */
  lemma DocExampleWildcards(src: string)
    requires src == "ab?cd?ef"
    ensures Compile(src) == Some([B(0xab), Any, B(0xcd), Any, B(0xef)])
  {
    assert src[0..] == src;
    FeedAt(Start, src, 0, Parsed([], 10, false));
    FeedAt(Parsed([], 10, false), src, 1, Parsed([B(0xab)], -1, false));
    FeedAt(Parsed([B(0xab)], -1, false), src, 2, Parsed([B(0xab), Any], -1, false));
    FeedAt(Parsed([B(0xab), Any], -1, false), src, 3, Parsed([B(0xab), Any], 12, false));
    FeedAt(Parsed([B(0xab), Any], 12, false), src, 4, Parsed([B(0xab), Any, B(0xcd)], -1, false));
    FeedAt(Parsed([B(0xab), Any, B(0xcd)], -1, false), src, 5, Parsed([B(0xab), Any, B(0xcd), Any], -1, false));
    FeedAt(Parsed([B(0xab), Any, B(0xcd), Any], -1, false), src, 6, Parsed([B(0xab), Any, B(0xcd), Any], 14, false));
    FeedAt(Parsed([B(0xab), Any, B(0xcd), Any], 14, false), src, 7, Parsed([B(0xab), Any, B(0xcd), Any, B(0xef)], -1, false));
    assert src[8..] == [];
  }

  /** The first 6 characters of the example `a b c ? e f`. */
  lemma ExampleNibblesHead(src: string)
    requires src == "a b c ? e f"
    ensures ParseFrom(Start, src) == ParseFrom(Parsed([B(0x0a), B(0x0b), B(0x0c)], -1, false), src[6..])
  {
    assert src[0..] == src;
    FeedAt(Start, src, 0, Parsed([], 10, false));
    FeedAt(Parsed([], 10, false), src, 1, Parsed([B(0x0a)], -1, false));
    FeedAt(Parsed([B(0x0a)], -1, false), src, 2, Parsed([B(0x0a)], 11, false));
    FeedAt(Parsed([B(0x0a)], 11, false), src, 3, Parsed([B(0x0a), B(0x0b)], -1, false));
    FeedAt(Parsed([B(0x0a), B(0x0b)], -1, false), src, 4, Parsed([B(0x0a), B(0x0b)], 12, false));
    FeedAt(Parsed([B(0x0a), B(0x0b)], 12, false), src, 5, Parsed([B(0x0a), B(0x0b), B(0x0c)], -1, false));
  }

  /** The second example: single nibbles separated by spaces. */
  lemma DocExampleNibbles(src: string)
    requires src == "a b c ? e f"
    ensures Compile(src) == Some([B(0x0a), B(0x0b), B(0x0c), Any, B(0x0e), B(0x0f)])
  {
    ExampleNibblesHead(src);
    FeedAt(Parsed([B(0x0a), B(0x0b), B(0x0c)], -1, false), src, 6, Parsed([B(0x0a), B(0x0b), B(0x0c), Any], -1, false));
    FeedAt(Parsed([B(0x0a), B(0x0b), B(0x0c), Any], -1, false), src, 7, Parsed([B(0x0a), B(0x0b), B(0x0c), Any], -1, false));
    FeedAt(Parsed([B(0x0a), B(0x0b), B(0x0c), Any], -1, false), src, 8, Parsed([B(0x0a), B(0x0b), B(0x0c), Any], 14, false));
    FeedAt(Parsed([B(0x0a), B(0x0b), B(0x0c), Any], 14, false), src, 9, Parsed([B(0x0a), B(0x0b), B(0x0c), Any, B(0x0e)], -1, false));
    FeedAt(Parsed([B(0x0a), B(0x0b), B(0x0c), Any, B(0x0e)], -1, false), src, 10, Parsed([B(0x0a), B(0x0b), B(0x0c), Any, B(0x0e)], 15, false));
    assert src[11..] == [];
    assert Finish(Parsed([B(0x0a), B(0x0b), B(0x0c), Any, B(0x0e)], 15, false)) == [B(0x0a), B(0x0b), B(0x0c), Any, B(0x0e), B(0x0f)];
  }

  /** The first 5 characters of the example `ab c?d ef?`. */
  lemma ExampleMixedHead(src: string)
    requires src == "ab c?d ef?"
    ensures ParseFrom(Start, src) == ParseFrom(Parsed([B(0xab), B(0x0c), Any], -1, false), src[5..])
  {
    assert src[0..] == src;
    FeedAt(Start, src, 0, Parsed([], 10, false));
    FeedAt(Parsed([], 10, false), src, 1, Parsed([B(0xab)], -1, false));
    FeedAt(Parsed([B(0xab)], -1, false), src, 2, Parsed([B(0xab)], -1, false));
    FeedAt(Parsed([B(0xab)], -1, false), src, 3, Parsed([B(0xab)], 12, false));
    FeedAt(Parsed([B(0xab)], 12, false), src, 4, Parsed([B(0xab), B(0x0c), Any], -1, false));
  }

  /** The third example: a nibble directly before `?` and a trailing `?`. */
  lemma DocExampleMixed(src: string)
    requires src == "ab c?d ef?"
    ensures Compile(src) == Some([B(0xab), B(0x0c), Any, B(0x0d), B(0xef), Any])
  {
    ExampleMixedHead(src);
    FeedAt(Parsed([B(0xab), B(0x0c), Any], -1, false), src, 5, Parsed([B(0xab), B(0x0c), Any], 13, false));
    FeedAt(Parsed([B(0xab), B(0x0c), Any], 13, false), src, 6, Parsed([B(0xab), B(0x0c), Any, B(0x0d)], -1, false));
    FeedAt(Parsed([B(0xab), B(0x0c), Any, B(0x0d)], -1, false), src, 7, Parsed([B(0xab), B(0x0c), Any, B(0x0d)], 14, false));
    FeedAt(Parsed([B(0xab), B(0x0c), Any, B(0x0d)], 14, false), src, 8, Parsed([B(0xab), B(0x0c), Any, B(0x0d), B(0xef)], -1, false));
    FeedAt(Parsed([B(0xab), B(0x0c), Any, B(0x0d), B(0xef)], -1, false), src, 9, Parsed([B(0xab), B(0x0c), Any, B(0x0d), B(0xef), Any], -1, false));
    assert src[10..] == [];
  }

  /** `struct tuxdump_binary`: mask and byte arrays and the number of entries. */
  class TuxBinary {
    const mask: array<bool>
    const bytes: array<u8>
    var len: nat

    predicate Valid()
      reads this
    {
      mask.Length == PatternMax && bytes.Length == PatternMax && len <= PatternMax
    }

    /** The entries in use. */
    function Entries(): (es: seq<PatternByte>)
      reads this, mask, bytes
      requires Valid()
      ensures |es| == len
    {
      Zip(bytes[..len], mask[..len])
    }

    /** Every slot past the entries in use is still cleared. */
    predicate ClearTail()
      reads this, mask, bytes
      requires Valid()
    {
      forall k :: len <= k < PatternMax ==> !mask[k] && bytes[k] == 0
    }

    /** An uninitialised binary: the parser clears it before use. */
    constructor ()
      ensures Valid() && fresh(mask) && fresh(bytes)
    {
      mask := new bool[PatternMax];
      bytes := new u8[PatternMax];
      len := 0;
    }

    /**
     * `tuxdump_hex2bin(dst, src, len)`: clears the arrays, then runs the
     * pending-nibble state machine over the input and flushes a final
     * pending nibble.
     */
    method Hex2Bin(src: string) returns (ok: bool)
      requires Valid() && Width(src) <= PatternMax
      modifies this, mask, bytes
      ensures Valid()
      ensures ok <==> Compile(src).Some?
      ensures ok ==> Entries() == Compile(src).value
    {
      Clear();
      var pending: Nibble := -1;
      var i := 0;
      assert Entries() == [];
      while i < |src|
        invariant i <= |src| && Valid() && ClearTail()
        invariant ParseFrom(Start, src) == ParseFrom(Parsed(Entries(), pending, false), src[i..])
      {
        ghost var st := Parsed(Entries(), pending, false);
        EntriesGrow(Feed(st, src[i]), src[i + 1..]);
        assert src[i..][1..] == src[i + 1..];
        var good;
        pending, good := Consume(src[i], pending);
        if !good {
          FailedStays(Feed(st, src[i]), src[i + 1..]);
          return false;
        }
        i := i + 1;
      }
      if pending != -1 {
        Append(false, pending);
      }
      return true;
    }

    /** The two `memset`s and `dst->len = 0`. */
    method Clear()
      requires Valid()
      modifies this, mask, bytes
      ensures Valid() && len == 0 && ClearTail()
    {
      var k := 0;
      while k < PatternMax
        invariant k <= PatternMax
        invariant forall j :: 0 <= j < k ==> !mask[j] && bytes[j] == 0
      {
        mask[k] := false;
        bytes[k] := 0;
        k := k + 1;
      }
      len := 0;
    }

    /** Writes one entry into the next free slot. */
    method Append(wildcard: bool, value: u8)
      requires Valid() && len < PatternMax && ClearTail()
      requires wildcard ==> value == 0
      modifies this, mask, bytes
      ensures Valid() && ClearTail()
      ensures Entries() == old(Entries()) + [PatternByte(wildcard, value)]
    {
      bytes[len] := value;
      mask[len] := wildcard;
      len := len + 1;
      assert bytes[..len] == old(bytes[..len]) + [value];
      assert mask[..len] == old(mask[..len]) + [wildcard];
    }

    /** One pass of the parser's loop body over the character `c`. */
    method Consume(c: char, pending: Nibble) returns (next: Nibble, ok: bool)
      requires Valid() && ClearTail()
      requires |Feed(Parsed(Entries(), pending, false), c).entries| <= PatternMax
      modifies this, mask, bytes
      ensures Valid() && ClearTail()
      ensures ok <==> !Feed(Parsed(old(Entries()), pending, false), c).failed
      ensures ok ==> Parsed(Entries(), next, false) == Feed(Parsed(old(Entries()), pending, false), c)
    {
      next, ok := -1, true;
      if pending != -1 {
        if c == ' ' || c == '?' {
          Append(false, pending);
          if c == '?' {
            Append(true, 0);
            assert old(Entries()) + [PatternByte(false, pending)] + [PatternByte(true, 0)]
                == old(Entries()) + [PatternByte(false, pending), PatternByte(true, 0)];
          }
        } else if !IsHexDigit(c) {
          ok := false;
        } else {
          Append(false, 16 * pending + HexValue(c));
        }
      } else {
        if c == '?' {
          Append(true, 0);
        } else if c == ' ' {
        } else if !IsHexDigit(c) {
          ok := false;
        } else {
          next := HexValue(c);
        }
      }
    }
  }

  // ---------------------------------------------------------------------
  // Scanner.
  // ---------------------------------------------------------------------

  /** A scanned byte together with the address `read_addr + b` it was read from. */
  datatype Scanned = Scanned(addr: u64, byte: u8)

  /** The bytes of a window buffer paired with their addresses. */
  function Addressed(readAddr: u64, bs: seq<u8>): (xs: seq<Scanned>)
    ensures |xs| == |bs|
    ensures forall b :: 0 <= b < |xs| ==> xs[b] == Scanned(Wrap64(readAddr + b), bs[b])
  {
    seq(|bs|, b requires 0 <= b < |bs| => Scanned(Wrap64(readAddr + b), bs[b]))
  }

  /**
   * What one window contributes to the scan: nothing when the read transfers
   * no byte at all, and otherwise all `readSize` bytes of the zero-filled
   * buffer, zeros past a short transfer included.
   */
  function WindowBytes(mem: AddressSpace, readAddr: u64, readSize: nat): seq<Scanned>
    requires readSize <= BufSize
  {
    var got := Transfer(mem, readAddr, readSize);
    if |got| == 0 then [] else Addressed(readAddr, Overwrite(Zeros(), got)[..readSize])
  }

  /** Everything the window loop scans, from window number `chunk` with `total` bytes left. */
  function Stream(mem: AddressSpace, start: u64, total: nat, chunk: nat): seq<Scanned>
    decreases total
  {
    if total == 0 then []
    else
      var readSize := if total < BufSize then total else BufSize;
      WindowBytes(mem, WindowAddr(start, chunk), readSize) + Stream(mem, start, total - readSize, chunk + 1)
  }

  /** The partial-match state `matches`/`addr`; `addr == 0` means no run has begun. */
  datatype RunState = RunState(matches: nat, addr: u64)

  /** The scan either stops with the run's address or goes on in a state. */
  datatype Outcome = Found(addr: u64) | Going(st: RunState)

  /** Whether a byte satisfies one pattern position. */
  predicate Fits(e: PatternByte, x: u8)
  {
    e.wildcard || e.value == x
  }

  /**
   * One iteration of the inner loop: a fitting byte extends the run (and
   * starts its address if none is set yet); any other byte resets the run
   * and is not tried again as a new start.
   */
  function StepByte(pat: seq<PatternByte>, st: RunState, x: Scanned): (r: Outcome)
    requires st.matches < |pat|
    ensures r.Going? ==> r.st.matches < |pat|
    ensures r.Found? <==> Fits(pat[st.matches], x.byte) && st.matches + 1 == |pat|
  {
    if Fits(pat[st.matches], x.byte) then
      var addr := if st.addr == 0 then x.addr else st.addr;
      if st.matches + 1 == |pat| then Found(addr) else Going(RunState(st.matches + 1, addr))
    else Going(RunState(0, 0))
  }

  /** The inner loop run over a whole byte stream. */
  function ScanStream(pat: seq<PatternByte>, st: RunState, xs: seq<Scanned>): (r: Outcome)
    requires st.matches < |pat|
    ensures r.Going? ==> r.st.matches < |pat|
    decreases |xs|
  {
    if xs == [] then Going(st)
    else
      match StepByte(pat, st, xs[0])
      case Found(a) => Found(a)
      case Going(next) => ScanStream(pat, next, xs[1..])
  }

  /** Continuing a scan that has not stopped yet over more bytes. */
  function Resume(pat: seq<PatternByte>, o: Outcome, ys: seq<Scanned>): Outcome
    requires o.Going? ==> o.st.matches < |pat|
  {
    if o.Found? then o else ScanStream(pat, o.st, ys)
  }

  /**
   * Scanning two streams one after the other is scanning their
   * concatenation: the run state is carried over unchanged, so runs survive
   * window boundaries and skipped windows.
   */
  lemma {:induction false} ScanAppend(pat: seq<PatternByte>, st: RunState, xs: seq<Scanned>, ys: seq<Scanned>)
    requires st.matches < |pat|
    ensures ScanStream(pat, st, xs + ys) == Resume(pat, ScanStream(pat, st, xs), ys)
    decreases |xs|
  {
    if xs == [] {
      assert xs + ys == ys;
    } else {
      assert (xs + ys)[0] == xs[0] && (xs + ys)[1..] == xs[1..] + ys;
      var o := StepByte(pat, st, xs[0]);
      if o.Going? {
        ScanAppend(pat, o.st, xs[1..], ys);
      }
    }
  }

  /** Scanning the windows from number `chunk` on: the first window, then the rest from where it left off. */
  lemma ScanFirstWindow(pat: seq<PatternByte>, st: RunState, mem: AddressSpace, start: u64, total: nat, chunk: nat)
    requires st.matches < |pat| && total > 0
    ensures var readSize := if total < BufSize then total else BufSize;
      ScanStream(pat, st, Stream(mem, start, total, chunk))
      == Resume(pat, ScanStream(pat, st, WindowBytes(mem, WindowAddr(start, chunk), readSize)),
                Stream(mem, start, total - readSize, chunk + 1))
  {
    var readSize := if total < BufSize then total else BufSize;
    ScanAppend(pat, st, WindowBytes(mem, WindowAddr(start, chunk), readSize), Stream(mem, start, total - readSize, chunk + 1));
  }

  /** The patterns the source can scan with: within the arrays, and not empty once parsed. */
  predicate Usable(pattern: string)
  {
    Width(pattern) <= PatternMax && (Compile(pattern).Some? ==> Compile(pattern).value != [])
  }

  /** The value `tuxdump_find_address` stores through `addr_out`, or None when it returns false. */
  function FindResult(m: Module, mem: AddressSpace, pattern: string, offset: u64): Option<u64>
    requires Usable(pattern)
  {
    match Compile(pattern)
    case None => None
    case Some(pat) =>
      match Located(pat, mem, m.start, m.end)
      case Found(a) => Some(Wrap64(a + offset))
      case Going(_) => None
  }

  /** The scan of `[start, end)` from an empty run. */
  function Located(pat: seq<PatternByte>, mem: AddressSpace, start: u64, end: u64): Outcome
    requires 0 < |pat|
  {
    ScanStream(pat, RunState(0, 0), Stream(mem, start, Wrap64(end - start), 0))
  }

  /**
   * `tuxdump_find_address(module, pattern, offset, addr_out)`; `addrIn` is
   * what `*addr_out` held before the call.
   */
  method FindAddress(m: Module, mem: AddressSpace, pattern: string, offset: u64, addrIn: u64)
      returns (ok: bool, addrOut: u64)
    requires NoNul(pattern) && Usable(pattern)
    ensures ok <==> FindResult(m, mem, pattern, offset).Some?
    ensures addrOut == if ok then FindResult(m, mem, pattern, offset).value else addrIn
  {
    var bin := new TuxBinary();
    var good := bin.Hex2Bin(pattern);
    if !good {
      return false, addrIn;
    }
    var buf := new u8[BufSize];
    var r := ScanModule(bin, mem, m.start, m.end, buf);
    if r.Found? {
      return true, Wrap64(r.addr + offset);
    }
    return false, addrIn;
  }

  /** The window loop: `chunk`, `total_size` and the run state across windows. */
  method ScanModule(bin: TuxBinary, mem: AddressSpace, start: u64, end: u64, buf: array<u8>)
      returns (r: Outcome)
    requires bin.Valid() && bin.len > 0 && buf.Length == BufSize && buf != bin.bytes
    modifies buf
    ensures r == Located(bin.Entries(), mem, start, end)
  {
    ghost var pat := bin.Entries();
    ghost var all := Stream(mem, start, Wrap64(end - start), 0);
    var addr: u64 := 0;
    var matches: nat := 0;
    var chunk: nat := 0;
    var total: nat := Wrap64(end - start);
    while total > 0
      invariant bin.Entries() == pat && matches < |pat|
      invariant ScanStream(pat, RunState(0, 0), all)
             == ScanStream(pat, RunState(matches, addr), Stream(mem, start, total, chunk))
      decreases total
    {
      var readSize := if total < BufSize then total else BufSize;
      var readAddr := WindowAddr(start, chunk);
      ScanFirstWindow(pat, RunState(matches, addr), mem, start, total, chunk);
      var o := ScanReadWindow(bin, mem, buf, readAddr, readSize, matches, addr);
      if o.Found? {
        return o;
      }
      matches, addr := o.st.matches, o.st.addr;
      total := total - readSize;
      chunk := chunk + 1;
    }
    return Going(RunState(matches, addr));
  }

  /**
   * One window: `memset`, `tuxdump_read`, and the inner loop when at least
   * one byte was transferred.
   */
  method ScanReadWindow(bin: TuxBinary, mem: AddressSpace, buf: array<u8>, readAddr: u64, readSize: nat,
                        matches: nat, addr: u64) returns (o: Outcome)
    requires bin.Valid() && matches < bin.len && buf.Length == BufSize && buf != bin.bytes
    requires readSize <= BufSize
    modifies buf
    ensures o == ScanStream(bin.Entries(), RunState(matches, addr), WindowBytes(mem, readAddr, readSize))
  {
    Fill(buf, 0);
    assert buf[..] == Zeros();
    var n := ReadInto(mem, readAddr, buf, readSize);
    if n > 0 {
      o := ScanWindow(bin, buf, readAddr, readSize, matches, addr);
    } else {
      o := Going(RunState(matches, addr));
    }
  }

  /** The inner loop over the `readSize` bytes of one window buffer. */
  method ScanWindow(bin: TuxBinary, buf: array<u8>, readAddr: u64, readSize: nat, matches0: nat, addr0: u64)
      returns (r: Outcome)
    requires bin.Valid() && matches0 < bin.len && readSize <= buf.Length
    ensures r == ScanStream(bin.Entries(), RunState(matches0, addr0), Addressed(readAddr, buf[..readSize]))
  {
    ghost var pat := bin.Entries();
    ghost var xs := Addressed(readAddr, buf[..readSize]);
    var matches: nat, addr: u64 := matches0, addr0;
    var b := 0;
    while b < readSize
      invariant b <= readSize && matches < bin.len
      invariant ScanStream(pat, RunState(matches0, addr0), xs) == ScanStream(pat, RunState(matches, addr), xs[b..])
    {
      assert xs[b..][0] == Scanned(Wrap64(readAddr + b), buf[b]) && xs[b..][1..] == xs[b + 1..];
      if bin.mask[matches] || bin.bytes[matches] == buf[b] {
        matches := matches + 1;
        if addr == 0 {
          addr := Wrap64(readAddr + b);
        }
        if matches == bin.len {
          return Found(addr);
        }
      } else {
        addr, matches := 0, 0;
      }
      b := b + 1;
    }
    assert xs[b..] == [];
    return Going(RunState(matches, addr));
  }

  // ---------------------------------------------------------------------
  // What a hit means.
  // ---------------------------------------------------------------------

  /** Every position of `ys` fits the pattern at the same position, and they have the same length. */
  predicate RunMatches(pat: seq<PatternByte>, ys: seq<Scanned>)
  {
    |ys| == |pat| && forall j :: 0 <= j < |ys| ==> Fits(pat[j], ys[j].byte)
  }

  /** `ys` fits the first `|ys|` pattern positions. */
  predicate PrefixMatches(pat: seq<PatternByte>, ys: seq<Scanned>)
  {
    |ys| <= |pat| && forall j :: 0 <= j < |ys| ==> Fits(pat[j], ys[j].byte)
  }

  /** The address the sentinel logic records for a run: the first non-zero one in it. */
  function FirstNonzero(ys: seq<Scanned>): u64
  {
    if ys == [] then 0 else if ys[0].addr != 0 then ys[0].addr else FirstNonzero(ys[1..])
  }

  lemma {:induction false} FirstNonzeroAppend(ys: seq<Scanned>, y: Scanned)
    ensures FirstNonzero(ys + [y]) == if FirstNonzero(ys) != 0 then FirstNonzero(ys) else y.addr
  {
    if ys == [] {
      assert ys + [y] == [y];
      assert [y][1..] == [];
    } else {
      assert (ys + [y])[1..] == ys[1..] + [y];
      FirstNonzeroAppend(ys[1..], y);
    }
  }

  /** The last `n` elements of `zs`. */
  function Last(zs: seq<Scanned>, n: nat): seq<Scanned>
    requires n <= |zs|
  {
    zs[|zs| - n..]
  }

  /** The run state describes the last `matches` bytes of what has been scanned so far. */
  predicate Tracks(pat: seq<PatternByte>, st: RunState, hist: seq<Scanned>)
  {
    st.matches < |pat| && st.matches <= |hist|
    && PrefixMatches(pat, Last(hist, st.matches))
    && st.addr == FirstNonzero(Last(hist, st.matches))
  }

  lemma PrefixExtend(pat: seq<PatternByte>, run: seq<Scanned>, x: Scanned)
    requires PrefixMatches(pat, run) && |run| < |pat| && Fits(pat[|run|], x.byte)
    ensures PrefixMatches(pat, run + [x])
  {
  }

  /** One byte keeps the run state tracking, or completes a matching run at the recorded address. */
  lemma StepTracks(pat: seq<PatternByte>, st: RunState, hist: seq<Scanned>, x: Scanned)
    requires Tracks(pat, st, hist)
    ensures StepByte(pat, st, x).Going? ==> Tracks(pat, StepByte(pat, st, x).st, hist + [x])
    ensures StepByte(pat, st, x).Found? ==>
      RunMatches(pat, Last(hist + [x], |pat|)) && StepByte(pat, st, x).addr == FirstNonzero(Last(hist + [x], |pat|))
  {
    var run := Last(hist, st.matches);
    if Fits(pat[st.matches], x.byte) {
      assert Last(hist + [x], st.matches + 1) == run + [x];
      FirstNonzeroAppend(run, x);
      PrefixExtend(pat, run, x);
    } else {
      assert Last(hist + [x], 0) == [];
    }
  }

  /** How many bytes of `xs` a scan that stops consumes. */
  function FoundEnd(pat: seq<PatternByte>, st: RunState, xs: seq<Scanned>): (n: nat)
    requires st.matches < |pat| && ScanStream(pat, st, xs).Found?
    ensures 1 <= n <= |xs|
    decreases |xs|
  {
    match StepByte(pat, st, xs[0])
    case Found(_) => 1
    case Going(next) => 1 + FoundEnd(pat, next, xs[1..])
  }

  /**
   * A stopping scan reports the last `|pat|` bytes consumed: they fit the
   * pattern position by position and the reported address is the first
   * non-zero address among them.
   */
  lemma {:induction false} ScanSound(pat: seq<PatternByte>, st: RunState, hist: seq<Scanned>, xs: seq<Scanned>)
    requires Tracks(pat, st, hist) && ScanStream(pat, st, xs).Found?
    ensures |pat| <= |hist| + FoundEnd(pat, st, xs)
    ensures RunMatches(pat, Last(hist + xs[..FoundEnd(pat, st, xs)], |pat|))
    ensures ScanStream(pat, st, xs).addr == FirstNonzero(Last(hist + xs[..FoundEnd(pat, st, xs)], |pat|))
    decreases |xs|
  {
    StepTracks(pat, st, hist, xs[0]);
    var o := StepByte(pat, st, xs[0]);
    if o.Found? {
      assert FoundEnd(pat, st, xs) == 1;
      assert xs[..1] == [xs[0]];
    } else {
      var n := FoundEnd(pat, o.st, xs[1..]);
      ScanSound(pat, o.st, hist + [xs[0]], xs[1..]);
      assert FoundEnd(pat, st, xs) == n + 1;
      assert ScanStream(pat, st, xs) == ScanStream(pat, o.st, xs[1..]);
      ConsSlice(hist, xs, n);
    }
  }

  lemma ConsSlice(hist: seq<Scanned>, xs: seq<Scanned>, n: nat)
    requires n < |xs|
    ensures hist + [xs[0]] + xs[1..][..n] == hist + xs[..n + 1]
  {
    assert xs[..n + 1] == [xs[0]] + xs[1..][..n];
  }

  /** The run a stopping scan of `xs` reports: the last `|pat|` bytes it consumed. */
  function HitRun(pat: seq<PatternByte>, xs: seq<Scanned>): seq<Scanned>
    requires 0 < |pat| && ScanStream(pat, RunState(0, 0), xs).Found?
  {
    var n := FoundEnd(pat, RunState(0, 0), xs);
    if |pat| <= n then Last(xs[..n], |pat|) else []
  }

  /** From the empty run, a stopping scan reports a run that fits the pattern and its first non-zero address. */
  lemma ScanFromEmptySound(pat: seq<PatternByte>, xs: seq<Scanned>)
    requires 0 < |pat| && ScanStream(pat, RunState(0, 0), xs).Found?
    ensures RunMatches(pat, HitRun(pat, xs))
    ensures ScanStream(pat, RunState(0, 0), xs).addr == FirstNonzero(HitRun(pat, xs))
  {
    assert Tracks(pat, RunState(0, 0), []);
    ScanSound(pat, RunState(0, 0), [], xs);
    assert [] + xs[..FoundEnd(pat, RunState(0, 0), xs)] == xs[..FoundEnd(pat, RunState(0, 0), xs)];
  }

  /**
   * A successful search stores the address where a matching run of
   * `|pat|` consecutively scanned bytes began (its first non-zero address),
   * plus `offset`.
   */
  lemma FindSound(m: Module, mem: AddressSpace, pattern: string, offset: u64)
    requires Usable(pattern) && FindResult(m, mem, pattern, offset).Some?
    ensures Compile(pattern).Some?
    ensures ScanStream(Compile(pattern).value, RunState(0, 0), Stream(mem, m.start, Wrap64(m.end - m.start), 0)).Found?
    ensures RunMatches(Compile(pattern).value, HitRun(Compile(pattern).value, Stream(mem, m.start, Wrap64(m.end - m.start), 0)))
    ensures FindResult(m, mem, pattern, offset).value
         == Wrap64(FirstNonzero(HitRun(Compile(pattern).value, Stream(mem, m.start, Wrap64(m.end - m.start), 0))) + offset)
  {
    ScanFromEmptySound(Compile(pattern).value, Stream(mem, m.start, Wrap64(m.end - m.start), 0));
  }

  /**
   * After a mismatch the run restarts empty at the next byte, so a match
   * that overlaps a failed partial run is missed: `0a 0a 0b` occurs in
   * `0a 0a 0a 0b` but the scan never stops.
   */
  lemma MissesOverlappingRestart()
    ensures var pat := [B(0x0a), B(0x0a), B(0x0b)];
      var xs := [Scanned(1, 0x0a), Scanned(2, 0x0a), Scanned(3, 0x0a), Scanned(4, 0x0b)];
      RunMatches(pat, xs[1..]) && ScanStream(pat, RunState(0, 0), xs) == Going(RunState(0, 0))
  {
    var pat := [B(0x0a), B(0x0a), B(0x0b)];
    var xs := [Scanned(1, 0x0a), Scanned(2, 0x0a), Scanned(3, 0x0a), Scanned(4, 0x0b)];
    assert ScanStream(pat, RunState(0, 0), xs) == ScanStream(pat, RunState(1, 1), xs[1..]);
    assert ScanStream(pat, RunState(1, 1), xs[1..]) == ScanStream(pat, RunState(2, 1), xs[2..]);
    assert ScanStream(pat, RunState(2, 1), xs[2..]) == ScanStream(pat, RunState(0, 0), xs[3..]);
    assert ScanStream(pat, RunState(0, 0), xs[3..]) == ScanStream(pat, RunState(0, 0), []);
  }

  // ---------------------------------------------------------------------
  // Displacement decoding.
  // ---------------------------------------------------------------------

  /**
   * `tuxdump_absolute_address(module, addr, offset, extra)`: `code` starts
   * at 0 and `tuxdump_read` succeeds as soon as one byte is transferred, so a
   * short read keeps the bytes it got as the low bytes of an unsigned code.
   */
  function AbsoluteAddress(mem: AddressSpace, addr: u64, offset: u64, extra: u64): (r: u64)
    ensures Transfer(mem, Wrap64(addr + offset), 4) == [] ==> r == 0
    ensures Transfer(mem, Wrap64(addr + offset), 4) != [] ==>
      (r - addr - extra - LittleEndian(Transfer(mem, Wrap64(addr + offset), 4))) % U64 == 0
  {
    var got := Transfer(mem, Wrap64(addr + offset), 4);
    if |got| > 0 then Wrap64(addr + extra + Code32(got)) else 0
  }

  /** `tuxdump_call_address`: the target of a `CALL rel32` (E8 cd) at `addr`. */
  function CallAddress(mem: AddressSpace, addr: u64): (r: u64)
    ensures Transfer(mem, Wrap64(addr + 1), 4) == [] ==> r == 0
  {
    AbsoluteAddress(mem, addr, 1, 5)
  }

  /** With all four bytes readable the C decoding is the unsigned one of `Memory`. */
  lemma AgreesWithMemory(mem: AddressSpace, addr: u64, offset: u64, extra: u64)
    ensures |Transfer(mem, Wrap64(addr + offset), 4)| == 4
        ==> AbsoluteAddress(mem, addr, offset, extra) == Memory.GetAbsoluteAddress(mem, addr, offset, extra)
    ensures 0 < |Transfer(mem, Wrap64(addr + offset), 4)| < 4
        ==> Memory.GetAbsoluteAddress(mem, addr, offset, extra) == 0
  {
  }

  /**
   * Where only `E8 20 01` is readable at 0x1000, the C helper decodes the
   * two displacement bytes it got, while `Memory` gives up.
   */
  lemma ShortReadCall()
    ensures var mem: AddressSpace := map[0x1000 := 0xE8, 0x1001 := 0x20, 0x1002 := 0x01];
      CallAddress(mem, 0x1000) == 0x1125 && Memory.GetCallAddress(mem, 0x1000) == 0
  {
    var mem: AddressSpace := map[0x1000 := 0xE8, 0x1001 := 0x20, 0x1002 := 0x01];
    assert Transfer(mem, 0x1001, 4) == [0x20, 0x01];
    assert LittleEndian([0x20, 0x01]) == 0x120;
  }
}
