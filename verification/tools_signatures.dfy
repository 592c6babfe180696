/**
 * Signature resolution of the `tools` dumper: every configured entry is
 * located by a pattern scan, optionally followed through a call target and a
 * chain of pointer reads, and reported as a module-relative 32-bit value.
 */
module ToolsSignatures {
  import opened Common
  import opened TuxProc

  /** One entry of the `signatures` list of the configuration. */
  datatype Entry = Entry(
    name: string,
    region: string,
    pattern: string,
    extra: i32,
    relative: i32,
    offsets: seq<i32>)

  /** `offset[0]` must exist: the scan offset is read before anything else. */
  predicate WellFormed(e: Entry)
  {
    |e.offsets| > 0
  }

  /**
   * The address resolved for an entry: for a relative entry, the call target
   * of the scan hit followed through `offset[1..]`; otherwise the `int` read at
   * the scan hit, sign-extended to `uintptr_t`.
   */
  function Resolved(lib: Library, e: Entry): u64
    requires WellFormed(e)
  {
    var hit := lib.findPattern(e.region, e.pattern, e.offsets[0]);
    if e.relative != 0 then Chain(lib, lib.callAddress(hit), e.offsets[1..])
    else Wrap64(lib.readInt(hit))
  }

  /** The address subtracted from the result: the region start for relative entries, 0 otherwise. */
  function StartOf(lib: Library, e: Entry): u64
  {
    if e.relative != 0 then lib.regionStart(e.region) else 0
  }

  /**
   * The value written for an entry: `addr ? addr + extra - startAddr : 0`
   * computed as `uintptr_t` and handed to `writer.Uint`, which takes an
   * `unsigned int`.
   */
  function Reported(lib: Library, e: Entry): (v: u32)
    requires WellFormed(e)
    ensures Resolved(lib, e) == 0 ==> v == 0
    ensures Resolved(lib, e) != 0 ==> v == Wrap32(Resolved(lib, e) + e.extra - StartOf(lib, e))
  {
    var addr := Resolved(lib, e);
    var wide: u64 := if addr != 0 then Wrap64(addr + e.extra - StartOf(lib, e)) else 0;
    NarrowWide(addr + e.extra - StartOf(lib, e));
    Wrap32(wide)
  }

  /** Narrowing a `uintptr_t` to `unsigned int` keeps the low 32 bits of the exact value. */
  lemma NarrowWide(x: int)
    ensures Wrap32(Wrap64(x)) == Wrap32(x)
  {
    assert U64 == U32 * U32;
    var q := (x - Wrap64(x)) / U64;
    assert x == Wrap64(x) + q * U64;
    assert Wrap64(x) == x - (q * U32) * U32;
    ModuloShift(x, q * U32);
  }

  lemma ModuloShift(x: int, k: int)
    ensures (x - k * U32) % U32 == x % U32
  {
  }

  /**
   * When the resolved address lies at most 4 GiB past the region start, the
   * report is exactly its distance from the start plus `extra`.
   */
  lemma ReportedIsModuleOffset(lib: Library, e: Entry)
    requires WellFormed(e) && e.relative != 0
    requires Resolved(lib, e) != 0
    requires 0 <= Resolved(lib, e) + e.extra - lib.regionStart(e.region) < U32
    ensures Reported(lib, e) == Resolved(lib, e) + e.extra - lib.regionStart(e.region)
  {
  }

  /**
   * A non-relative entry reads the `int` at the scan hit: the offsets after
   * the first and the region start play no part.
   */
  lemma NonRelativeIgnoresChain(lib: Library, e: Entry, start: string -> u64)
    requires WellFormed(e) && e.relative == 0
    ensures Reported(lib, e) == Reported(lib.(regionStart := start), e.(offsets := e.offsets[..1]))
    ensures var code := lib.readInt(lib.findPattern(e.region, e.pattern, e.offsets[0]));
      Reported(lib, e) == if code == 0 then 0 else Wrap32(code + e.extra)
  {
    var code := lib.readInt(lib.findPattern(e.region, e.pattern, e.offsets[0]));
    if code != 0 {
      NarrowWide(code);
      assert Wrap32(Wrap64(code) + e.extra) == Wrap32(code + e.extra) by {
        ModuloShift(Wrap64(code) + e.extra, (Wrap64(code) - code) / U32);
      }
    }
  }

  /**
   * A start address of 0x7f0000, a resolved address of 0x7f0123 and `extra`
   * 4 report 0x127 for a relative entry.
   */
  lemma RelativeExample(lib: Library, e: Entry)
    requires e.offsets == [0] && e.relative == 1 && e.extra == 4
    requires lib.regionStart(e.region) == 0x7f0000
    requires lib.callAddress(lib.findPattern(e.region, e.pattern, 0)) == 0x7f0123
    ensures Reported(lib, e) == 0x127
  {
    assert e.offsets[1..] == [];
  }

  /** The value `Tools::DumpSignatures` writes for one entry, computed as the loop does. */
  method ResolveEntry(lib: Library, e: Entry) returns (value: u32)
    requires WellFormed(e)
    ensures value == Reported(lib, e)
  {
    var addr := lib.findPattern(e.region, e.pattern, e.offsets[0]);
    var startAddr: u64 := 0;
    if e.relative != 0 {
      startAddr := lib.regionStart(e.region);
      addr := lib.callAddress(addr);
      addr := FollowChain(lib, addr, e.offsets[1..]);
    } else {
      addr := Wrap64(lib.readInt(addr));
    }
    var wide: u64 := if addr != 0 then Wrap64(addr + e.extra - startAddr) else 0;
    value := Wrap32(wide);
    NarrowWide(addr + e.extra - startAddr);
  }

  /** One key per entry, named after it, in configuration order. */
  method DumpSignatures(lib: Library, entries: seq<Entry>) returns (keys: seq<(string, u32)>)
    requires forall e | e in entries :: WellFormed(e)
    ensures |keys| == |entries|
    ensures forall i :: 0 <= i < |entries| ==> keys[i] == (entries[i].name, Reported(lib, entries[i]))
  {
    keys := [];
    for i := 0 to |entries|
      invariant |keys| == i
      invariant forall k :: 0 <= k < i ==> keys[k] == (entries[k].name, Reported(lib, entries[k]))
    {
      var value := ResolveEntry(lib, entries[i]);
      keys := keys + [(entries[i].name, value)];
    }
  }
}
