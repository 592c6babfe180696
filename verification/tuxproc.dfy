/**
 * The process-access library the `tools` dumpers are written against. Its
 * source is not part of this model, so every service it offers is a
 * parameter: a `Library` value fixes what each call answers for the snapshot
 * of the target being dumped.
 */
module TuxProc {
  import opened Common
  import opened NetvarRecords

  datatype Library = Library(
    /** `FindPattern(region, pattern, offset)`: the scan hit in the named region, 0 when none. */
    findPattern: (string, string, int) -> u64,
    /** `GetRegion(name)->GetStartAddress()`. */
    regionStart: string -> u64,
    /** `GetCallAddress(addr)`: the target of the call instruction at `addr`. */
    callAddress: u64 -> u64,
    /** `Read<uintptr_t>(addr)`. */
    readPointer: u64 -> u64,
    /** `Read<int>(addr)`. */
    readInt: u64 -> i32,
    /** The records and names of the snapshot (`Read<ClientClass>`, `ReadMemory`, ...). */
    snap: Snapshot)

  /**
   * The pointer chain: starting at `a`, one `Read<uintptr_t>(addr + offset)`
   * per offset, in order.
   */
  function Chain(lib: Library, a: u64, offsets: seq<i32>): u64
    decreases |offsets|
  {
    if offsets == [] then a
    else Chain(lib, lib.readPointer(Wrap64(a + offsets[0])), offsets[1..])
  }

  /** Following one more offset reads once more, at the end of the chain. */
  lemma {:induction false} ChainSnoc(lib: Library, a: u64, offsets: seq<i32>, o: i32)
    ensures Chain(lib, a, offsets + [o]) == lib.readPointer(Wrap64(Chain(lib, a, offsets) + o))
    decreases |offsets|
  {
    if offsets != [] {
      assert (offsets + [o])[1..] == offsets[1..] + [o];
      ChainSnoc(lib, lib.readPointer(Wrap64(a + offsets[0])), offsets[1..], o);
    } else {
      assert (offsets + [o])[1..] == [];
    }
  }

  /** Following two chains one after the other is following their concatenation. */
  lemma {:induction false} ChainAppend(lib: Library, a: u64, xs: seq<i32>, ys: seq<i32>)
    ensures Chain(lib, Chain(lib, a, xs), ys) == Chain(lib, a, xs + ys)
    decreases |xs|
  {
    if xs != [] {
      assert (xs + ys)[1..] == xs[1..] + ys;
      ChainAppend(lib, lib.readPointer(Wrap64(a + xs[0])), xs[1..], ys);
    } else {
      assert xs + ys == ys;
    }
  }

  /** The read loop both dumpers run: `addr = Read<uintptr_t>(addr + offset[i])` for each offset in turn. */
  method FollowChain(lib: Library, a: u64, offsets: seq<i32>) returns (addr: u64)
    ensures addr == Chain(lib, a, offsets)
  {
    addr := a;
    var i := 0;
    while i < |offsets|
      invariant 0 <= i <= |offsets|
      invariant addr == Chain(lib, a, offsets[..i])
    {
      ChainSnoc(lib, a, offsets[..i], offsets[i]);
      assert offsets[..i + 1] == offsets[..i] + [offsets[i]];
      addr := lib.readPointer(Wrap64(addr + offsets[i]));
      i := i + 1;
    }
    assert offsets[..i] == offsets;
  }
}
