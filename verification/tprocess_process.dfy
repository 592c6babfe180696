/**
 * `TProcess::Process`'s table of memory regions: lookups by name and the
 * forward-only merge that `ParseMaps` relies on when it feeds the maps file
 * line by line into `UpdateRegion`.
 */
module TProcessProcess {
  import opened Common
  import opened TProcessRegion

  /** TPROCESS_MAX_REGION_NAME: size of `Region::name`, terminator included. */
  const RegionNameMax: int := 256

  // The lookups below mirror those of the `Memory` module; they are stated
  // again because a TProcess region carries its pid and a `Memory` one not.

  /** The index of the first region named `name`, if any. */
  function FirstNamed(rs: seq<Region>, name: string): (r: Option<nat>)
    ensures r.Some? ==> r.value < |rs| && rs[r.value].name == name
    ensures r.Some? ==> forall j :: 0 <= j < r.value ==> rs[j].name != name
    ensures r.None? ==> forall j :: 0 <= j < |rs| ==> rs[j].name != name
  {
    if rs == [] then None
    else if rs[0].name == name then Some(0)
    else var t := FirstNamed(rs[1..], name); if t.Some? then Some(t.value + 1) else None
  }

  /** Whether `r` is a region `UpdateRegion(name, start, _)` may extend: same name, ending at `start`. */
  predicate Extends(r: Region, name: string, start: u64)
  {
    r.name == name && r.end == start
  }

  /** The index of the first region `UpdateRegion(name, start, _)` extends. */
  function FirstExtended(rs: seq<Region>, name: string, start: u64): (r: Option<nat>)
    ensures r.Some? ==> r.value < |rs| && Extends(rs[r.value], name, start)
    ensures r.Some? ==> forall j :: 0 <= j < r.value ==> !Extends(rs[j], name, start)
    ensures r.None? ==> forall j :: 0 <= j < |rs| ==> !Extends(rs[j], name, start)
  {
    if rs == [] then None
    else if Extends(rs[0], name, start) then Some(0)
    else var t := FirstExtended(rs[1..], name, start); if t.Some? then Some(t.value + 1) else None
  }

  /** A region after `UpdateRegion` extended it: the new end, and `start` when that is lower. */
  function Merged(r: Region, start: u64, end: u64): Region
  {
    r.(end := end, start := if start < r.start then start else r.start)
  }

  /**
   * The table after `UpdateRegion(name, start, end)` of a process whose pid
   * is `pid`: the first same-named region ending at `start` is merged, and
   * without one a new `{name, pid, start, end}` is appended.
   */
  function Updated(rs: seq<Region>, pid: int, name: string, start: u64, end: u64): (r: seq<Region>)
    ensures |rs| <= |r| <= |rs| + 1
  {
    if rs == [] then [Region(name, pid, start, end)]
    else if Extends(rs[0], name, start) then [Merged(rs[0], start, end)] + rs[1..]
    else [rs[0]] + Updated(rs[1..], pid, name, start, end)
  }

  /** With a region to extend, only that first one changes and the count stays the same. */
  lemma {:induction false} UpdatedMerges(rs: seq<Region>, pid: int, name: string, start: u64, end: u64)
    requires FirstExtended(rs, name, start).Some?
    ensures var i := FirstExtended(rs, name, start).value;
      Updated(rs, pid, name, start, end) == rs[i := Merged(rs[i], start, end)]
  {
    if !Extends(rs[0], name, start) {
      UpdatedMerges(rs[1..], pid, name, start, end);
      var i := FirstExtended(rs[1..], name, start).value;
      assert [rs[0]] + rs[1..][i := Merged(rs[1..][i], start, end)] == rs[i + 1 := Merged(rs[i + 1], start, end)];
    }
  }

  /** Without one, exactly one region carrying the process's pid is appended at the end. */
  lemma {:induction false} UpdatedAppends(rs: seq<Region>, pid: int, name: string, start: u64, end: u64)
    requires FirstExtended(rs, name, start).None?
    ensures Updated(rs, pid, name, start, end) == rs + [Region(name, pid, start, end)]
  {
    if rs != [] {
      assert !Extends(rs[0], name, start);
      UpdatedAppends(rs[1..], pid, name, start, end);
      assert [rs[0]] + (rs[1..] + [Region(name, pid, start, end)]) == rs + [Region(name, pid, start, end)];
    }
  }

  /** Updating never removes or reorders entries: every old entry keeps its place, name and pid. */
  lemma UpdatedKeepsOrder(rs: seq<Region>, pid: int, name: string, start: u64, end: u64)
    ensures var r := Updated(rs, pid, name, start, end);
      forall i :: 0 <= i < |rs| ==> r[i].name == rs[i].name && r[i].pid == rs[i].pid
  {
    if FirstExtended(rs, name, start).Some? {
      UpdatedMerges(rs, pid, name, start, end);
    } else {
      UpdatedAppends(rs, pid, name, start, end);
    }
  }

  /** Every region of the table has `start <= end`. */
  predicate Ordered(rs: seq<Region>)
  {
    forall i :: 0 <= i < |rs| ==> rs[i].start <= rs[i].end
  }

  /**
   * On a table of ordered ranges and an ordered new range, the merge never
   * lowers a start (the `start < r.start` branch cannot fire) and every range
   * stays ordered.
   */
  lemma UpdatedStaysOrdered(rs: seq<Region>, pid: int, name: string, start: u64, end: u64)
    requires Ordered(rs) && start <= end
    ensures Ordered(Updated(rs, pid, name, start, end))
    ensures FirstExtended(rs, name, start).Some? ==>
      var i := FirstExtended(rs, name, start).value;
      Updated(rs, pid, name, start, end)[i].start == rs[i].start
  {
    if FirstExtended(rs, name, start).Some? {
      UpdatedMerges(rs, pid, name, start, end);
    } else {
      UpdatedAppends(rs, pid, name, start, end);
    }
  }

  /** Merging is forward-only: `[a,b)` then `[b,c)` become `[a,c)`; the other order keeps two entries. */
  lemma MergeIsForwardOnly(pid: int, name: string)
    ensures Updated(Updated([], pid, name, 0x1000, 0x2000), pid, name, 0x2000, 0x3000)
         == [Region(name, pid, 0x1000, 0x3000)]
    ensures Updated(Updated([], pid, name, 0x2000, 0x3000), pid, name, 0x1000, 0x2000)
         == [Region(name, pid, 0x2000, 0x3000), Region(name, pid, 0x1000, 0x2000)]
  {
  }

  /** `TProcess::Process`: the attached pid and the region table `m_regions`. */
  class Process {
    var pid: int
    var regions: seq<Region>

    /** `Process() = default`: no pid yet (`m_iPid` starts at -1) and no regions. */
    constructor ()
      ensures pid == -1 && regions == []
    {
      pid := -1;
      regions := [];
    }

    /** `SetPID(pid)`, which `Attach` calls once it has found the process. */
    method SetPID(pid: int)
      modifies this
      ensures this.pid == pid && regions == old(regions)
    {
      this.pid := pid;
    }

    /**
     * `GetRegion(name, region_out)`: true with a copy of the first region
     * named `name`, or false with `region_out` untouched.
     */
    method GetRegion(name: string, regionIn: Region) returns (found: bool, regionOut: Region)
      requires NoNul(name)
      ensures found <==> exists i :: 0 <= i < |regions| && regions[i].name == name
      ensures found ==> regionOut == regions[FirstNamed(regions, name).value]
      ensures !found ==> regionOut == regionIn
    {
      var i := 0;
      while i < |regions|
        invariant i <= |regions|
        invariant forall j :: 0 <= j < i ==> regions[j].name != name
      {
        if regions[i].name == name {
          FirstNamedIs(regions, name, i);
          return true, regions[i];
        }
        i := i + 1;
      }
      return false, regionIn;
    }

    /** `HasRegion(name)`: true exactly when `GetRegion(name, _)` would find a region. */
    method HasRegion(name: string) returns (has: bool)
      requires NoNul(name)
      ensures has <==> exists i :: 0 <= i < |regions| && regions[i].name == name
      ensures has <==> FirstNamed(regions, name).Some?
    {
      var i := 0;
      while i < |regions|
        invariant i <= |regions|
        invariant forall j :: 0 <= j < i ==> regions[j].name != name
      {
        if regions[i].name == name {
          return true;
        }
        i := i + 1;
      }
      return false;
    }

    /**
     * `UpdateRegion(name, start, end)`: extends the first region it may, or
     * appends a new one; the name is copied into a 256-byte array only on
     * the append path.
     */
    method UpdateRegion(name: string, start: u64, end: u64)
      requires NoNul(name)
      requires FirstExtended(regions, name, start).None? ==> |name| < RegionNameMax
      modifies this
      ensures pid == old(pid) && regions == Updated(old(regions), pid, name, start, end)
    {
      var i := 0;
      while i < |regions|
        invariant i <= |regions| && regions == old(regions)
        invariant forall j :: 0 <= j < i ==> !Extends(regions[j], name, start)
      {
        var r := regions[i];
        if r.name == name {
          if start == r.end {
            r := r.(end := end);
          } else {
            i := i + 1;
            continue;
          }
          if start < r.start {
            r := r.(start := start);
          }
          FirstExtendedIs(regions, name, start, i);
          UpdatedMerges(regions, pid, name, start, end);
          regions := regions[i := r];
          return;
        }
        i := i + 1;
      }
      UpdatedAppends(regions, pid, name, start, end);
      regions := regions + [Region(name, pid, start, end)];
    }
  }

  lemma FirstExtendedIs(rs: seq<Region>, name: string, start: u64, i: nat)
    requires i < |rs| && Extends(rs[i], name, start)
    requires forall j :: 0 <= j < i ==> !Extends(rs[j], name, start)
    ensures FirstExtended(rs, name, start) == Some(i)
  {
    var r := FirstExtended(rs, name, start);
    assert r.Some?;
    if r.value < i {
    } else if r.value > i {
    }
  }

  lemma FirstNamedIs(rs: seq<Region>, name: string, i: nat)
    requires i < |rs| && rs[i].name == name
    requires forall j :: 0 <= j < i ==> rs[j].name != name
    ensures FirstNamed(rs, name) == Some(i)
  {
    var r := FirstNamed(rs, name);
    assert r.Some?;
    if r.value < i {
    } else if r.value > i {
    }
  }
}
