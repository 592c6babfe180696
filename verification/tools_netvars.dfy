/**
 * The netvar dumper of the `tools` generation: it finds the head of the
 * game's class list, walks the list, and prints every receive table it
 * reaches as a bracketed block of offsets, recursing into nested tables.
 * The printer calls it makes are modelled as a sequence of events.
 */
module ToolsNetvars {
  import opened Common
  import opened NetvarRecords
  import opened TuxProc

  /** One call into the printer. */
  datatype Event =
    | TableStart(name: string, depth: int)
    | Offset(name: string, offset: u32, depth: int)
    | TableEnd(name: string, depth: int)

  /** Capacity of the stack array `props[1024]` the descriptors are read into. */
  const PropsCapacity: int := 1024

  /**
   * `GetClassHead`: the scan hit of the configured pattern with `offset[0]`,
   * its call target, then one pointer read per remaining offset.
   */
  method GetClassHead(lib: Library, region: string, pattern: string, offsets: seq<i32>) returns (addr: u64)
    requires |offsets| > 0
    ensures addr == Chain(lib, lib.callAddress(lib.findPattern(region, pattern, offsets[0])), offsets[1..])
  {
    addr := lib.findPattern(region, pattern, offsets[0]);
    addr := lib.callAddress(addr);
    addr := FollowChain(lib, addr, offsets[1..]);
  }

  // ---------------------------------------------------------------------
  // DumpNetvarTable.  Nothing stops a table from nesting itself, so the
  // recursion into nested tables is cut after `fuel` levels.
  // ---------------------------------------------------------------------

  /** The name the first descriptor's read leaves in `propName`, checked or not. */
  function FirstName(snap: Snapshot, t: RecvTable): string
  {
    snap.readName(PropOf(snap, t, 0).varName).text
  }

  /**
   * The cases in which a table prints nothing at all: its descriptor array
   * cannot be read (a read of zero bytes moves nothing), its only descriptor
   * is `baseclass`, or its first descriptor's name starts with a digit.
   */
  predicate Silent(snap: Snapshot, t: RecvTable)
  {
    || t.propCount == 0
    || !snap.readable(t.props, RecvPropSize * t.propCount)
    || (t.propCount == 1 && FirstName(snap, t) == "baseclass")
    || DigitLed(FirstName(snap, t))
  }

  /**
   * The descriptor array of `t` fits `props[1024]`, and so does that of every
   * table the dump of `t` recurses into within `fuel` levels.  Tables the
   * dump never reaches are not constrained.
   */
  predicate TreeFits(snap: Snapshot, t: RecvTable, fuel: nat)
    decreases fuel, 1
  {
    && t.propCount <= PropsCapacity
    && (!Silent(snap, t) ==> forall i: nat :: i < t.propCount ==> PropFits(snap, PropOf(snap, t, i), fuel))
  }

  /** The table the dump of descriptor `p` recurses into, if it recurses at all, fits. */
  predicate PropFits(snap: Snapshot, p: RecvProp, fuel: nat)
    decreases fuel, 0
  {
    var next := snap.readTable(p.dataTable);
    (Printable(snap, p) && NestsTable(p) && snap.readName(next.netTableName).ok && fuel > 0) ==>
      TreeFits(snap, next, fuel - 1)
  }

  /** The events `DumpNetvarTable(table, tableName, depth)` produces. */
  function DumpTable(snap: Snapshot, t: RecvTable, name: string, depth: int, fuel: nat): seq<Event>
    requires TreeFits(snap, t, fuel)
    decreases fuel, 1, 0
  {
    if Silent(snap, t) then []
    else [TableStart(name, depth)] + PropsEvents(snap, t, 0, depth, fuel) + [TableEnd(name, depth)]
  }

  /** The events of descriptors `i..` of `t`, in array order. */
  function PropsEvents(snap: Snapshot, t: RecvTable, i: nat, depth: int, fuel: nat): seq<Event>
    requires TreeFits(snap, t, fuel) && !Silent(snap, t) && i <= t.propCount
    decreases fuel, 0, t.propCount - i
  {
    if i == t.propCount then []
    else PropEvents(snap, PropOf(snap, t, i), depth, fuel) + PropsEvents(snap, t, i + 1, depth, fuel)
  }

  /** A descriptor whose name read succeeded and which the dumper does not skip. */
  predicate Printable(snap: Snapshot, p: RecvProp)
  {
    var nr := snap.readName(p.varName);
    nr.ok && nr.text != "baseclass" && !DigitLed(nr.text) && p.recvType != DPT_Array
  }

  /** The events of one descriptor of a table printed at `depth`. */
  function PropEvents(snap: Snapshot, p: RecvProp, depth: int, fuel: nat): seq<Event>
    requires PropFits(snap, p, fuel)
    decreases fuel, 0, 0
  {
    var name := snap.readName(p.varName).text;
    if !Printable(snap, p) then []
    else if NestsTable(p) then
      var head := if p.offset > 0 then [Offset(name, p.offset, depth + 1)] else [];
      var next := snap.readTable(p.dataTable);
      var nn := snap.readName(next.netTableName);
      if !nn.ok || fuel == 0 then head
      else head + DumpTable(snap, next, nn.text, depth + 1, fuel - 1)
    else [Offset(name, p.offset, depth + 1)]
  }

  /** A silent table prints nothing; any other table is one bracketed block. */
  lemma TableShape(snap: Snapshot, t: RecvTable, name: string, depth: int, fuel: nat)
    requires TreeFits(snap, t, fuel)
    ensures var evs := DumpTable(snap, t, name, depth, fuel);
      && (evs == [] <==> Silent(snap, t))
      && (!Silent(snap, t) ==> evs[0] == TableStart(name, depth) && evs[|evs| - 1] == TableEnd(name, depth))
  {
  }

  /**
   * A DataTable descriptor that nests a table prints its own offset first
   * exactly when `m_Offset > 0`; a nested table's block starts with its
   * TableStart, never with an offset.
   */
  lemma NestedOffsetOnlyWhenPositive(snap: Snapshot, p: RecvProp, depth: int, fuel: nat)
    requires PropFits(snap, p, fuel) && Printable(snap, p) && NestsTable(p)
    ensures var evs := PropEvents(snap, p, depth, fuel);
      (|evs| > 0 && evs[0].Offset?) <==> p.offset > 0
    ensures p.offset > 0 ==>
      PropEvents(snap, p, depth, fuel)[0] == Offset(snap.readName(p.varName).text, p.offset, depth + 1)
  {
    var next := snap.readTable(p.dataTable);
    var nn := snap.readName(next.netTableName);
    if nn.ok && fuel > 0 {
      TableShape(snap, next, nn.text, depth + 1, fuel - 1);
    }
  }

  /** Any other printable descriptor prints its offset, even an offset of 0. */
  lemma LeafAlwaysPrinted(snap: Snapshot, p: RecvProp, depth: int, fuel: nat)
    requires Printable(snap, p) && !NestsTable(p)
    ensures PropEvents(snap, p, depth, fuel) == [Offset(snap.readName(p.varName).text, p.offset, depth + 1)]
  {
  }

  // ---------------------------------------------------------------------
  // Bracketing.  `Run` replays events against a stack of open tables: a
  // table opens one level below the innermost open one, an offset belongs
  // to the innermost open table, and a TableEnd closes exactly that table.
  // ---------------------------------------------------------------------

  /** The stack after replaying `evs` from `stack`, or None if they are not well bracketed. */
  function Run(evs: seq<Event>, stack: seq<(string, int)>): Option<seq<(string, int)>>
    decreases |evs|
  {
    if evs == [] then Some(stack)
    else match evs[0]
      case TableStart(n, d) =>
        if stack == [] || d == stack[|stack| - 1].1 + 1 then Run(evs[1..], stack + [(n, d)]) else None
      case Offset(_, _, d) =>
        if stack != [] && d == stack[|stack| - 1].1 + 1 then Run(evs[1..], stack) else None
      case TableEnd(n, d) =>
        if stack != [] && stack[|stack| - 1] == (n, d) then Run(evs[1..], stack[..|stack| - 1]) else None
  }

  lemma {:induction false} RunAppend(a: seq<Event>, b: seq<Event>, stack: seq<(string, int)>)
    ensures Run(a + b, stack) == if Run(a, stack).Some? then Run(b, Run(a, stack).value) else None
    decreases |a|
  {
    if a != [] {
      assert (a + b)[0] == a[0];
      assert (a + b)[1..] == a[1..] + b;
      match a[0]
      case TableStart(n, d) =>
        if stack == [] || d == stack[|stack| - 1].1 + 1 {
          RunAppend(a[1..], b, stack + [(n, d)]);
        }
      case Offset(_, _, d) =>
        if stack != [] && d == stack[|stack| - 1].1 + 1 {
          RunAppend(a[1..], b, stack);
        }
      case TableEnd(n, d) =>
        if stack != [] && stack[|stack| - 1] == (n, d) {
          RunAppend(a[1..], b, stack[..|stack| - 1]);
        }
    } else {
      assert a + b == b;
    }
  }

  /** The innermost open table is at `depth`, or none is open and `depth` is the caller's. */
  predicate OpenAt(stack: seq<(string, int)>, depth: int)
  {
    stack == [] || stack[|stack| - 1].1 == depth
  }

  /**
   * A table dumped one level below the innermost open table is well
   * bracketed: TableStart and TableEnd carry the same name and depth, and
   * everything between them sits one level deeper.
   */
  lemma {:induction false} TableNests(snap: Snapshot, t: RecvTable, name: string, depth: int, fuel: nat,
                                      stack: seq<(string, int)>)
    requires TreeFits(snap, t, fuel) && OpenAt(stack, depth - 1)
    ensures Run(DumpTable(snap, t, name, depth, fuel), stack) == Some(stack)
    decreases fuel, 1, 0
  {
    if !Silent(snap, t) {
      var inner := stack + [(name, depth)];
      var props := PropsEvents(snap, t, 0, depth, fuel);
      PropsNest(snap, t, 0, depth, fuel, inner);
      assert Run([TableStart(name, depth)], stack) == Some(inner);
      assert inner[..|inner| - 1] == stack;
      assert Run([TableEnd(name, depth)], inner) == Some(stack);
      RunAppend([TableStart(name, depth)], props, stack);
      RunAppend([TableStart(name, depth)] + props, [TableEnd(name, depth)], stack);
    }
  }

  lemma {:induction false} PropsNest(snap: Snapshot, t: RecvTable, i: nat, depth: int, fuel: nat,
                                     stack: seq<(string, int)>)
    requires TreeFits(snap, t, fuel) && !Silent(snap, t) && i <= t.propCount && stack != [] && stack[|stack| - 1].1 == depth
    ensures Run(PropsEvents(snap, t, i, depth, fuel), stack) == Some(stack)
    decreases fuel, 0, t.propCount - i
  {
    if i < t.propCount {
      var p := PropOf(snap, t, i);
      PropNests(snap, p, depth, fuel, stack);
      PropsNest(snap, t, i + 1, depth, fuel, stack);
      RunAppend(PropEvents(snap, p, depth, fuel), PropsEvents(snap, t, i + 1, depth, fuel), stack);
    }
  }

  lemma {:induction false} PropNests(snap: Snapshot, p: RecvProp, depth: int, fuel: nat,
                                     stack: seq<(string, int)>)
    requires PropFits(snap, p, fuel) && stack != [] && stack[|stack| - 1].1 == depth
    ensures Run(PropEvents(snap, p, depth, fuel), stack) == Some(stack)
    decreases fuel, 0, 0
  {
    var name := snap.readName(p.varName).text;
    if Printable(snap, p) {
      if NestsTable(p) {
        var head := if p.offset > 0 then [Offset(name, p.offset, depth + 1)] else [];
        assert Run(head, stack) == Some(stack);
        var next := snap.readTable(p.dataTable);
        var nn := snap.readName(next.netTableName);
        if nn.ok && fuel > 0 {
          TableNests(snap, next, nn.text, depth + 1, fuel - 1, stack);
          RunAppend(head, DumpTable(snap, next, nn.text, depth + 1, fuel - 1), stack);
        }
      } else {
        assert Run([Offset(name, p.offset, depth + 1)], stack) == Some(stack);
      }
    }
  }

  // ---------------------------------------------------------------------
  // Names of the printed offsets.
  // ---------------------------------------------------------------------

  /** No printed offset is named `baseclass` or starts with a digit. */
  predicate CleanOffsets(evs: seq<Event>)
  {
    forall k :: 0 <= k < |evs| && evs[k].Offset? ==> evs[k].name != "baseclass" && !DigitLed(evs[k].name)
  }

  lemma CleanAppend(a: seq<Event>, b: seq<Event>)
    requires CleanOffsets(a) && CleanOffsets(b)
    ensures CleanOffsets(a + b)
  {
    forall k | 0 <= k < |a + b| && (a + b)[k].Offset?
      ensures (a + b)[k].name != "baseclass" && !DigitLed((a + b)[k].name)
    {
      if k >= |a| {
        assert (a + b)[k] == b[k - |a|];
      }
    }
  }

  /** The skip rules hold at every nesting level: no offset of a dumped table has a skipped name. */
  lemma {:induction false} TableOffsetsClean(snap: Snapshot, t: RecvTable, name: string, depth: int, fuel: nat)
    requires TreeFits(snap, t, fuel)
    ensures CleanOffsets(DumpTable(snap, t, name, depth, fuel))
    decreases fuel, 1, 0
  {
    if !Silent(snap, t) {
      PropsOffsetsClean(snap, t, 0, depth, fuel);
      CleanAppend([TableStart(name, depth)], PropsEvents(snap, t, 0, depth, fuel));
      CleanAppend([TableStart(name, depth)] + PropsEvents(snap, t, 0, depth, fuel), [TableEnd(name, depth)]);
    }
  }

  lemma {:induction false} PropsOffsetsClean(snap: Snapshot, t: RecvTable, i: nat, depth: int, fuel: nat)
    requires TreeFits(snap, t, fuel) && !Silent(snap, t) && i <= t.propCount
    ensures CleanOffsets(PropsEvents(snap, t, i, depth, fuel))
    decreases fuel, 0, t.propCount - i
  {
    if i < t.propCount {
      var p := PropOf(snap, t, i);
      PropOffsetsClean(snap, p, depth, fuel);
      PropsOffsetsClean(snap, t, i + 1, depth, fuel);
      CleanAppend(PropEvents(snap, p, depth, fuel), PropsEvents(snap, t, i + 1, depth, fuel));
    }
  }

  lemma {:induction false} PropOffsetsClean(snap: Snapshot, p: RecvProp, depth: int, fuel: nat)
    requires PropFits(snap, p, fuel)
    ensures CleanOffsets(PropEvents(snap, p, depth, fuel))
    decreases fuel, 0, 0
  {
    var name := snap.readName(p.varName).text;
    if Printable(snap, p) && NestsTable(p) {
      var head := if p.offset > 0 then [Offset(name, p.offset, depth + 1)] else [];
      var next := snap.readTable(p.dataTable);
      var nn := snap.readName(next.netTableName);
      if nn.ok && fuel > 0 {
        TableOffsetsClean(snap, next, nn.text, depth + 1, fuel - 1);
        CleanAppend(head, DumpTable(snap, next, nn.text, depth + 1, fuel - 1));
      }
    }
  }

  // ---------------------------------------------------------------------
  // Tools::DumpNetvars: the class-list walk.
  // ---------------------------------------------------------------------

  /** The table of a class node, if it has one, fits with everything its dump reaches. */
  predicate ClassFits(snap: Snapshot, cc: ClientClass, fuel: nat)
  {
    cc.recvTable != 0 ==> TreeFits(snap, snap.readTable(cc.recvTable), fuel)
  }

  /** What one class node prints: its table at depth 1, or nothing without a table. */
  function ClassEvents(snap: Snapshot, cc: ClientClass, fuel: nat): seq<Event>
    requires ClassFits(snap, cc, fuel)
  {
    if cc.recvTable == 0 then []
    else DumpTable(snap, snap.readTable(cc.recvTable), snap.readName(cc.networkName).text, 1, fuel)
  }

  /** What a sequence of class nodes prints, in list order. */
  function ListEvents(snap: Snapshot, ns: seq<ClientClass>, fuel: nat): seq<Event>
    requires forall cc | cc in ns :: ClassFits(snap, cc, fuel)
  {
    if ns == [] then [] else ListEvents(snap, ns[..|ns| - 1], fuel) + ClassEvents(snap, ns[|ns| - 1], fuel)
  }

  lemma ListEventsSnoc(snap: Snapshot, ns: seq<ClientClass>, cc: ClientClass, fuel: nat)
    requires ClassFits(snap, cc, fuel) && forall c | c in ns :: ClassFits(snap, c, fuel)
    ensures ListEvents(snap, ns + [cc], fuel) == ListEvents(snap, ns, fuel) + ClassEvents(snap, cc, fuel)
  {
    assert (ns + [cc])[..|ns|] == ns;
  }

  /** The body of the walk for one node: dump its table, if it has one, at depth 1. */
  method DumpClass(snap: Snapshot, cc: ClientClass, fuel: nat) returns (evs: seq<Event>)
    requires ClassFits(snap, cc, fuel)
    ensures evs == ClassEvents(snap, cc, fuel)
    ensures cc.recvTable == 0 ==> evs == []
  {
    evs := [];
    if cc.recvTable != 0 {
      var table := snap.readTable(cc.recvTable);
      var tableName := snap.readName(cc.networkName).text;
      evs := DumpTable(snap, table, tableName, 1, fuel);
    }
  }

  /**
   * The walk: read the node at the current address, dump its table when it
   * has one, and continue at `m_pNext` until that is 0. `nodes` bounds the
   * length of the list and `fuel` the nesting of tables.
   */
  method DumpNetvars(lib: Library, head: u64, ghost nodes: nat, fuel: nat) returns (evs: seq<Event>)
    requires ListEnds(lib.snap, head, nodes)
    requires forall cc | cc in Nodes(lib.snap, head, nodes) :: ClassFits(lib.snap, cc, fuel)
    ensures evs == ListEvents(lib.snap, Nodes(lib.snap, head, nodes), fuel)
  {
    var snap := lib.snap;
    evs := [];
    ghost var visited: seq<ClientClass> := [];
    ghost var left := nodes;
    var next := head;
    while true
      invariant ListEnds(snap, next, left)
      invariant Nodes(snap, head, nodes) == visited + Nodes(snap, next, left)
      invariant evs == ListEvents(snap, visited, fuel)
      decreases left
    {
      NodesStep(snap, next, left);
      var cc := snap.readClass(next);
      ghost var rest := if cc.next == 0 then [] else Nodes(snap, cc.next, left - 1);
      assert visited + Nodes(snap, next, left) == (visited + [cc]) + rest;
      ListEventsSnoc(snap, visited, cc, fuel);
      var classEvs := DumpClass(snap, cc, fuel);
      evs := evs + classEvs;
      visited := visited + [cc];
      if cc.next == 0 {
        assert visited + rest == visited;
        return;
      }
      next := cc.next;
      left := left - 1;
    }
  }

  /** The whole netvar dump is well bracketed, every table opening at depth 1. */
  lemma {:induction false} ListNests(snap: Snapshot, ns: seq<ClientClass>, fuel: nat)
    requires forall cc | cc in ns :: ClassFits(snap, cc, fuel)
    ensures Run(ListEvents(snap, ns, fuel), []) == Some([])
    ensures CleanOffsets(ListEvents(snap, ns, fuel))
  {
    if ns != [] {
      var cc := ns[|ns| - 1];
      assert cc in ns;
      ListNests(snap, ns[..|ns| - 1], fuel);
      if cc.recvTable != 0 {
        var t := snap.readTable(cc.recvTable);
        TableNests(snap, t, snap.readName(cc.networkName).text, 1, fuel, []);
        TableOffsetsClean(snap, t, snap.readName(cc.networkName).text, 1, fuel);
      }
      RunAppend(ListEvents(snap, ns[..|ns| - 1], fuel), ClassEvents(snap, cc, fuel), []);
      CleanAppend(ListEvents(snap, ns[..|ns| - 1], fuel), ClassEvents(snap, cc, fuel));
    }
  }
}
