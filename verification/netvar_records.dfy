/**
 * The game's networking records as the netvar dumpers read them out of the
 * target (the x86-64 layouts of `ClientClass`, `RecvTable` and `RecvProp`),
 * the snapshot that answers those reads, and the class list they walk.
 */
module NetvarRecords {
  import opened Common

  /** One node of the game's singly linked class list. */
  datatype ClientClass = ClientClass(
    createFn: u64,
    createEventFn: u64,
    networkName: u64,
    recvTable: u64,
    next: u64,
    classId: i32)

  /** The two `SendPropType` values the dumpers test. */
  const DPT_Array: i32 := 5
  const DPT_DataTable: i32 := 6

  /** One property descriptor of a receive table. */
  datatype RecvProp = RecvProp(
    varName: u64,
    recvType: i32,
    flags: i32,
    stringBufferSize: i32,
    insideArray: bool,
    extraData: u64,
    arrayProp: u64,
    arrayLengthProxy: u64,
    proxyFn: u64,
    dataTableProxyFn: u64,
    dataTable: u64,
    offset: u32,
    elementStride: i32,
    elements: u32,
    parentArrayPropName: u64)

  /** `sizeof(RecvProp)`: eleven 8-byte slots and eight 4-byte ones, with padding. */
  const RecvPropSize: int := 0x60

  /** A receive table: an array of `propCount` descriptors and a name. */
  datatype RecvTable = RecvTable(
    props: u64,
    propCount: u32,
    decoder: u64,
    netTableName: u64,
    initialized: bool,
    inMainList: bool)

  /**
   * What a 64-byte read of a name leaves behind: whether the read moved any
   * byte, and the C string then held by the buffer.
   */
  datatype NameRead = NameRead(ok: bool, text: string)

  /**
   * The answers a fixed snapshot of the target gives to the reads the dumpers
   * make: a record at an address, whether `n` bytes at an address can be read,
   * and a name.
   */
  datatype Snapshot = Snapshot(
    readClass: u64 -> ClientClass,
    readTable: u64 -> RecvTable,
    readProp: u64 -> RecvProp,
    readable: (u64, nat) -> bool,
    readName: u64 -> NameRead)

  /** Address of descriptor `i` of a table's array: `m_pProps + i * sizeof(RecvProp)`. */
  function PropAddress(t: RecvTable, i: nat): u64
  {
    Wrap64(t.props + RecvPropSize * i)
  }

  /** Descriptor `i` of a table as the snapshot holds it. */
  function PropOf(snap: Snapshot, t: RecvTable, i: nat): RecvProp
  {
    snap.readProp(PropAddress(t, i))
  }

  /** `isdigit(name[0])`; the terminator of an empty name is not a digit. */
  predicate DigitLed(name: string)
  {
    |name| > 0 && IsDigit(name[0])
  }

  /** A DataTable descriptor that points at a nested table. */
  predicate NestsTable(p: RecvProp)
  {
    p.recvType == DPT_DataTable && p.dataTable != 0
  }

  // ---------------------------------------------------------------------
  // The class list.  Both walks read the node at the head before testing
  // anything and stop after the first node whose `m_pNext` is 0; nothing
  // guards against a cycle, so `fuel` bounds the number of nodes.
  // ---------------------------------------------------------------------

  /** The list reached from `a` ends within `fuel` nodes. */
  predicate ListEnds(snap: Snapshot, a: u64, fuel: nat)
    decreases fuel
  {
    fuel > 0 &&
    (snap.readClass(a).next == 0 || ListEnds(snap, snap.readClass(a).next, fuel - 1))
  }

  /** The nodes the walk visits from `a`, cut after `fuel` nodes. */
  function Nodes(snap: Snapshot, a: u64, fuel: nat): (ns: seq<ClientClass>)
    ensures |ns| <= fuel
    decreases fuel
  {
    if fuel == 0 then []
    else
      var cc := snap.readClass(a);
      [cc] + (if cc.next == 0 then [] else Nodes(snap, cc.next, fuel - 1))
  }

  /**
   * On a list that ends, the walk visits the head first, follows every
   * `m_pNext`, and stops exactly at the first node whose `m_pNext` is 0.
   */
  lemma {:induction false} NodesFollowList(snap: Snapshot, a: u64, fuel: nat)
    requires ListEnds(snap, a, fuel)
    ensures var ns := Nodes(snap, a, fuel);
      && |ns| > 0
      && ns[0] == snap.readClass(a)
      && ns[|ns| - 1].next == 0
      && forall k :: 0 <= k < |ns| - 1 ==> ns[k].next != 0 && ns[k + 1] == snap.readClass(ns[k].next)
    decreases fuel
  {
    var cc := snap.readClass(a);
    if cc.next != 0 {
      NodesFollowList(snap, cc.next, fuel - 1);
      var ns := Nodes(snap, a, fuel);
      var tail := Nodes(snap, cc.next, fuel - 1);
      assert ns == [cc] + tail;
      forall k | 0 <= k < |ns| - 1
        ensures ns[k].next != 0 && ns[k + 1] == snap.readClass(ns[k].next)
      {
        if k > 0 {
          assert ns[k] == tail[k - 1] && ns[k + 1] == tail[k];
        }
      }
    }
  }

  /** One step of the walk: the visited nodes are the head and the nodes after it. */
  lemma NodesStep(snap: Snapshot, a: u64, fuel: nat)
    requires ListEnds(snap, a, fuel)
    ensures snap.readClass(a).next != 0 ==> ListEnds(snap, snap.readClass(a).next, fuel - 1)
    ensures Nodes(snap, a, fuel) ==
      [snap.readClass(a)] + (if snap.readClass(a).next == 0 then [] else Nodes(snap, snap.readClass(a).next, fuel - 1))
  {
  }

  /** The walk moves one node from the nodes ahead to the nodes visited. */
  lemma VisitNext<T>(visited: seq<T>, x: T, rest: seq<T>)
    ensures visited + ([x] + rest) == (visited + [x]) + rest
  {
  }
}
