/**
 * The `NetVarManager` generation of the netvar dumper: it loads every
 * class's receive table into an in-memory tree, then prints the tree either
 * as C++ namespaces of constants or as indented raw text. The lines it
 * writes are modelled as a sequence of `Line` values.
 */
module Netvars {
  import opened Common
  import opened NetvarRecords

  // ---------------------------------------------------------------------
  // CleanPropString
  // ---------------------------------------------------------------------

  /**
   * What `CleanPropString` makes of a name: `.` and `[` become `_`, an
   * examined `]` is erased, and the character that slides into the erased
   * slot is skipped over without being examined.
   */
  function Cleaned(s: string): (r: string)
    ensures |r| <= |s|
  {
    if s == [] then []
    else if s[0] == '.' || s[0] == '[' then ['_'] + Cleaned(s[1..])
    else if s[0] == ']' then (if |s| == 1 then [] else [s[1]] + Cleaned(s[2..]))
    else [s[0]] + Cleaned(s[1..])
  }

  /** The in-place loop of `CleanPropString` over the index `i`. */
  method CleanPropString(original: string) returns (str: string)
    ensures str == Cleaned(original)
  {
    str := original;
    var i := 0;
    while i < |str|
      invariant i <= |str| + 1
      invariant i <= |str| ==> Cleaned(original) == str[..i] + Cleaned(str[i..])
      invariant i == |str| + 1 ==> Cleaned(original) == str
      decreases |str| + 1 - i
    {
      if str[i] == '.' || str[i] == '[' {
        ReplaceStep(str, i);
        str := str[i := '_'];
      } else if str[i] == ']' {
        EraseStep(str, i);
        str := str[..i] + str[i + 1..];
      } else {
        KeepStep(str, i);
      }
      i := i + 1;
    }
    if i <= |str| {
      assert str[..i] == str && str[i..] == [];
    }
  }

  /** Turning the examined `.` or `[` into `_` keeps the loop invariant. */
  lemma ReplaceStep(s: string, i: nat)
    requires i < |s| && (s[i] == '.' || s[i] == '[')
    ensures var t := s[i := '_'];
      t[..i + 1] + Cleaned(t[i + 1..]) == s[..i] + Cleaned(s[i..])
  {
    var t := s[i := '_'];
    assert t[..i + 1] == s[..i] + ['_'];
    assert t[i + 1..] == s[i..][1..];
  }

  /** Stepping over any other examined character keeps the loop invariant. */
  lemma KeepStep(s: string, i: nat)
    requires i < |s| && s[i] != '.' && s[i] != '[' && s[i] != ']'
    ensures s[..i + 1] + Cleaned(s[i + 1..]) == s[..i] + Cleaned(s[i..])
  {
    assert s[..i + 1] == s[..i] + [s[i]];
    assert s[i + 1..] == s[i..][1..];
  }

  /** Erasing the examined `]` and stepping past its successor keeps the loop invariant. */
  lemma EraseStep(s: string, i: nat)
    requires i < |s| && s[i] == ']'
    ensures var t := s[..i] + s[i + 1..];
      && (i < |t| ==> t[..i + 1] + Cleaned(t[i + 1..]) == s[..i] + Cleaned(s[i..]))
      && (i == |t| ==> t == s[..i] + Cleaned(s[i..]))
  {
    var t := s[..i] + s[i + 1..];
    if i < |t| {
      assert t[..i + 1] == s[..i] + [s[i + 1]];
      assert t[i + 1..] == s[i..][2..];
    } else {
      assert t == s[..i];
    }
  }

  /** `CleanPropString` turns `.` and `[` into `_` and changes nothing else. */
  predicate Underscored(s: string, r: string)
  {
    |r| == |s| && forall k :: 0 <= k < |s| ==> r[k] == if s[k] == '.' || s[k] == '[' then '_' else s[k]
  }

  /** On a name without `]`, cleaning keeps the length and only underscores `.` and `[`. */
  lemma {:induction false} CleanedWithoutBrackets(s: string)
    requires ']' !in s
    ensures Underscored(s, Cleaned(s))
  {
    if s != [] {
      assert ']' !in s[1..];
      CleanedWithoutBrackets(s[1..]);
      var r := Cleaned(s);
      assert r[1..] == Cleaned(s[1..]);
      forall k | 0 <= k < |s|
        ensures r[k] == if s[k] == '.' || s[k] == '[' then '_' else s[k]
      {
        if k > 0 {
          assert r[k] == Cleaned(s[1..])[k - 1] && s[k] == s[1..][k - 1];
        }
      }
    }
  }

  /** Cleaning a name without `]` a second time changes nothing. */
  lemma CleanedIdempotent(s: string)
    requires ']' !in s
    ensures Cleaned(Cleaned(s)) == Cleaned(s)
  {
    CleanedWithoutBrackets(s);
    var r := Cleaned(s);
    assert ']' !in r by {
      forall k | 0 <= k < |r| ensures r[k] != ']' {
        assert s[k] != ']';
      }
    }
    CleanedWithoutBrackets(r);
    assert forall k :: 0 <= k < |r| ==> r[k] != '.' && r[k] != '[';
  }

  /** Of two adjacent `]`, the first is erased and the second survives. */
  lemma DoubleBracketExample(s: string)
    requires s == "a]]"
    ensures Cleaned(s) == "a]"
  {
    assert s[1..] == "]]";
    assert s[1..][2..] == [];
  }

  // ---------------------------------------------------------------------
  // LoadTable: the in-memory tree.
  // ---------------------------------------------------------------------

  /** `NetVar_Prop`: a property's name and offset. */
  datatype NetvarProp = NetvarProp(name: string, offset: u32)

  /**
   * `NetVar_Table`: a table's name, its offset within the enclosing table,
   * the property it hangs off (None for a top-level table, whose property is
   * left default-constructed), and its child properties and child tables.
   */
  datatype NetvarTable = NetvarTable(
    name: string,
    offset: u32,
    prop: Option<NetvarProp>,
    props: seq<NetvarProp>,
    tables: seq<NetvarTable>)

  /** The name `ReadMemory<std::string>(addr, 64)` yields, whether or not the read succeeded. */
  function NameAt(snap: Snapshot, addr: u64): string
  {
    snap.readName(addr).text
  }

  /** A descriptor `LoadTable` keeps: a non-null name pointer, no leading digit, not `baseclass`. */
  predicate Kept(snap: Snapshot, p: RecvProp)
  {
    p.varName != 0 && !DigitLed(NameAt(snap, p.varName)) && NameAt(snap, p.varName) != "baseclass"
  }

  function PropRecord(snap: Snapshot, p: RecvProp): NetvarProp
  {
    NetvarProp(NameAt(snap, p.varName), p.offset)
  }

  /** The child properties made of the first `n` descriptors: every kept one not nesting a table. */
  function ChildProps(snap: Snapshot, t: RecvTable, n: nat): seq<NetvarProp>
    requires n <= t.propCount
  {
    if n == 0 then []
    else
      var p := PropOf(snap, t, n - 1);
      ChildProps(snap, t, n - 1) + (if Kept(snap, p) && !NestsTable(p) then [PropRecord(snap, p)] else [])
  }

  /**
   * The child tables made of the first `n` descriptors: every kept one
   * nesting a table, loaded with `fuel` levels, carrying the descriptor's
   * offset and record.
   */
  function ChildTables(snap: Snapshot, t: RecvTable, n: nat, fuel: nat): seq<NetvarTable>
    requires n <= t.propCount
    decreases fuel, n
  {
    if n == 0 then []
    else
      var p := PropOf(snap, t, n - 1);
      ChildTables(snap, t, n - 1, fuel) +
      (if Kept(snap, p) && NestsTable(p) then [AsChild(Loaded(snap, snap.readTable(p.dataTable), fuel), snap, p)] else [])
  }

  /** `child_tables.back().offset = prop.m_Offset; child_tables.back().prop = nvprop;` */
  function AsChild(table: NetvarTable, snap: Snapshot, p: RecvProp): NetvarTable
  {
    table.(offset := p.offset, prop := Some(PropRecord(snap, p)))
  }

  /**
   * `LoadTable(recvTable)`. Nothing stops a table from nesting itself, so
   * loading is cut after `fuel` levels: a table reached with no fuel left
   * keeps only its name.
   */
  function Loaded(snap: Snapshot, t: RecvTable, fuel: nat): NetvarTable
    decreases fuel, 0
  {
    if fuel == 0 then NetvarTable(NameAt(snap, t.netTableName), 0, None, [], [])
    else NetvarTable(NameAt(snap, t.netTableName), 0, None,
                     ChildProps(snap, t, t.propCount), ChildTables(snap, t, t.propCount, fuel - 1))
  }

  /** The loop of `LoadTable` over the descriptors, recursing into nested tables. */
  method LoadTable(snap: Snapshot, t: RecvTable, fuel: nat) returns (table: NetvarTable)
    ensures table == Loaded(snap, t, fuel)
    decreases fuel, 0
  {
    var name := NameAt(snap, t.netTableName);
    if fuel == 0 {
      return NetvarTable(name, 0, None, [], []);
    }
    var props: seq<NetvarProp> := [];
    var tables: seq<NetvarTable> := [];
    var i := 0;
    while i < t.propCount
      invariant i <= t.propCount
      invariant props == ChildProps(snap, t, i)
      invariant tables == ChildTables(snap, t, i, fuel - 1)
    {
      props, tables := LoadDescriptor(snap, t, i, fuel - 1, props, tables);
      i := i + 1;
    }
    table := NetvarTable(name, 0, None, props, tables);
  }

  /** One pass of that loop: descriptor `i` is skipped, or becomes a child table or a child property. */
  method LoadDescriptor(snap: Snapshot, t: RecvTable, i: nat, fuel: nat,
                        props: seq<NetvarProp>, tables: seq<NetvarTable>)
    returns (props': seq<NetvarProp>, tables': seq<NetvarTable>)
    requires i < t.propCount
    requires props == ChildProps(snap, t, i) && tables == ChildTables(snap, t, i, fuel)
    ensures props' == ChildProps(snap, t, i + 1) && tables' == ChildTables(snap, t, i + 1, fuel)
    decreases fuel, 1
  {
    var prop := snap.readProp(Wrap64(t.props + RecvPropSize * i));
    var nvprop := NetvarProp(NameAt(snap, prop.varName), prop.offset);
    LoadStep(snap, t, i, fuel);
    props', tables' := props, tables;
    if prop.varName == 0 || DigitLed(nvprop.name) || nvprop.name == "baseclass" {
    } else if prop.recvType == DPT_DataTable && prop.dataTable != 0 {
      var child := LoadTable(snap, snap.readTable(prop.dataTable), fuel);
      tables' := tables + [child.(offset := prop.offset, prop := Some(nvprop))];
    } else {
      props' := props + [nvprop];
    }
  }

  /** Descriptor `i` adds at most one child, at the end of the list it belongs to. */
  lemma LoadStep(snap: Snapshot, t: RecvTable, i: nat, fuel: nat)
    requires i < t.propCount
    ensures var p := PropOf(snap, t, i);
      && ChildProps(snap, t, i + 1) ==
         ChildProps(snap, t, i) + (if Kept(snap, p) && !NestsTable(p) then [PropRecord(snap, p)] else [])
      && ChildTables(snap, t, i + 1, fuel) ==
         ChildTables(snap, t, i, fuel) +
         (if Kept(snap, p) && NestsTable(p) then [AsChild(Loaded(snap, snap.readTable(p.dataTable), fuel), snap, p)] else [])
  {
  }

  /** Every name `LoadTable` keeps passes its skip rules. */
  predicate Unskipped(name: string)
  {
    !DigitLed(name) && name != "baseclass"
  }

  /**
   * A loaded table's children all passed the skip rules; every child table
   * carries its descriptor, and its offset is that descriptor's offset.
   */
  lemma {:induction false} ChildrenFiltered(snap: Snapshot, t: RecvTable, n: nat, fuel: nat)
    requires n <= t.propCount
    ensures forall q | q in ChildProps(snap, t, n) :: Unskipped(q.name)
    ensures forall c | c in ChildTables(snap, t, n, fuel) ::
      c.prop.Some? && c.offset == c.prop.value.offset && Unskipped(c.prop.value.name)
  {
    if n > 0 {
      ChildrenFiltered(snap, t, n - 1, fuel);
    }
  }

  /** Array-kind descriptors are not skipped here: a kept one becomes a child property. */
  lemma {:induction false} ArrayPropsKept(snap: Snapshot, t: RecvTable, i: nat, n: nat)
    requires i < n <= t.propCount
    requires Kept(snap, PropOf(snap, t, i)) && PropOf(snap, t, i).recvType == DPT_Array
    ensures PropRecord(snap, PropOf(snap, t, i)) in ChildProps(snap, t, n)
  {
    if i < n - 1 {
      ArrayPropsKept(snap, t, i, n - 1);
    }
  }

  /** Later descriptors only ever add children after earlier ones: the lists keep array order. */
  lemma {:induction false} ChildrenGrowAtEnd(snap: Snapshot, t: RecvTable, m: nat, n: nat, fuel: nat)
    requires m <= n <= t.propCount
    ensures ChildProps(snap, t, m) <= ChildProps(snap, t, n)
    ensures ChildTables(snap, t, m, fuel) <= ChildTables(snap, t, n, fuel)
    decreases n - m
  {
    if m < n {
      ChildrenGrowAtEnd(snap, t, m, n - 1, fuel);
    }
  }

  /** Each descriptor adds at most one child, so the two lists together are no longer than the array. */
  lemma {:induction false} ChildrenCount(snap: Snapshot, t: RecvTable, n: nat, fuel: nat)
    requires n <= t.propCount
    ensures |ChildProps(snap, t, n)| + |ChildTables(snap, t, n, fuel)| <= n
  {
    if n > 0 {
      ChildrenCount(snap, t, n - 1, fuel);
    }
  }

  // ---------------------------------------------------------------------
  // The constructor's class-list walk.
  // ---------------------------------------------------------------------

  /** One loaded table per visited class node, in list order. */
  function ClassTables(snap: Snapshot, ns: seq<ClientClass>, fuel: nat): seq<NetvarTable>
  {
    if ns == [] then [] else ClassTables(snap, ns[..|ns| - 1], fuel) + [Loaded(snap, snap.readTable(ns[|ns| - 1].recvTable), fuel)]
  }

  /** Table `k` is the table of node `k`, loaded: one table per node, in list order. */
  lemma {:induction false} ClassTablesInOrder(snap: Snapshot, ns: seq<ClientClass>, fuel: nat)
    ensures |ClassTables(snap, ns, fuel)| == |ns|
    ensures forall k :: 0 <= k < |ns| ==>
      ClassTables(snap, ns, fuel)[k] == Loaded(snap, snap.readTable(ns[k].recvTable), fuel)
  {
    if ns != [] {
      ClassTablesInOrder(snap, ns[..|ns| - 1], fuel);
    }
  }

  lemma ClassTablesSnoc(snap: Snapshot, ns: seq<ClientClass>, cc: ClientClass, fuel: nat)
    ensures ClassTables(snap, ns + [cc], fuel) == ClassTables(snap, ns, fuel) + [Loaded(snap, snap.readTable(cc.recvTable), fuel)]
  {
    assert (ns + [cc])[..|ns|] == ns;
  }

  class NetVarManager {
    /** `m_data`: the loaded top-level tables. */
    var data: seq<NetvarTable>

    /**
     * Walks the class list from `addr`, loading every node's table (a null
     * table pointer is read like any other); `nodes` bounds the length of
     * the list and `fuel` the nesting of tables.
     */
    constructor(snap: Snapshot, addr: u64, ghost nodes: nat, fuel: nat)
      requires ListEnds(snap, addr, nodes)
      ensures data == ClassTables(snap, Nodes(snap, addr, nodes), fuel)
    {
      var loaded: seq<NetvarTable> := [];
      ghost var visited: seq<ClientClass> := [];
      ghost var left := nodes;
      var next := addr;
      while true
        invariant ListEnds(snap, next, left)
        invariant Nodes(snap, addr, nodes) == visited + Nodes(snap, next, left)
        invariant loaded == ClassTables(snap, visited, fuel)
        decreases left
      {
        NodesStep(snap, next, left);
        var cc := snap.readClass(next);
        ghost var rest := if cc.next == 0 then [] else Nodes(snap, cc.next, left - 1);
        VisitNext(visited, cc, rest);
        var recvTable := snap.readTable(cc.recvTable);
        var table := LoadTable(snap, recvTable, fuel);
        ClassTablesSnoc(snap, visited, cc, fuel);
        loaded := loaded + [table];
        visited := visited + [cc];
        if cc.next == 0 {
          assert visited + rest == visited;
          break;
        }
        next := cc.next;
        left := left - 1;
      }
      data := loaded;
    }
  }

  // ---------------------------------------------------------------------
  // Dump, DumpTableCPP and DumpTableRaw: which lines get written.
  // ---------------------------------------------------------------------

  datatype Style = CPlusPlus | Raw

  /**
   * One written line: a namespace or table heading, a named offset, or the
   * closing brace of a namespace, each at an indentation level.
   */
  datatype Line =
    | Open(name: string, indent: nat)
    | Value(name: string, offset: u32, indent: nat)
    | Close(indent: nat)

  predicate HasChildren(t: NetvarTable)
  {
    t.props != [] || t.tables != []
  }

  /** Index of the first occurrence of `c` in `s`. */
  function FirstIndex(s: string, c: char): (k: Option<nat>)
    ensures k.Some? <==> c in s
    ensures k.Some? ==> k.value < |s| && s[k.value] == c && c !in s[..k.value]
  {
    if s == [] then None
    else if s[0] == c then Some(0)
    else
      var k := FirstIndex(s[1..], c);
      assert k.Some? ==> s[..k.value + 1] == [s[0]] + s[1..][..k.value];
      if k.Some? then Some(k.value + 1) else None
  }

  /** The member name of a child table: `m` followed by the name from its first `_` on. */
  function MemberName(name: string): Option<string>
  {
    var sep := FirstIndex(name, '_');
    if sep.Some? then Some("m" + name[sep.value..]) else None
  }

  lemma MemberNameExample(name: string)
    requires name == "DT_Foo"
    ensures MemberName(name) == Some("m_Foo")
    ensures DropTablePrefix(name) == "Foo"
  {
    assert FirstIndex(name[2..], '_') == Some(0);
    assert FirstIndex(name[1..], '_') == Some(1) by {
      assert name[1..][1..] == name[2..];
    }
    assert FirstIndex(name, '_') == Some(2);
    assert MemberName(name) == Some("m" + name[2..]);
    assert name[2..] == "_Foo";
    assert "m" + "_Foo" == "m_Foo";
    assert name[..3] == "DT_";
  }

  /** The name under which a table heading is written. */
  function HeadingName(style: Style, name: string): string
  {
    if style == CPlusPlus then DropTablePrefix(name) else name
  }

  /** The name under which a property is written. */
  function PropertyName(style: Style, name: string): string
  {
    if style == CPlusPlus then Cleaned(name) else name
  }

  /** The lines of a table's children, written at `indent`: properties first, then child tables. */
  function BodyLines(style: Style, t: NetvarTable, indent: nat): seq<Line>
    decreases t, 2, 0
  {
    PropLines(style, t.props, indent) + TableLines(style, t, 0, indent)
  }

  /** The properties with a positive offset, in order; a zero offset is never written. */
  function PropLines(style: Style, ps: seq<NetvarProp>, indent: nat): seq<Line>
  {
    if ps == [] then []
    else (if ps[0].offset > 0 then [Value(PropertyName(style, ps[0].name), ps[0].offset, indent)] else [])
         + PropLines(style, ps[1..], indent)
  }

  /** The lines of child tables `i..` of `t`. */
  function TableLines(style: Style, t: NetvarTable, i: nat, indent: nat): seq<Line>
    requires i <= |t.tables|
    decreases t, 1, |t.tables| - i
  {
    if i == |t.tables| then []
    else ChildLines(style, t.tables[i], indent) + TableLines(style, t, i + 1, indent)
  }

  /**
   * A child table writes its member line when its offset is positive and its
   * name has a `_`, then, unless it is empty, its own heading and body.
   */
  function ChildLines(style: Style, c: NetvarTable, indent: nat): seq<Line>
    decreases c, 4, 0
  {
    var member := MemberName(c.name);
    (if c.offset > 0 && member.Some? then [Value(member.value, c.offset, indent)] else [])
    + (if HasChildren(c) then Block(style, c, indent) else [])
  }

  /** A heading, the body one level deeper, and for C++ the closing brace. */
  function Block(style: Style, t: NetvarTable, indent: nat): seq<Line>
    decreases t, 3, 0
  {
    [Open(HeadingName(style, t.name), indent)] + BodyLines(style, t, indent + 1)
    + (if style == CPlusPlus then [Close(indent)] else [])
  }

  /**
   * What `Dump` writes between its fixed header and footer: every top-level
   * table that has children, as a block. The default indentations of
   * `PrintIndent()` and `DumpTable*(table)` are `outer` and `inner`; a raw
   * heading is written without indentation.
   */
  function DumpLines(style: Style, data: seq<NetvarTable>, outer: nat, inner: nat): seq<Line>
  {
    if data == [] then [] else TopBlock(style, data[0], outer, inner) + DumpLines(style, data[1..], outer, inner)
  }

  /** One top-level table: skipped when it has no children. */
  function TopBlock(style: Style, t: NetvarTable, outer: nat, inner: nat): seq<Line>
  {
    if !HasChildren(t) then []
    else if style == CPlusPlus then [Open(DropTablePrefix(t.name), outer)] + BodyLines(style, t, inner) + [Close(outer)]
    else [Open(t.name, 0)] + BodyLines(style, t, inner)
  }

  // ---------------------------------------------------------------------
  // Properties of the written lines.
  // ---------------------------------------------------------------------

  /** No written offset is 0. */
  predicate PositiveValues(ls: seq<Line>)
  {
    forall k :: 0 <= k < |ls| && ls[k].Value? ==> ls[k].offset > 0
  }

  lemma PositiveAppend(a: seq<Line>, b: seq<Line>)
    requires PositiveValues(a) && PositiveValues(b)
    ensures PositiveValues(a + b)
  {
    forall k | 0 <= k < |a + b| && (a + b)[k].Value? ensures (a + b)[k].offset > 0 {
      if k >= |a| {
        assert (a + b)[k] == b[k - |a|];
      }
    }
  }

  /**
   * The C++ braces balance: replaying the lines against a stack of open
   * indentation levels, each Close closes a namespace opened at its level.
   */
  function Braces(ls: seq<Line>, open: seq<nat>): Option<seq<nat>>
    decreases |ls|
  {
    if ls == [] then Some(open)
    else match ls[0]
      case Open(_, i) => Braces(ls[1..], open + [i])
      case Value(_, _, _) => Braces(ls[1..], open)
      case Close(i) => if open != [] && open[|open| - 1] == i then Braces(ls[1..], open[..|open| - 1]) else None
  }

  lemma {:induction false} BracesAppend(a: seq<Line>, b: seq<Line>, open: seq<nat>)
    ensures Braces(a + b, open) == if Braces(a, open).Some? then Braces(b, Braces(a, open).value) else None
    decreases |a|
  {
    if a != [] {
      assert (a + b)[0] == a[0];
      assert (a + b)[1..] == a[1..] + b;
      match a[0]
      case Open(_, i) =>
        BracesAppend(a[1..], b, open + [i]);
      case Value(_, _, _) =>
        BracesAppend(a[1..], b, open);
      case Close(i) =>
        if open != [] && open[|open| - 1] == i {
          BracesAppend(a[1..], b, open[..|open| - 1]);
        }
    } else {
      assert a + b == b;
    }
  }

  /** Raw output closes nothing. */
  predicate NoCloses(ls: seq<Line>)
  {
    forall k :: 0 <= k < |ls| ==> !ls[k].Close?
  }

  /**
   * Written lines that hold only positive offsets, and whose braces balance
   * in C++ style or which hold no closing line in raw style.
   */
  predicate Sound(style: Style, ls: seq<Line>, open: seq<nat>)
  {
    PositiveValues(ls) && (if style == CPlusPlus then Braces(ls, open) == Some(open) else NoCloses(ls))
  }

  lemma SoundAppend(style: Style, a: seq<Line>, b: seq<Line>, open: seq<nat>)
    requires Sound(style, a, open) && Sound(style, b, open)
    ensures Sound(style, a + b, open)
  {
    PositiveAppend(a, b);
    BracesAppend(a, b, open);
    if style == Raw {
      forall k | 0 <= k < |a + b| ensures !(a + b)[k].Close? {
        if k >= |a| {
          assert (a + b)[k] == b[k - |a|];
        }
      }
    }
  }

  lemma {:induction false} PropLinesSound(style: Style, ps: seq<NetvarProp>, indent: nat, open: seq<nat>)
    ensures Sound(style, PropLines(style, ps, indent), open)
  {
    if ps != [] {
      PropLinesSound(style, ps[1..], indent, open);
      var head := if ps[0].offset > 0 then [Value(PropertyName(style, ps[0].name), ps[0].offset, indent)] else [];
      assert Sound(style, head, open);
      SoundAppend(style, head, PropLines(style, ps[1..], indent), open);
    }
  }

  lemma {:induction false} BodySound(style: Style, t: NetvarTable, indent: nat, open: seq<nat>)
    ensures Sound(style, BodyLines(style, t, indent), open)
    decreases t, 2, 0
  {
    PropLinesSound(style, t.props, indent, open);
    TablesSound(style, t, 0, indent, open);
    SoundAppend(style, PropLines(style, t.props, indent), TableLines(style, t, 0, indent), open);
  }

  lemma {:induction false} TablesSound(style: Style, t: NetvarTable, i: nat, indent: nat, open: seq<nat>)
    requires i <= |t.tables|
    ensures Sound(style, TableLines(style, t, i, indent), open)
    decreases t, 1, |t.tables| - i
  {
    if i < |t.tables| {
      ChildSound(style, t.tables[i], indent, open);
      TablesSound(style, t, i + 1, indent, open);
      SoundAppend(style, ChildLines(style, t.tables[i], indent), TableLines(style, t, i + 1, indent), open);
    }
  }

  lemma {:induction false} ChildSound(style: Style, c: NetvarTable, indent: nat, open: seq<nat>)
    ensures Sound(style, ChildLines(style, c, indent), open)
    decreases c, 4, 0
  {
    var member := MemberName(c.name);
    var head := if c.offset > 0 && member.Some? then [Value(member.value, c.offset, indent)] else [];
    assert Sound(style, head, open);
    if HasChildren(c) {
      BlockSound(style, c, indent, open);
      SoundAppend(style, head, Block(style, c, indent), open);
    } else {
      assert ChildLines(style, c, indent) == head;
    }
  }

  lemma {:induction false} BlockSound(style: Style, t: NetvarTable, indent: nat, open: seq<nat>)
    ensures Sound(style, Block(style, t, indent), open)
    decreases t, 3, 0
  {
    var heading := [Open(HeadingName(style, t.name), indent)];
    if style == CPlusPlus {
      var inner := open + [indent];
      BodySound(style, t, indent + 1, inner);
      assert Braces(heading, open) == Some(inner);
      assert inner[..|inner| - 1] == open;
      assert Braces([Close(indent)], inner) == Some(open);
      BracesAppend(heading, BodyLines(style, t, indent + 1), open);
      BracesAppend(heading + BodyLines(style, t, indent + 1), [Close(indent)], open);
      PositiveAppend(heading, BodyLines(style, t, indent + 1));
      PositiveAppend(heading + BodyLines(style, t, indent + 1), [Close(indent)]);
    } else {
      BodySound(style, t, indent + 1, open);
      assert Sound(style, heading, open);
      SoundAppend(style, heading, BodyLines(style, t, indent + 1), open);
      assert Block(style, t, indent) == heading + BodyLines(style, t, indent + 1);
    }
  }

  /**
   * The whole dump: no property or member with offset 0 is written; in C++
   * style every namespace is closed at the level it was opened, and raw
   * style writes no closing line.
   */
  lemma {:induction false} DumpSound(style: Style, data: seq<NetvarTable>, outer: nat, inner: nat)
    ensures Sound(style, DumpLines(style, data, outer, inner), [])
  {
    if data != [] {
      DumpSound(style, data[1..], outer, inner);
      TopBlockSound(style, data[0], outer, inner);
      SoundAppend(style, TopBlock(style, data[0], outer, inner), DumpLines(style, data[1..], outer, inner), []);
    }
  }

  lemma TopBlockSound(style: Style, t: NetvarTable, outer: nat, inner: nat)
    ensures Sound(style, TopBlock(style, t, outer, inner), [])
  {
    if HasChildren(t) {
      var body := BodyLines(style, t, inner);
      if style == CPlusPlus {
        var heading := [Open(DropTablePrefix(t.name), outer)];
        BodySound(style, t, inner, [outer]);
        var none: seq<nat> := [];
        assert none + [outer] == [outer] && heading[1..] == [];
        assert Braces(heading, []) == Some([outer]);
        assert Braces([Close(outer)], [outer]) == Some([]);
        BracesAppend(heading, body, []);
        BracesAppend(heading + body, [Close(outer)], []);
        PositiveAppend(heading, body);
        PositiveAppend(heading + body, [Close(outer)]);
      } else {
        var heading := [Open(t.name, 0)];
        BodySound(style, t, inner, []);
        assert Sound(style, heading, []);
        SoundAppend(style, heading, body, []);
      }
    }
  }

  /** Tables without children write nothing at all, at the top level or nested. */
  lemma EmptyTablesSilent(style: Style, data: seq<NetvarTable>, outer: nat, inner: nat)
    requires forall t | t in data :: !HasChildren(t)
    ensures DumpLines(style, data, outer, inner) == []
  {
  }
}
