/**
 * The JSON re-formatter of the C++ dumper: the dump is written as a JSON
 * document, and `Formatter` walks that document again to print it in a
 * text format, tracking the indentation depth in a field it updates.
 */
module Formatter {
  import opened Common

  /** The parts of a JSON value the walk tells apart: objects, `int`s, and anything else. */
  datatype Json = Object(members: seq<Member>) | Int(n: i32) | Other

  /** A named member of a JSON object. */
  datatype Member = Member(name: string, value: Json)

  /**
   * One `fmt::print` of the walk: the indent string, a `table_begin` or
   * `table_end` line for an object, or an `offset` line for an `int`.
   */
  datatype Emit = Pad | Begin(scope: string) | End(scope: string) | Entry(scope: string, value: u32)

  /** `max(depth, 0)` copies of the indent string. */
  function Pads(depth: int): seq<Emit>
  {
    if depth <= 0 then [] else seq(depth, _ => Pad)
  }

  // ---------------------------------------------------------------------
  // The replacement pairs.
  // ---------------------------------------------------------------------

  /**
   * The scope after one `replace_chars` pair: a pair whose second character
   * is 0 erases the first; any other pair turns it into the second.
   */
  function PairApplied(s: string, p: (char, char)): string
  {
    if p.1 == '\0' then Removed(s, p.0) else Replaced(s, p.0, p.1)
  }

  /** The scope after every pair of `pairs`, one after the other. */
  function Renamed(s: string, pairs: seq<(char, char)>): string
  {
    if pairs == [] then s else PairApplied(Renamed(s, pairs[..|pairs| - 1]), pairs[|pairs| - 1])
  }

  /** `scope.find(c, from)`: the first `c` at or after `from`, None for `npos`. */
  function Find(s: string, c: char, from: nat): (r: Option<nat>)
    ensures r.Some? ==> from <= r.value < |s| && s[r.value] == c && c !in s[from..r.value]
    ensures r.None? ==> forall k | from <= k < |s| :: s[k] != c
    decreases |s| - from
  {
    if from >= |s| then None
    else if s[from] == c then Some(from)
    else Find(s, c, from + 1)
  }

  lemma RemovedErase(s: string, pos: nat, c: char)
    requires pos < |s| && s[pos] == c
    ensures Removed(s[..pos] + s[pos + 1..], c) == Removed(s, c)
  {
    var a, b := s[..pos], s[pos + 1..];
    var cb := [c] + b;
    assert s == a + cb;
    assert cb[0] == c && cb[1..] == b;
    assert Removed(cb, c) == Removed(b, c);
    RemovedAppend(a, cb, c);
    RemovedAppend(a, b, c);
  }

  /**
   * The inner loop of `PrintRecursive` for one pair. Which branch the loop
   * body takes depends only on the pair, so each branch is its own loop here.
   */
  method ApplyPair(scope: string, p: (char, char)) returns (r: string)
    ensures r == PairApplied(scope, p)
  {
    if p.1 == '\0' {
      r := EraseAll(scope, p.0);
    } else {
      r := ReplaceAll(scope, p.0, p.1);
    }
  }

  /** The erasing branch: `scope.erase(pos, 1)`, and the search goes on from the same position. */
  method EraseAll(scope: string, c: char) returns (r: string)
    ensures r == Removed(scope, c)
  {
    r := scope;
    var pos := Find(r, c, 0);
    while pos.Some?
      invariant Removed(r, c) == Removed(scope, c)
      invariant pos.Some? ==> pos.value < |r| && r[pos.value] == c
      invariant forall k | 0 <= k < (if pos.Some? then pos.value else |r|) :: r[k] != c
      decreases |r|
    {
      var at := pos.value;
      RemovedErase(r, at, c);
      r := r[..at] + r[at + 1..];
      pos := Find(r, c, at);
    }
    RemovedAbsent(r, c);
  }

  /**
   * The replacing branch: `scope[pos] = d`, and the search resumes one past
   * `pos`, so the loop ends even when `d` is `c`.
   */
  method ReplaceAll(scope: string, c: char, d: char) returns (r: string)
    ensures r == Replaced(scope, c, d)
  {
    r := scope;
    var pos := Find(r, c, 0);
    ghost var target := Replaced(scope, c, d);
    while pos.Some?
      invariant |r| == |scope|
      invariant pos.Some? ==> pos.value < |r| && r[pos.value] == c
      invariant forall k | 0 <= k < (if pos.Some? then pos.value else |r|) :: r[k] == target[k]
      invariant forall k | (if pos.Some? then pos.value else |r|) <= k < |r| :: r[k] == scope[k]
      decreases |r| - (if pos.Some? then pos.value else |r|)
    {
      var at := pos.value;
      r := r[at := d];
      pos := Find(r, c, at + 1);
    }
  }

  /** The loop over `m_fmtReplaceChars`: every pair in list order. */
  method ApplyPairs(scope: string, pairs: seq<(char, char)>) returns (r: string)
    ensures r == Renamed(scope, pairs)
  {
    r := scope;
    for i := 0 to |pairs|
      invariant r == Renamed(scope, pairs[..i])
    {
      assert pairs[..i + 1][..i] == pairs[..i];
      r := ApplyPair(r, pairs[i]);
    }
    assert pairs[..|pairs|] == pairs;
  }

  /** Pairs apply in list order: the first pair sees the scope itself. */
  lemma {:induction false} RenamedFirst(s: string, p: (char, char), pairs: seq<(char, char)>)
    ensures Renamed(s, [p] + pairs) == Renamed(PairApplied(s, p), pairs)
    decreases |pairs|
  {
    if pairs == [] {
      assert [p] + pairs == [p];
      assert ([p] + pairs)[..0] == [];
    } else {
      var init := pairs[..|pairs| - 1];
      assert ([p] + pairs)[..|pairs|] == [p] + init;
      RenamedFirst(s, p, init);
    }
  }

  /**
   * An erasing pair leaves no occurrence and drops exactly the occurrences;
   * a replacing pair keeps the length and changes only the occurrences.
   */
  lemma PairEffect(s: string, p: (char, char))
    ensures var r := PairApplied(s, p);
      && (p.1 == '\0' ==> p.0 !in r && |r| == |s| - Count(s, p.0))
      && (p.1 != '\0' ==> |r| == |s| && forall k | 0 <= k < |s| :: r[k] == if s[k] == p.0 then p.1 else s[k])
      && (p.1 != '\0' && p.1 != p.0 ==> p.0 !in r)
  {
    if p.1 == '\0' {
      RemovedLength(s, p.0);
    } else if p.1 != p.0 {
      ReplacedLeavesNone(s, p.0, p.1);
    }
  }

  // ---------------------------------------------------------------------
  // What the walk writes.
  // ---------------------------------------------------------------------

  /** The scope an object is printed under: its name without a leading `DT_`. */
  function ObjectScope(name: string): string
  {
    DropTablePrefix(name)
  }

  /**
   * What `PrintRecursive` writes for a member at `depth`: an object's
   * indented begin line, its members one level deeper, and its end line; an
   * `int`'s indented line under its renamed scope; nothing for anything else.
   */
  function Emitted(m: Member, depth: int, pairs: seq<(char, char)>): seq<Emit>
    decreases m, 1
  {
    match m.value
    case Object(ms) =>
      Pads(depth) + [Begin(ObjectScope(m.name))] + Children(m.value, |ms|, depth + 1, pairs)
      + Pads(depth) + [End(ObjectScope(m.name))]
    case Int(n) => Pads(depth) + [Entry(Renamed(m.name, pairs), Wrap32(n))]
    case Other => []
  }

  /** What the first `n` members of an object write, in member order. */
  function Children(j: Json, n: nat, depth: int, pairs: seq<(char, char)>): seq<Emit>
    requires j.Object? && n <= |j.members|
    decreases j, 0, n
  {
    if n == 0 then [] else Children(j, n - 1, depth, pairs) + Emitted(j.members[n - 1], depth, pairs)
  }

  lemma EmittedObject(m: Member, depth: int, pairs: seq<(char, char)>, w: seq<Emit>)
    requires m.value.Object?
    ensures var scope := ObjectScope(m.name);
      w + Pads(depth) + [Begin(scope)] + Children(m.value, |m.value.members|, depth + 1, pairs)
      + Pads(depth) + [End(scope)] == w + Emitted(m, depth, pairs)
  {
  }

  lemma EmittedInt(m: Member, depth: int, pairs: seq<(char, char)>, w: seq<Emit>)
    requires m.value.Int?
    ensures w + Pads(depth) + [Entry(Renamed(m.name, pairs), Wrap32(m.value.n))] == w + Emitted(m, depth, pairs)
  {
  }

  lemma PadsSnoc(d: nat)
    ensures Pads(d + 1) == Pads(d) + [Pad]
  {
  }

  // ---------------------------------------------------------------------
  // Begin and end lines pair up.
  // ---------------------------------------------------------------------

  /**
   * Replays begin and end lines against a stack of open scopes: None when an
   * end line does not close the innermost open scope.
   */
  function Nest(evs: seq<Emit>, open: seq<string>): Option<seq<string>>
  {
    if evs == [] then Some(open)
    else match evs[0]
      case Begin(s) => Nest(evs[1..], open + [s])
      case End(s) =>
        if open != [] && open[|open| - 1] == s then Nest(evs[1..], open[..|open| - 1]) else None
      case _ => Nest(evs[1..], open)
  }

  lemma {:induction false} NestAppend(a: seq<Emit>, b: seq<Emit>, open: seq<string>)
    ensures Nest(a + b, open) == if Nest(a, open).Some? then Nest(b, Nest(a, open).value) else None
    decreases |a|
  {
    if a == [] {
      assert a + b == b;
    } else {
      assert (a + b)[0] == a[0] && (a + b)[1..] == a[1..] + b;
      match a[0]
      case Begin(s) => NestAppend(a[1..], b, open + [s]);
      case End(s) =>
        if open != [] && open[|open| - 1] == s {
          NestAppend(a[1..], b, open[..|open| - 1]);
        }
      case _ => NestAppend(a[1..], b, open);
    }
  }

  lemma {:induction false} PadsNest(d: int, open: seq<string>)
    ensures Nest(Pads(d), open) == Some(open)
    decreases if d > 0 then d else 0
  {
    if d > 0 {
      assert Pads(d)[0] == Pad && Pads(d)[1..] == Pads(d - 1);
      PadsNest(d - 1, open);
    }
  }

  /**
   * Every member's output closes what it opens: each begin line is matched
   * by the end line of the same scope, with its members' output in between.
   */
  lemma {:induction false} EmittedNests(m: Member, depth: int, pairs: seq<(char, char)>, open: seq<string>)
    ensures Nest(Emitted(m, depth, pairs), open) == Some(open)
    decreases m, 1
  {
    match m.value
    case Object(ms) =>
      var scope := ObjectScope(m.name);
      var inner := Children(m.value, |ms|, depth + 1, pairs);
      var lead := Pads(depth) + [Begin(scope)];
      PadsNest(depth, open);
      NestAppend(Pads(depth), [Begin(scope)], open);
      assert Nest([Begin(scope)], open) == Some(open + [scope]) by {
        assert [Begin(scope)][1..] == [];
      }
      ChildrenNest(m.value, |ms|, depth + 1, pairs, open + [scope]);
      NestAppend(lead, inner, open);
      PadsNest(depth, open + [scope]);
      NestAppend(lead + inner, Pads(depth), open);
      NestAppend(lead + inner + Pads(depth), [End(scope)], open);
      assert Nest([End(scope)], open + [scope]) == Some(open) by {
        assert [End(scope)][1..] == [];
        assert (open + [scope])[..|open|] == open;
      }
    case Int(n) =>
      var e := Entry(Renamed(m.name, pairs), Wrap32(n));
      PadsNest(depth, open);
      NestAppend(Pads(depth), [e], open);
      assert [e][1..] == [];
    case Other =>
  }

  lemma {:induction false} ChildrenNest(j: Json, n: nat, depth: int, pairs: seq<(char, char)>, open: seq<string>)
    requires j.Object? && n <= |j.members|
    ensures Nest(Children(j, n, depth, pairs), open) == Some(open)
    decreases j, 0, n
  {
    if n > 0 {
      ChildrenNest(j, n - 1, depth, pairs, open);
      EmittedNests(j.members[n - 1], depth, pairs, open);
      NestAppend(Children(j, n - 1, depth, pairs), Emitted(j.members[n - 1], depth, pairs), open);
    }
  }

  // ---------------------------------------------------------------------
  // The formatter.
  // ---------------------------------------------------------------------

  class Formatter {
    /** `m_fmtReplaceChars`, in the order of the format's `replace_chars` list. */
    const pairs: seq<(char, char)>
    /** `m_depth`: the indentation level of the next line. */
    var depth: int
    /** What has been written to standard output. */
    var written: seq<Emit>

    /** A formatter whose format supplied `pairs` and `default_depth`. */
    constructor(pairs: seq<(char, char)>, defaultDepth: int)
      ensures this.pairs == pairs && depth == defaultDepth && written == []
    {
      this.pairs := pairs;
      depth := defaultDepth;
      written := [];
    }

    /** `Indent()`: one indent string per level of a positive depth. */
    method Indent()
      modifies this
      ensures depth == old(depth)
      ensures written == old(written) + Pads(depth)
      ensures |written| == |old(written)| + (if depth > 0 then depth else 0)
    {
      var level := 0;
      while level < depth
        invariant depth == old(depth)
        invariant 0 <= level && (level <= depth || level == 0)
        invariant written == old(written) + Pads(level)
      {
        PadsSnoc(level);
        written := written + [Pad];
        level := level + 1;
      }
    }

    /**
     * `PrintRecursive(object)`: writes a member as `Emitted` says; the depth
     * goes up by one around an object's members and is back where it was
     * afterwards.
     */
    method PrintRecursive(m: Member)
      modifies this
      ensures depth == old(depth)
      ensures written == old(written) + Emitted(m, old(depth), pairs)
      decreases m, 1
    {
      var scope := m.name;
      match m.value
      case Object(ms) =>
        if |scope| >= 3 && scope[..3] == "DT_" {
          scope := scope[3..];
        }
        assert scope == ObjectScope(m.name);
        EmittedObject(m, depth, pairs, written);
        Indent();
        written := written + [Begin(scope)];
        depth := depth + 1;
        PrintMembers(m.value);
        depth := depth - 1;
        Indent();
        written := written + [End(scope)];
      case Int(n) =>
        scope := ApplyPairs(scope, pairs);
        EmittedInt(m, depth, pairs, written);
        Indent();
        written := written + [Entry(scope, Wrap32(n))];
      case Other =>
    }

    /** The member loop of `PrintRecursive` and `Print`: every member of an object, in order, at the current depth. */
    method PrintMembers(j: Json)
      requires j.Object?
      modifies this
      ensures depth == old(depth)
      ensures written == old(written) + Children(j, |j.members|, depth, pairs)
      decreases j, 0
    {
      for i := 0 to |j.members|
        invariant depth == old(depth)
        invariant written == old(written) + Children(j, i, depth, pairs)
      {
        PrintRecursive(j.members[i]);
      }
    }

    /**
     * The walk of `Print` for a text format: the indentation written before
     * the timestamp, then every member of the document in order.
     */
    method Print(doc: Json)
      requires doc.Object?
      modifies this
      ensures depth == old(depth)
      ensures written == old(written) + Pads(depth) + Children(doc, |doc.members|, depth, pairs)
    {
      Indent();
      PrintMembers(doc);
    }
  }

  /** The walk's output over a whole document closes every scope it opens. */
  lemma DocumentNests(doc: Json, depth: int, pairs: seq<(char, char)>)
    requires doc.Object?
    ensures Nest(Pads(depth) + Children(doc, |doc.members|, depth, pairs), []) == Some([])
  {
    PadsNest(depth, []);
    ChildrenNest(doc, |doc.members|, depth, pairs, []);
    NestAppend(Pads(depth), Children(doc, |doc.members|, depth, pairs), []);
  }
}
