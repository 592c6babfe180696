/**
 * The text printer of the C++ dumper: every value it writes is one piece of
 * standard output, and the name transforms work in place on the fixed
 * 256-character buffers the source copies names into.
 */
module Printer {
  import opened Common

  /**
   * One entry of a format's `netvars.replace_chars` list: an entry of one
   * string removes its first character, a longer entry replaces it by the
   * first character of the second string.
   */
  datatype Replacement = Remove(c: char) | Replace(c: char, d: char)

  /** The settings of the chosen format that the printer looks up; a missing one is None. */
  datatype Style = Style(
    tabCharacter: Option<string>,
    variableOffset: string,
    replaceChars: Option<seq<Replacement>>,
    tableStart: Option<string>,
    stripTablePrefix: bool,
    tableEnd: Option<string>)

  /** One `fmt::print` to standard output: a format and the values it is given. */
  datatype Piece =
    | Tab(delimiter: string)
    | OffsetLine(format: string, name: string, offset: u64)
    | TableStartLine(format: string, name: string)
    | TableEndLine(format: string, name: string)

  /** The size of the stack buffers `PrintOffset` and `PrintNetvarTableStart` copy names into. */
  const NameBufferSize: int := 256

  // ---------------------------------------------------------------------
  // C strings held in character buffers.
  // ---------------------------------------------------------------------

  /** A string without a terminator is its own C string. */
  lemma {:induction false} CPrefixOfCString(s: string)
    requires NoNul(s)
    ensures CPrefix(s) == s
  {
    if s != [] {
      CPrefixOfCString(s[1..]);
    }
  }

  /** Whatever follows a terminator is not part of the C string. */
  lemma {:induction false} CPrefixAppend(x: string, y: string)
    requires y != [] && y[0] == '\0'
    ensures CPrefix(x + y) == CPrefix(x)
  {
    if x == [] {
      assert x + y == y;
    } else {
      assert (x + y)[1..] == x[1..] + y;
      CPrefixAppend(x[1..], y);
    }
  }

  /** A buffer holding `r` and then a terminator holds the C string `r`. */
  lemma CStringAt(b: seq<char>, r: string)
    requires |r| < |b| && b[..|r|] == r && b[|r|] == '\0' && NoNul(r)
    ensures CPrefix(b) == r
  {
    assert b == r + b[|r|..];
    CPrefixAppend(r, b[|r|..]);
    CPrefixOfCString(r);
  }

  /** The C string of a buffer holding a terminator ends before the end of the buffer. */
  lemma CPrefixShort(b: seq<char>)
    requires '\0' in b
    ensures |CPrefix(b)| < |b|
  {
    var k :| 0 <= k < |b| && b[k] == '\0';
    assert !NoNul(b);
  }

  /** A buffer of `NameBufferSize` characters after `strcpy(buffer, name)`; the model zeroes the rest. */
  method CopyName(name: string) returns (buf: array<char>)
    requires |name| < NameBufferSize && NoNul(name)
    ensures fresh(buf) && buf.Length == NameBufferSize
    ensures buf[..|name|] == name && buf[|name|] == '\0' && CPrefix(buf[..]) == name
  {
    buf := new char[NameBufferSize](k => if 0 <= k < |name| then name[k] else '\0');
    CStringAt(buf[..], name);
  }

  // ---------------------------------------------------------------------
  // RemoveChars and ReplaceChars.
  // ---------------------------------------------------------------------

  /** The buffer holds a C string of length `n`: `n` characters and then a terminator. */
  predicate HoldsCString(b: seq<char>, n: nat)
  {
    n < |b| && b[n] == '\0' && forall j | 0 <= j < n :: b[j] != '\0'
  }

  /** Every buffer with a terminator holds the C string `CPrefix` gives. */
  lemma CStringLength(b: seq<char>)
    requires '\0' in b
    ensures HoldsCString(b, |CPrefix(b)|) && b[..|CPrefix(b)|] == CPrefix(b)
  {
    CPrefixShort(b);
    forall j | 0 <= j < |CPrefix(b)| ensures b[j] != '\0' {
      assert b[j] == CPrefix(b)[j];
    }
  }

  /** Removal over one more character of `s`. */
  lemma RemovedPrefixStep(s: string, r: nat, c: char)
    requires r < |s|
    ensures Removed(s[..r + 1], c) == Removed(s[..r], c) + (if s[r] == c then [] else [s[r]])
  {
    assert s[..r + 1] == s[..r] + [s[r]];
    RemovedAppend(s[..r], [s[r]], c);
    assert [s[r]][1..] == [];
  }

  lemma PrefixWhole(s: string)
    ensures s[..|s|] == s
  {
  }

  /** Removing characters from a C string leaves a C string. */
  lemma {:induction false} RemovedNoNul(s: string, c: char)
    requires NoNul(s)
    ensures NoNul(Removed(s, c))
  {
    if s != [] {
      RemovedNoNul(s[1..], c);
      var r := Removed(s, c);
      assert r == (if s[0] == c then [] else [s[0]]) + Removed(s[1..], c);
    }
  }

  /**
   * `RemoveChars(str, before)` on a buffer holding a C string of length `n`:
   * the write pointer copies every character the read pointer passes and
   * only advances past those other than `before`; a terminator is written
   * where it stops. The buffer then holds the C string without `before`,
   * its terminator, and the old contents after that.
   */
  method RemoveChars(buf: array<char>, before: char, ghost n: nat)
    requires HoldsCString(buf[..], n)
    modifies buf
    ensures var r := Removed(old(buf[..n]), before);
      && |r| <= n
      && buf[..|r|] == r && buf[|r|] == '\0'
      && forall j | |r| < j < buf.Length :: buf[j] == old(buf[j])
  {
    ghost var s := buf[..n];
    ghost var kept: string := [];
    var w := 0;
    var r := 0;
    while buf[r] != '\0'
      invariant 0 <= w <= r <= n
      invariant kept == Removed(s[..r], before) && |kept| == w
      invariant forall j | 0 <= j < w :: buf[j] == kept[j]
      invariant forall j | r <= j < buf.Length :: buf[j] == old(buf[j])
      invariant forall j | w < j < buf.Length :: buf[j] == old(buf[j])
      decreases n - r
    {
      var x := buf[r];
      assert r < n && x == s[r];
      buf[w] := x;
      RemovedPrefixStep(s, r, before);
      r := r + 1;
      if x != before {
        kept := kept + [x];
        w := w + 1;
      }
    }
    assert r == n;
    PrefixWhole(s);
    buf[w] := '\0';
    assert buf[..w] == kept;
  }

  /** After `RemoveChars` the buffer's C string is the old one without `before`. */
  lemma RemoveCharsCString(old_: seq<char>, now: seq<char>, n: nat, before: char)
    requires HoldsCString(old_, n)
    requires var r := Removed(old_[..n], before);
      |r| < |now| && now[..|r|] == r && now[|r|] == '\0'
    ensures '\0' in now
    ensures CPrefix(now) == Removed(old_[..n], before)
  {
    var r := Removed(old_[..n], before);
    assert NoNul(old_[..n]);
    RemovedNoNul(old_[..n], before);
    CStringAt(now, r);
  }

  /**
   * `ReplaceChars(str, before, after)` on a buffer holding a C string of
   * length `n`: every character of it equal to `before` becomes `after`; the
   * scan stops at the original terminator even when `after` is itself a
   * terminator.
   */
  method ReplaceChars(buf: array<char>, before: char, after: char, ghost n: nat)
    requires HoldsCString(buf[..], n)
    modifies buf
    ensures forall k | 0 <= k < n :: buf[k] == if old(buf[k]) == before then after else old(buf[k])
    ensures forall k | n <= k < buf.Length :: buf[k] == old(buf[k])
  {
    var i := 0;
    while buf[i] != '\0'
      invariant 0 <= i <= n
      invariant forall k | 0 <= k < i :: buf[k] == if old(buf[k]) == before then after else old(buf[k])
      invariant forall k | i <= k < buf.Length :: buf[k] == old(buf[k])
      decreases n - i
    {
      if buf[i] == before {
        buf[i] := after;
      }
      i := i + 1;
    }
  }

  /** After `ReplaceChars` the buffer's C string is that of the replaced one: cut at the first `after` if that is a terminator. */
  lemma ReplaceCharsCString(old_: seq<char>, now: seq<char>, n: nat, before: char, after: char)
    requires HoldsCString(old_, n) && |now| == |old_|
    requires forall k | 0 <= k < n :: now[k] == if old_[k] == before then after else old_[k]
    requires forall k | n <= k < |now| :: now[k] == old_[k]
    ensures '\0' in now
    ensures CPrefix(now) == CPrefix(Replaced(old_[..n], before, after))
    ensures after != '\0' ==> CPrefix(now) == Replaced(old_[..n], before, after)
  {
    var t := Replaced(old_[..n], before, after);
    assert now == t + old_[n..];
    assert now[n] == '\0';
    CPrefixAppend(t, old_[n..]);
    if after != '\0' {
      CPrefixOfCString(t);
    }
  }

  // ---------------------------------------------------------------------
  // The replacement list of PrintOffset.
  // ---------------------------------------------------------------------

  /** The C string one entry leaves in the buffer. */
  function Step(s: string, e: Replacement): string
  {
    match e
    case Remove(c) => Removed(s, c)
    case Replace(c, d) => CPrefix(Replaced(s, c, d))
  }

  /** The name after the entries of `es`, applied one after the other. */
  function Applied(s: string, es: seq<Replacement>): string
  {
    if es == [] then s else Step(Applied(s, es[..|es| - 1]), es[|es| - 1])
  }

  lemma AppliedStep(s: string, es: seq<Replacement>, i: nat)
    requires i < |es|
    ensures Applied(s, es[..i + 1]) == Step(Applied(s, es[..i]), es[i])
  {
    assert es[..i + 1][..i] == es[..i];
  }

  lemma AppliedAll(s: string, es: seq<Replacement>)
    ensures Applied(s, es[..|es|]) == Applied(s, es)
  {
    assert es[..|es|] == es;
  }

  /** Entries apply in list order: the first entry sees the name itself. */
  lemma {:induction false} AppliedFirst(s: string, e: Replacement, es: seq<Replacement>)
    ensures Applied(s, [e] + es) == Applied(Step(s, e), es)
    decreases |es|
  {
    if es == [] {
      assert [e] + es == [e];
      assert ([e] + es)[..0] == [];
    } else {
      var init := es[..|es| - 1];
      assert ([e] + es)[..|es|] == [e] + init;
      AppliedFirst(s, e, init);
    }
  }

  /** A character that is neither a replacement's source nor its target stays out. */
  lemma StepKeepsAbsent(s: string, e: Replacement, x: char)
    requires x !in s
    requires e.Replace? ==> e.d != x
    ensures x !in Step(s, e)
  {
    match e
    case Remove(c) =>
      RemovedSubset(s, c, x);
    case Replace(c, d) =>
      var r := Replaced(s, c, d);
      assert x !in r by {
        forall k | 0 <= k < |r| ensures r[k] != x {
        }
      }
      assert CPrefix(r) == r[..|CPrefix(r)|];
  }

  lemma {:induction false} RemovedSubset(s: string, c: char, x: char)
    requires x !in s
    ensures x !in Removed(s, c)
  {
    if s != [] {
      assert x !in s[1..];
      RemovedSubset(s[1..], c, x);
    }
  }

  /**
   * A character removed by entry `i` stays out of the printed name, unless a
   * later entry replaces something by it.
   */
  lemma {:induction false} RemovedStaysOut(s: string, es: seq<Replacement>, i: nat)
    requires i < |es| && es[i].Remove?
    requires forall j | i < j < |es| :: es[j].Replace? ==> es[j].d != es[i].c
    ensures es[i].c !in Applied(s, es)
    decreases |es|
  {
    var last := es[|es| - 1];
    var init := es[..|es| - 1];
    if i == |es| - 1 {
    } else {
      RemovedStaysOut(s, init, i);
      StepKeepsAbsent(Applied(s, init), last, es[i].c);
    }
  }

  /**
   * A replacement by the terminator ends the printed name just before the
   * first replaced character.
   */
  lemma ReplaceByNulTruncates(s: string, c: char)
    requires NoNul(s) && c in s
    ensures var r := Step(s, Replace(c, '\0'));
      |r| < |s| && r == s[..|r|] && s[|r|] == c && c !in r
  {
    var t := Replaced(s, c, '\0');
    var r := CPrefix(t);
    CPrefixShort(t) by {
      var k :| 0 <= k < |s| && s[k] == c;
      assert t[k] == '\0';
    }
    forall k | 0 <= k < |r| ensures r[k] == s[k] && s[k] != c {
      assert t[k] == r[k] && r[k] != '\0';
    }
    assert t[|r|] == '\0';
  }

  // ---------------------------------------------------------------------
  // The printing operations.
  // ---------------------------------------------------------------------

  /** `max(depth, 0)` copies of the tab character, none when the format has none. */
  function Tabs(style: Style, depth: int): seq<Piece>
  {
    if style.tabCharacter.None? || depth <= 0 then [] else seq(depth, _ => Tab(style.tabCharacter.value))
  }

  /** `PrintDepth`: the countdown loop writes the delimiter once per level of a positive depth. */
  method PrintDepth(style: Style, depth: int) returns (out: seq<Piece>)
    ensures style.tabCharacter.None? ==> out == []
    ensures style.tabCharacter.Some? ==>
      |out| == (if depth > 0 then depth else 0) && forall k | 0 <= k < |out| :: out[k] == Tab(style.tabCharacter.value)
    ensures out == Tabs(style, depth)
  {
    out := [];
    if style.tabCharacter.None? {
      return;
    }
    var delimiter := style.tabCharacter.value;
    var d := depth;
    while d > 0
      invariant d <= depth
      invariant |out| == (if depth > 0 then depth else 0) - (if d > 0 then d else 0)
      invariant forall k | 0 <= k < |out| :: out[k] == Tab(delimiter)
    {
      d := d - 1;
      out := out + [Tab(delimiter)];
    }
  }

  /** The name `PrintOffset` prints: the replacement list applied, or the name itself without a list. */
  function ShownName(style: Style, name: string): string
  {
    if style.replaceChars.None? then name else Applied(name, style.replaceChars.value)
  }

  /** One pass of the replacement loop of `PrintOffset`: `RemoveChars` or `ReplaceChars` on the buffer. */
  method ApplyEntry(buf: array<char>, e: Replacement)
    requires '\0' in buf[..]
    modifies buf
    ensures '\0' in buf[..]
    ensures CPrefix(buf[..]) == Step(CPrefix(old(buf[..])), e)
  {
    ghost var before := buf[..];
    CStringLength(before);
    ghost var n := |CPrefix(before)|;
    match e
    case Remove(c) =>
      RemoveChars(buf, c, n);
      RemoveCharsCString(before, buf[..], n, c);
    case Replace(c, d) =>
      ReplaceChars(buf, c, d, n);
      ReplaceCharsCString(before, buf[..], n, c, d);
  }

  /**
   * `PrintOffset(name, offset, depth)`: the indentation, then one line with
   * the name after every replacement entry in list order.
   */
  method PrintOffset(style: Style, name: string, offset: u64, depth: int) returns (out: seq<Piece>)
    requires |name| < NameBufferSize && NoNul(name)
    ensures out == Tabs(style, depth) + [OffsetLine(style.variableOffset, ShownName(style, name), offset)]
  {
    out := PrintDepth(style, depth);
    if style.replaceChars.None? {
      out := out + [OffsetLine(style.variableOffset, name, offset)];
      return;
    }
    var entries := style.replaceChars.value;
    var varName := CopyName(name);
    for i := 0 to |entries|
      invariant '\0' in varName[..]
      invariant CPrefix(varName[..]) == Applied(name, entries[..i])
    {
      AppliedStep(name, entries, i);
      ApplyEntry(varName, entries[i]);
    }
    AppliedAll(name, entries);
    out := out + [OffsetLine(style.variableOffset, CPrefix(varName[..]), offset)];
  }

  /** `memmove(tableName, tableName + 3, sizeof(tableName) - 3)`. */
  method ShiftOutPrefix(buf: array<char>)
    requires buf.Length >= 3
    modifies buf
    ensures buf[..buf.Length - 3] == old(buf[3..])
    ensures buf[buf.Length - 3..] == old(buf[buf.Length - 3..])
  {
    for k := 0 to buf.Length - 3
      invariant forall j | 0 <= j < k :: buf[j] == old(buf[j + 3])
      invariant forall j | k <= j < buf.Length :: buf[j] == old(buf[j])
    {
      buf[k] := buf[k + 3];
    }
  }

  /** The table name `PrintNetvarTableStart` prints. */
  function TableName(style: Style, name: string): string
  {
    if style.stripTablePrefix then DropTablePrefix(name) else name
  }

  /** `strncmp(tableName, "DT_", 3)` on a buffer holding `name` compares the name's first three characters. */
  lemma TablePrefixTest(b: seq<char>, name: string)
    requires |b| >= 3 && |name| < |b| && b[..|name|] == name && b[|name|] == '\0' && NoNul(name)
    ensures (b[0] == 'D' && b[1] == 'T' && b[2] == '_') == HasTablePrefix(name)
  {
    if |name| >= 3 {
      assert name[..3] == [b[0], b[1], b[2]];
    } else {
      assert b[|name|] == '\0';
    }
  }

  /** After the shift, the buffer holds the name without its first three characters. */
  lemma ShiftedName(b0: seq<char>, b: seq<char>, name: string)
    requires |name| >= 3 && |name| < |b0| && b0[..|name|] == name && b0[|name|] == '\0' && NoNul(name)
    requires |b| == |b0| && b[..|b| - 3] == b0[3..]
    ensures CPrefix(b) == name[3..]
  {
    var n := |name| - 3;
    forall k | 0 <= k < n ensures b[k] == name[3..][k] {
      assert b[k] == b0[3..][k] == b0[k + 3];
    }
    assert b[n] == b0[3..][n];
    CStringAt(b, name[3..]);
  }

  /** The prefix test and `memmove` of `PrintNetvarTableStart` on the buffer holding the name. */
  method StripTablePrefix(buf: array<char>, ghost name: string)
    requires buf.Length == NameBufferSize && |name| < NameBufferSize && NoNul(name)
    requires buf[..|name|] == name && buf[|name|] == '\0'
    modifies buf
    ensures CPrefix(buf[..]) == DropTablePrefix(name)
  {
    ghost var b0 := buf[..];
    TablePrefixTest(b0, name);
    if buf[0] == 'D' && buf[1] == 'T' && buf[2] == '_' {
      ShiftOutPrefix(buf);
      ShiftedName(b0, buf[..], name);
    } else {
      CStringAt(b0, name);
    }
  }

  /**
   * `PrintNetvarTableStart(name, depth)`: nothing without a `table_start`
   * format; otherwise the indentation and the name, from which
   * `strip_table_prefix` drops a leading `DT_`.
   */
  method PrintNetvarTableStart(style: Style, name: string, depth: int) returns (out: seq<Piece>)
    requires |name| < NameBufferSize && NoNul(name)
    ensures style.tableStart.None? ==> out == []
    ensures style.tableStart.Some? ==>
      out == Tabs(style, depth) + [TableStartLine(style.tableStart.value, TableName(style, name))]
  {
    out := [];
    if style.tableStart.None? {
      return;
    }
    out := PrintDepth(style, depth);
    var format := style.tableStart.value;
    if !style.stripTablePrefix {
      out := out + [TableStartLine(format, name)];
      return;
    }
    var tableName := CopyName(name);
    StripTablePrefix(tableName, name);
    out := out + [TableStartLine(format, CPrefix(tableName[..]))];
  }

  /**
   * `PrintNetvarTableEnd(name, depth)`: the indentation is written before the
   * `table_end` format is looked up, so it is written even without one.
   */
  method PrintNetvarTableEnd(style: Style, name: string, depth: int) returns (out: seq<Piece>)
    ensures out == Tabs(style, depth) + (if style.tableEnd.Some? then [TableEndLine(style.tableEnd.value, name)] else [])
  {
    out := PrintDepth(style, depth);
    if style.tableEnd.Some? {
      out := out + [TableEndLine(style.tableEnd.value, name)];
    }
  }
}
