/**
 * The strict pattern compiler of the TProcess library (`HexToBinary`): a
 * pattern is a sequence of two-character groups, each either `..` (a
 * wildcard) or two hexadecimal digits (one concrete byte).  Any other group,
 * including a trailing single character, empties the whole result.
 */
module TProcessUtility {
  import opened Common

  /** A group the compiler accepts: `..` or two hexadecimal digits. */
  predicate GoodPair(c0: char, c1: char)
  {
    (c0 == '.' && c1 == '.') || (IsHexDigit(c0) && IsHexDigit(c1))
  }

  /**
   * The entries of a pattern read group by group, or None when some group is
   * malformed.  The character after the last one of the C string is its
   * terminator, so a trailing single character forms the group (c, NUL).
   */
  function Pairs(s: string): (r: Option<seq<PatternByte>>)
    ensures r.Some? ==> 2 * |r.value| == |s|
    decreases |s|
  {
    if s == [] then Some([])
    else
      var c1 := if |s| > 1 then s[1] else '\0';
      if GoodPair(s[0], c1) then Then([HexGroup(s[0], c1)], Pairs(s[2..])) else None
  }

  /**
   * `HexToBinary(hex)`: walks the string two characters at a time, appending
   * one entry per group, and clears the result at the first malformed group.
   */
  method HexToBinary(hex: string) returns (result: seq<PatternByte>)
    requires NoNul(hex)
    ensures Pairs(hex).Some? ==> result == Pairs(hex).value
    ensures Pairs(hex).None? ==> result == []
  {
    result := [];
    var p := 0;
    assert hex[p..] == hex;
    assert Pairs(hex).Some? ==> [] + Pairs(hex).value == Pairs(hex).value;
    while p < |hex|
      invariant p <= |hex|
      invariant Pairs(hex) == Then(result, Pairs(hex[p..]))
      decreases |hex| - p
    {
      var c0 := hex[p];
      var c1 := if p + 1 < |hex| then hex[p + 1] else '\0';
      if GoodPair(c0, c1) {
        ThenAppend(result, HexGroup(c0, c1), Pairs(hex[p..][2..]));
      }
      if c0 == '.' && c1 == '.' {
        result := result + [PatternByte(true, 0)];
      } else if IsHexDigit(c0) && IsHexDigit(c1) {
        var byte := 16 * HexValue(c0) + HexValue(c1);
        result := result + [PatternByte(false, byte)];
      } else {
        result := [];
        break;
      }
      assert hex[p..][2..] == hex[p + 2..];
      p := p + 2;
    }
  }

  /** Every group of the string is well formed, and there is no lone last character. */
  predicate AllGood(s: string)
  {
    |s| % 2 == 0 && forall i :: 0 <= i < |s| / 2 ==> GoodPair(s[2 * i], s[2 * i + 1])
  }

  lemma AllGoodCons(s: string)
    requires |s| >= 2
    ensures AllGood(s) <==> GoodPair(s[0], s[1]) && AllGood(s[2..])
  {
    var t := s[2..];
    assert forall i :: 0 <= i < |t| / 2 ==> t[2 * i] == s[2 * (i + 1)] && t[2 * i + 1] == s[2 * (i + 1) + 1];
    if GoodPair(s[0], s[1]) && AllGood(t) {
      forall i | 0 <= i < |s| / 2 ensures GoodPair(s[2 * i], s[2 * i + 1]) {
        if i > 0 {
          assert GoodPair(t[2 * (i - 1)], t[2 * (i - 1) + 1]);
        }
      }
    }
    if AllGood(s) {
      assert GoodPair(s[2 * 0], s[2 * 0 + 1]);
      forall i | 0 <= i < |t| / 2 ensures GoodPair(t[2 * i], t[2 * i + 1]) {
        assert GoodPair(s[2 * (i + 1)], s[2 * (i + 1) + 1]);
      }
    }
  }

  /**
   * A pattern compiles exactly when it has even length and every group is
   * well formed; a malformed group anywhere (a lone `.`, a non-hex character,
   * an odd length) makes the whole result empty.
   */
  lemma {:induction false} PairsSomeIff(s: string)
    ensures Pairs(s).Some? <==> AllGood(s)
    decreases |s|
  {
    if |s| >= 2 {
      PairsSomeIff(s[2..]);
      AllGoodCons(s);
    } else if |s| == 1 {
      assert !AllGood(s);
    }
  }

  /**
   * Entry i of a compiled pattern is what group i compiles to: a wildcard for
   * `..`, and 16·hi + lo for two hexadecimal digits, in input order.
   */
  lemma {:induction false} PairsEntries(s: string)
    requires Pairs(s).Some?
    ensures forall i :: 0 <= i < |s| / 2 ==>
      GoodPair(s[2 * i], s[2 * i + 1]) && Pairs(s).value[i] == HexGroup(s[2 * i], s[2 * i + 1])
    decreases |s|
  {
    if s != [] {
      var t := s[2..];
      PairsEntries(t);
      var v := Pairs(s).value;
      assert v == [HexGroup(s[0], s[1])] + Pairs(t).value;
      forall i | 0 <= i < |s| / 2
        ensures GoodPair(s[2 * i], s[2 * i + 1]) && v[i] == HexGroup(s[2 * i], s[2 * i + 1])
      {
        if i > 0 {
          assert t[2 * (i - 1)] == s[2 * i] && t[2 * (i - 1) + 1] == s[2 * i + 1];
        }
      }
    }
  }

  /** The text of one entry: `..` or its two lower-case hexadecimal digits. */
  function EntryText(e: PatternByte): (t: string)
    ensures |t| == 2
  {
    if e.wildcard then ".." else [LowerHexDigit(e.value / 16), LowerHexDigit(e.value % 16)]
  }

  /** The text of a compiled pattern, entry by entry. */
  function Text(es: seq<PatternByte>): (t: string)
    ensures |t| == 2 * |es|
  {
    if es == [] then [] else EntryText(es[0]) + Text(es[1..])
  }

  /** The input with its hexadecimal letters in lower case. */
  function LowerHexText(s: string): (t: string)
    ensures |t| == |s|
  {
    if s == [] then [] else [LowerHex(s[0])] + LowerHexText(s[1..])
  }

  lemma DigitRoundTrip(c: char)
    requires IsHexDigit(c)
    ensures LowerHexDigit(HexValue(c)) == LowerHex(c)
  {
  }

  lemma EntryTextLower(c0: char, c1: char)
    requires GoodPair(c0, c1)
    ensures EntryText(HexGroup(c0, c1)) == [LowerHex(c0), LowerHex(c1)]
  {
    var e := HexGroup(c0, c1);
    if !e.wildcard {
      DigitRoundTrip(c0);
      DigitRoundTrip(c1);
      assert e.value / 16 == HexValue(c0) && e.value % 16 == HexValue(c1);
    }
  }

  /**
   * Round trip: writing each compiled entry back as `..` or as two lower-case
   * digits gives the input with its hexadecimal letters lower-cased.
   */
  lemma {:induction false} PairsRoundTrip(s: string)
    requires Pairs(s).Some?
    ensures Text(Pairs(s).value) == LowerHexText(s)
    decreases |s|
  {
    if s != [] {
      var t := s[2..];
      PairsRoundTrip(t);
      var e := HexGroup(s[0], s[1]);
      var w := Pairs(t).value;
      assert Pairs(s).value == [e] + w;
      assert ([e] + w)[0] == e && ([e] + w)[1..] == w;
      assert Text([e] + w) == EntryText(e) + Text(w);
      EntryTextLower(s[0], s[1]);
      assert s[1..][1..] == t;
      assert LowerHexText(s[1..]) == [LowerHex(s[1])] + LowerHexText(t);
      assert LowerHexText(s) == [LowerHex(s[0])] + LowerHexText(s[1..]);
    }
  }

  /**
   * The empty pattern compiles to no entries, which is also what a malformed
   * pattern yields: the caller cannot tell the two apart.
   */
  lemma EmptyLooksLikeFailure()
    ensures Pairs("") == Some([])
    ensures Pairs(".") == None && Pairs("zz") == None
  {
  }
}
