/**
 * The counting table of the tile-sequence ranker: the number of ways to
 * cover a strip of n units with tiles of one and two units, precomputed for
 * every n up to a fixed bound.
 */
module TileCounts {
  /** Largest strip length the table covers. */
  function MaxNPairs(): int { 1000 }

  /** The number of coverings of a strip of n units: 1, 1, 2, 3, 5, ... */
  function Fib(n: nat): (r: nat)
    ensures r >= 1
  {
    if n <= 1 then 1 else Fib(n - 1) + Fib(n - 2)
  }

  /** Fib never decreases. */
  lemma FibStep(n: nat)
    ensures Fib(n) <= Fib(n + 1)
  {
  }

  /**
   * The module-level `num_wffs` table: every entry starts at 1 and, from
   * index 2 on, is set n times over to the sum of the two entries before it.
   */
  method BuildNumWffs() returns (numWffs: seq<int>)
    ensures IsNumWffs(numWffs)
  {
    numWffs := FillNumWffs(MaxNPairs() + 1);
    forall k | 0 <= k < |numWffs|
      ensures numWffs[k] == Fib(k)
    {
      FibTableIsFib(numWffs, k);
    }
  }

  /** The loop that fills `num_wffs`, for a table of any length. */
  method FillNumWffs(size: int) returns (numWffs: seq<int>)
    requires size >= 2
    ensures |numWffs| == size && FibTable(numWffs)
  {
    numWffs := seq(size, _ => 1);
    for n := 2 to size
      invariant |numWffs| == size
      invariant numWffs[0] == 1 && numWffs[1] == 1
      invariant forall k :: 2 <= k < n ==> numWffs[k] == numWffs[k - 1] + numWffs[k - 2]
    {
      ghost var before := numWffs;
      for nPairsIncluded := 0 to n
        invariant |numWffs| == size
        invariant forall k :: 0 <= k < n ==> numWffs[k] == before[k]
        invariant nPairsIncluded > 0 ==> numWffs[n] == numWffs[n - 1] + numWffs[n - 2]
      {
        numWffs := numWffs[n := numWffs[n - 1] + numWffs[n - 2]];
      }
    }
  }

  /** A table that starts 1, 1 and whose every later entry is the sum of the two before it. */
  ghost predicate FibTable(s: seq<int>) {
    |s| >= 2 && s[0] == 1 && s[1] == 1
    && forall k :: 2 <= k < |s| ==> s[k] == s[k - 1] + s[k - 2]
  }

  /** Such a table lists the covering counts. */
  lemma {:induction false} FibTableIsFib(s: seq<int>, k: nat)
    requires FibTable(s) && k < |s|
    ensures s[k] == Fib(k)
  {
    if k >= 2 {
      FibTableIsFib(s, k - 1);
      FibTableIsFib(s, k - 2);
    }
  }

  /** The table `num_wffs` once filled: one entry per strip length, each the number of coverings. */
  ghost predicate IsNumWffs(numWffs: seq<int>) {
    |numWffs| == MaxNPairs() + 1 && forall n :: 0 <= n < |numWffs| ==> numWffs[n] == Fib(n)
  }

  /**
   * `num_sol`: the entry of the table `numWffs` at n. The source asserts
   * n <= 1000; a negative n is a Python index counted from the end of the
   * table.
   */
  function NumSol(numWffs: seq<int>, n: int): (r: int)
    requires |numWffs| == MaxNPairs() + 1
    requires -(MaxNPairs() + 1) <= n <= MaxNPairs()
    ensures IsNumWffs(numWffs) ==> r == Fib(if n < 0 then n + MaxNPairs() + 1 else n)
  {
    if n < 0 then numWffs[n + |numWffs|] else numWffs[n]
  }

  /** Over the filled table, `num_sol` counts coverings: its recurrence, and what a negative index reads. */
  lemma NumSolRecurrence(numWffs: seq<int>, n: int)
    requires IsNumWffs(numWffs)
    requires -(MaxNPairs() + 1) <= n <= MaxNPairs()
    ensures NumSol(numWffs, n) == Fib(if n < 0 then n + MaxNPairs() + 1 else n) >= 1
    ensures n <= 1 && n >= 0 ==> NumSol(numWffs, n) == 1
    ensures n >= 2 ==> NumSol(numWffs, n) == NumSol(numWffs, n - 1) + NumSol(numWffs, n - 2)
    ensures n < 0 ==> NumSol(numWffs, n) == NumSol(numWffs, n + MaxNPairs() + 1)
  {
  }

}

/**
 * The tile-sequence ranker: strips of n units covered by short tiles `[]`
 * (one unit) and long tiles `[--]` (two units), written as strings. The
 * number of coverings is a Fibonacci number kept in a table; `rank` gives a
 * covering its position among all coverings of the same strip, with short
 * tiles first or long tiles first, `unrank` goes back from a position to a
 * covering, and `next_wff` moves to the following covering.
 */
module Piastrelle {
  import opened Wrappers
  import opened TileCounts

  /**
   * The criterion argument: the two names `rank` knows, and any other
   * string, for which `rank` has no value.
   */
  datatype Criterion = LovesShortTiles | LovesLongTiles | OtherCriterion

  /** The criterion a name stands for. */
  function CriterionNamed(name: string): (c: Criterion)
    ensures c == LovesShortTiles <==> name == "loves_short_tiles"
    ensures c == LovesLongTiles <==> name == "loves_long_tiles"
  {
    if name == "loves_short_tiles" then LovesShortTiles
    else if name == "loves_long_tiles" then LovesLongTiles
    else OtherCriterion
  }

  datatype Tile = Short | Long

  /** How many units a covering spans. */
  function Units(ts: seq<Tile>): nat {
    if ts == [] then 0 else (if ts[0] == Short then 1 else 2) + Units(ts[1..])
  }

  /** Every tile spans one or two units. */
  lemma {:induction false} UnitsBounds(ts: seq<Tile>)
    ensures |ts| <= Units(ts) <= 2 * |ts|
  {
    if ts != [] {
      UnitsBounds(ts[1..]);
    }
  }

  /** The string form of a covering. */
  function Render(ts: seq<Tile>): string {
    if ts == [] then "" else (if ts[0] == Short then "[]" else "[--]") + Render(ts[1..])
  }

  /** Every unit takes two characters. */
  lemma {:induction false} RenderLength(ts: seq<Tile>)
    ensures |Render(ts)| == 2 * Units(ts)
  {
    if ts != [] {
      RenderLength(ts[1..]);
    }
  }

  /** Reads a string back as a covering; None when it is not one. */
  function Parse(w: string): (r: Option<seq<Tile>>)
    ensures r.Some? ==> Render(r.value) == w
    decreases |w|
  {
    if w == "" then Some([])
    else if |w| >= 2 && w[..2] == "[]" then
      match Parse(w[2..])
      case Some(ts) => Some([Short] + ts)
      case None => None
    else if |w| >= 4 && w[..4] == "[--]" then
      match Parse(w[4..])
      case Some(ts) => Some([Long] + ts)
      case None => None
    else None
  }

  /** Reading back a rendered covering gives the covering. */
  lemma {:induction false} ParseRender(ts: seq<Tile>)
    ensures Parse(Render(ts)) == Some(ts)
  {
    if ts != [] {
      var w := Render(ts);
      ParseRender(ts[1..]);
      if ts[0] == Short {
        assert w[..2] == "[]" && w[2..] == Render(ts[1..]);
      } else {
        assert w[..2] != "[]" by { assert w[1] == '-'; }
        assert w[..4] == "[--]" && w[4..] == Render(ts[1..]);
      }
      assert [ts[0]] + ts[1..] == ts;
    }
  }

  /**
   * The number of coverings of the same strip that come before `ts` when
   * short tiles come first: a long tile where a short one could stand is
   * preceded by every covering that starts with the short tile instead.
   */
  function A(ts: seq<Tile>): nat {
    if ts == [] then 0
    else if ts[0] == Short then A(ts[1..])
    else Fib(Units(ts[1..]) + 1) + A(ts[1..])
  }

  /** Fewer coverings come before `ts` than there are coverings. */
  lemma {:induction false} ABound(ts: seq<Tile>)
    ensures A(ts) < Fib(Units(ts))
  {
    if ts != [] {
      ABound(ts[1..]);
      FibStep(Units(ts[1..]));
    }
  }

  /** Units, string and rank offset of a covering that starts with a short tile. */
  lemma ConsShort(rest: seq<Tile>)
    ensures ([Short] + rest)[1..] == rest
    ensures Units([Short] + rest) == 1 + Units(rest)
    ensures Render([Short] + rest) == "[]" + Render(rest)
    ensures A([Short] + rest) == A(rest)
  {
    assert ([Short] + rest)[1..] == rest;
  }

  /** Units, string and rank offset of a covering that starts with a long tile. */
  lemma ConsLong(rest: seq<Tile>)
    ensures ([Long] + rest)[1..] == rest
    ensures Units([Long] + rest) == 2 + Units(rest)
    ensures Render([Long] + rest) == "[--]" + Render(rest)
    ensures A([Long] + rest) == Fib(Units(rest) + 1) + A(rest)
  {
    assert ([Long] + rest)[1..] == rest;
  }

  /**
   * One step of the scan in `rank`: at the start of the k-th tile, the
   * character after the opening bracket tells the tile's kind, and the rest
   * of the string after the tile is the rest of the covering.
   */
  lemma ScanStep(wff: string, ts: seq<Tile>, k: int, pos: int)
    requires 0 <= k <= |ts| && 1 <= pos <= |wff| + 1 && wff[pos - 1..] == Render(ts[k..])
    ensures k < |ts| <==> pos < |wff|
    ensures k < |ts| && ts[k] == Short ==>
      (wff[pos] == ']' && pos + 1 <= |wff| && wff[pos + 1..] == Render(ts[k + 1..])
       && Units(ts[k..]) == 1 + Units(ts[k + 1..]) && A(ts[k..]) == A(ts[k + 1..]))
    ensures k < |ts| && ts[k] == Long ==>
      (wff[pos] != ']' && pos + 3 <= |wff| && wff[pos + 3..] == Render(ts[k + 1..])
       && Units(ts[k..]) == 2 + Units(ts[k + 1..]) && A(ts[k..]) == Fib(Units(ts[k + 1..]) + 1) + A(ts[k + 1..]))
  {
    if k == |ts| {
      assert ts[k..] == [];
    } else {
      var rest := ts[k + 1..];
      assert ts[k..] == [ts[k]] + rest;
      if ts[k] == Short {
        ConsShort(rest);
        assert wff[pos + 1..] == wff[pos - 1..][2..];
      } else {
        ConsLong(rest);
        assert wff[pos + 3..] == wff[pos - 1..][4..];
      }
    }
  }

  /** What `rank` returns for a covering under a criterion. */
  function RankOf(ts: seq<Tile>, criterion: Criterion): Option<int> {
    RankFrom(Units(ts), A(ts), criterion)
  }

  /**
   * The rank of a covering of n units with `a` coverings before it short
   * tiles first: 1 below two units, a + 1 short tiles first, the mirror
   * position long tiles first, and no value for an unknown criterion.
   */
  function RankFrom(n: nat, a: int, criterion: Criterion): Option<int> {
    if n <= 1 then Some(1)
    else if criterion == LovesShortTiles then Some(a + 1)
    else if criterion == LovesLongTiles then Some(Fib(n) - a)
    else None
  }

  /**
   * `rank`: a string of 0 or 1 units ranks 1; otherwise the scan of every
   * tile's second character accumulates the coverings that come before, and
   * the criterion picks the order (no value for an unknown criterion).
   */
  method Rank(numWffs: seq<int>, wff: string, criterion: Criterion) returns (r: Option<int>)
    requires |numWffs| == MaxNPairs() + 1
    requires |wff| / 2 <= MaxNPairs() + 1
    requires criterion == LovesLongTiles ==> |wff| / 2 <= MaxNPairs()
    ensures r == ScanRank(numWffs, wff, criterion)
  {
    var count := |wff| / 2;
    if count == 0 || count == 1 {
      return Some(1);
    }
    var pos := 1;
    var a := 0;
    while pos < |wff|
      invariant pos >= 1 && pos == 2 * (|wff| / 2 - count) + 1
      invariant a + ScanA(numWffs, wff, pos, count) == ScanA(numWffs, wff, 1, |wff| / 2)
      decreases |wff| - pos
    {
      if wff[pos] == ']' {
        pos := pos + 2;
        count := count - 1;
      } else {
        a := a + NumSol(numWffs, count - 1);
        pos := pos + 4;
        count := count - 2;
      }
    }
    if criterion == LovesShortTiles {
      r := Some(a + 1);
    } else if criterion == LovesLongTiles {
      r := Some(NumSol(numWffs, |wff| / 2) - a);
    } else {
      r := None;
    }
    assert r == PositionOf(numWffs, |wff| / 2, a, criterion);
  }

  /**
   * What `rank` gives for any string: the scanned offset turned into a
   * position under the criterion.
   */
  function ScanRank(numWffs: seq<int>, wff: string, criterion: Criterion): (r: Option<int>)
    requires |numWffs| == MaxNPairs() + 1
    requires |wff| / 2 <= MaxNPairs() + 1
    requires criterion == LovesLongTiles ==> |wff| / 2 <= MaxNPairs()
    ensures r.Some? <==> |wff| / 2 <= 1 || criterion != OtherCriterion
    ensures |wff| / 2 <= 1 ==> r == Some(1)
    ensures IsNumWffs(numWffs) && criterion == LovesShortTiles ==> r.Some? && r.value >= 1
  {
    PositionOf(numWffs, |wff| / 2, ScanA(numWffs, wff, 1, |wff| / 2), criterion)
  }

  /**
   * The position `rank` reports for a strip of n units with offset `a`,
   * reading the mirror position long tiles first from the table `numWffs`.
   * It reports one exactly below two units or under a named criterion, and
   * read from the filled table it is the rank `RankFrom` defines.
   */
  function PositionOf(numWffs: seq<int>, n: int, a: int, criterion: Criterion): (r: Option<int>)
    requires |numWffs| == MaxNPairs() + 1
    requires n <= MaxNPairs() + 1
    requires criterion == LovesLongTiles ==> n <= MaxNPairs()
    ensures r.Some? <==> n <= 1 || criterion != OtherCriterion
    ensures IsNumWffs(numWffs) && n >= 0 ==> r == RankFrom(n, a, criterion)
  {
    if n <= 1 then Some(1)
    else if criterion == LovesShortTiles then Some(a + 1)
    else if criterion == LovesLongTiles then Some(NumSol(numWffs, n) - a)
    else None
  }

  /** On the string of a covering, `rank` gives the covering's position under the criterion. */
  lemma ScanRankOfCovering(numWffs: seq<int>, wff: string, criterion: Criterion)
    requires IsNumWffs(numWffs)
    requires |wff| / 2 <= MaxNPairs() + 1
    requires criterion == LovesLongTiles ==> |wff| / 2 <= MaxNPairs()
    requires Parse(wff).Some?
    ensures ScanRank(numWffs, wff, criterion) == RankOf(Parse(wff).value, criterion)
  {
    var ts := Parse(wff).value;
    var n := |wff| / 2;
    ScanWhole(numWffs, wff, ts, n);
  }

  /**
   * The sum the loop of `rank` accumulates from string position `pos` on,
   * with `count` units still unread: every character after an opening
   * bracket that is not a closing bracket is read as a long tile and adds
   * the number of coverings of the units that follow it.
   */
  function ScanA(numWffs: seq<int>, wff: string, pos: int, count: int): (a: int)
    requires |numWffs| == MaxNPairs() + 1
    requires |wff| / 2 <= MaxNPairs() + 1
    requires pos >= 1 && pos == 2 * (|wff| / 2 - count) + 1
    ensures IsNumWffs(numWffs) ==> a >= 0
    decreases |wff| - pos
  {
    if pos >= |wff| then 0
    else if wff[pos] == ']' then ScanA(numWffs, wff, pos + 2, count - 1)
    else NumSol(numWffs, count - 1) + ScanA(numWffs, wff, pos + 4, count - 2)
  }

  /** On the string of a covering, the scan adds up exactly the coverings that come before it. */
  lemma {:induction false} ScanRender(numWffs: seq<int>, wff: string, ts: seq<Tile>, k: int, pos: int)
    requires IsNumWffs(numWffs)
    requires |wff| / 2 <= MaxNPairs() + 1
    requires 0 <= k <= |ts| && 1 <= pos <= |wff| + 1 && wff[pos - 1..] == Render(ts[k..])
    requires pos == 2 * (|wff| / 2 - Units(ts[k..])) + 1
    ensures ScanA(numWffs, wff, pos, Units(ts[k..])) == A(ts[k..])
    decreases |ts| - k
  {
    ScanStep(wff, ts, k, pos);
    if k < |ts| {
      if ts[k] == Short {
        ScanRender(numWffs, wff, ts, k + 1, pos + 2);
      } else {
        ScanRender(numWffs, wff, ts, k + 1, pos + 4);
      }
    }
  }

  /** The scan of a whole covering's string adds up the coverings before it. */
  lemma ScanWhole(numWffs: seq<int>, wff: string, ts: seq<Tile>, n: int)
    requires IsNumWffs(numWffs)
    requires |wff| / 2 <= MaxNPairs() + 1
    requires Render(ts) == wff && n == |wff| / 2
    ensures Units(ts) == n && ScanA(numWffs, wff, 1, n) == A(ts)
  {
    RenderLength(ts);
    assert ts[0..] == ts;
    assert wff[0..] == wff;
    ScanRender(numWffs, wff, ts, 0, 1);
  }

  /**
   * The covering at position `pos` (from 1) among coverings of `count`
   * units, short tiles first: positions up to Fib(count - 1) start with a
   * short tile, the rest with a long one. Below two units the loop of
   * `unrank` stops and one short tile is added for an odd count.
   */
  function UnrankT(count: int, pos: int): (ts: seq<Tile>)
    ensures count >= 0 ==> Units(ts) == count
    decreases count
  {
    if count <= 1 then Leftover(count)
    else if pos <= Fib(count - 1) then
      var rest := UnrankT(count - 1, pos);
      assert ([Short] + rest)[1..] == rest;
      [Short] + rest
    else
      var rest := UnrankT(count - 2, pos - Fib(count - 1));
      assert ([Long] + rest)[1..] == rest;
      [Long] + rest
  }

  /** What `unrank` adds once fewer than two units remain: one short tile when the count is odd. */
  function Leftover(count: int): seq<Tile> {
    if count % 2 == 1 then [Short] else []
  }

  /** What `unrank` returns: the literal "0" for no tiles, else the covering as a string. */
  function UnrankString(nTiles: int, pos: int): (s: string)
    ensures nTiles == 0 ==> s == "0"
    ensures nTiles >= 1 ==> |s| == 2 * nTiles && Parse(s) == Some(UnrankT(nTiles, pos))
  {
    if nTiles == 0 then "0"
    else
      RenderLength(UnrankT(nTiles, pos));
      ParseRender(UnrankT(nTiles, pos));
      Render(UnrankT(nTiles, pos))
  }

  /** The string of two coverings laid end to end is the two strings joined. */
  lemma {:induction false} RenderAppend(front: seq<Tile>, back: seq<Tile>)
    ensures Render(front + back) == Render(front) + Render(back)
    decreases |front|
  {
    if front != [] {
      assert (front + back)[1..] == front[1..] + back;
      RenderAppend(front[1..], back);
    } else {
      assert front + back == back;
    }
  }

  /** Adding a tile at the end adds its string at the end. */
  lemma RenderSnoc(front: seq<Tile>, t: Tile)
    ensures Render(front + [t]) == Render(front) + (if t == Short then "[]" else "[--]")
  {
    RenderAppend(front, [t]);
    if t == Short {
      ConsShort([]);
      assert [Short] + [] == [t];
    } else {
      ConsLong([]);
      assert [Long] + [] == [t];
    }
  }

  /** Below two units, `unrank` adds one short tile for an odd count and nothing otherwise. */
  lemma UnrankTail(count: int, pos: int)
    requires count <= 1
    ensures Render(UnrankT(count, pos)) == if count % 2 == 1 then "[]" else ""
  {
    if count % 2 == 1 {
      ConsShort([]);
      assert [Short] + [] == [Short];
    }
  }

  /** Moving one tile from the front of the rest to the end of what is built. */
  lemma SnocAssoc(built: seq<Tile>, t: Tile, tail: seq<Tile>)
    ensures built + ([t] + tail) == (built + [t]) + tail
  {
  }

  /**
   * `unrank`: builds the covering at a position tile by tile. The criterion
   * is not read.
   */
  method Unrank(numWffs: seq<int>, nTiles: int, pos: int, criterion: Criterion) returns (solu: string)
    requires IsNumWffs(numWffs)
    requires nTiles <= MaxNPairs() + 1
    ensures solu == UnrankString(nTiles, pos)
  {
    if nTiles == 0 {
      return "0";
    }
    if nTiles == 1 {
      UnrankTail(1, pos);
      return "[]";
    }
    var count := nTiles;
    var p := pos;
    solu := "";
    ghost var built: seq<Tile> := [];
    ghost var whole := UnrankT(nTiles, pos);
    while count > 1
      invariant count <= nTiles
      invariant solu == Render(built)
      invariant built + UnrankT(count, p) == whole
      decreases count
    {
      ghost var here := UnrankT(count, p);
      if p <= NumSol(numWffs, count - 1) {
        ghost var tail := UnrankT(count - 1, p);
        assert here == [Short] + tail;
        SnocAssoc(built, Short, tail);
        RenderSnoc(built, Short);
        solu := solu + "[]";
        built := built + [Short];
        count := count - 1;
      } else {
        ghost var tail := UnrankT(count - 2, p - Fib(count - 1));
        assert here == [Long] + tail;
        SnocAssoc(built, Long, tail);
        RenderSnoc(built, Long);
        solu := solu + "[--]";
        built := built + [Long];
        p := p - NumSol(numWffs, count - 1);
        count := count - 2;
      }
    }
    UnrankTail(count, p);
    RenderAppend(built, UnrankT(count, p));
    if count % 2 == 1 {
      solu := solu + "[]";
    }
  }

  /**
   * `next_wff`: the covering one position after `wff`, from the rank under
   * the criterion. Where `rank` gives no value the source fails adding 1 to
   * it; that is None here.
   */
  method NextWff(numWffs: seq<int>, wff: string, criterion: Criterion) returns (next: Option<string>)
    requires IsNumWffs(numWffs)
    requires |wff| / 2 <= MaxNPairs()
    ensures Parse(wff).Some? && RankOf(Parse(wff).value, criterion).Some? ==>
      next == Some(UnrankString(|wff| / 2, RankOf(Parse(wff).value, criterion).value + 1))
    ensures Parse(wff).Some? && RankOf(Parse(wff).value, criterion).None? ==> next == None
    ensures next == if ScanRank(numWffs, wff, criterion).None? then None
      else Some(UnrankString(|wff| / 2, ScanRank(numWffs, wff, criterion).value + 1))
  {
    var nTiles := |wff| / 2;
    var r := Rank(numWffs, wff, criterion);
    if Parse(wff).Some? {
      ScanRankOfCovering(numWffs, wff, criterion);
    }
    if r.None? {
      return None;
    }
    var s := Unrank(numWffs, nTiles, r.value + 1, criterion);
    next := Some(s);
  }

  /** The covering unranked at position p has exactly p - 1 coverings before it. */
  lemma {:induction false} UnrankRank(count: nat, pos: int)
    requires 1 <= pos <= Fib(count)
    ensures A(UnrankT(count, pos)) == pos - 1
    decreases count
  {
    if count <= 1 {
      LeftoverOffset(count);
    } else if pos <= Fib(count - 1) {
      UnrankRank(count - 1, pos);
      ShortOffset(count, pos);
    } else {
      var p := pos - Fib(count - 1);
      UnrankRank(count - 2, p);
      LongOffset(count, pos);
    }
  }

  /** What is left below two units has no coverings before it. */
  lemma LeftoverOffset(count: int)
    ensures A(Leftover(count)) == 0
  {
    if count % 2 == 1 {
      assert Leftover(count)[1..] == [];
    }
  }

  /** A short tile in front keeps the offset of the rest. */
  lemma ShortOffset(count: int, pos: int)
    requires count > 1 && pos <= Fib(count - 1)
    ensures A(UnrankT(count, pos)) == A(UnrankT(count - 1, pos))
  {
    var rest := UnrankT(count - 1, pos);
    assert UnrankT(count, pos) == [Short] + rest;
    ConsShort(rest);
  }

  /** A long tile in front adds the coverings that start with a short tile. */
  lemma LongOffset(count: int, pos: int)
    requires count > 1 && pos > Fib(count - 1)
    requires Units(UnrankT(count - 2, pos - Fib(count - 1))) == count - 2
    ensures A(UnrankT(count, pos)) == Fib(count - 1) + A(UnrankT(count - 2, pos - Fib(count - 1)))
  {
    var rest := UnrankT(count - 2, pos - Fib(count - 1));
    assert UnrankT(count, pos) == [Long] + rest;
    ConsLong(rest);
  }

  /** Unranking the short-first position of a covering gives the covering back. */
  lemma {:induction false} RankUnrank(ts: seq<Tile>, n: int, p: int)
    requires n == Units(ts) && p == A(ts) + 1
    ensures UnrankT(n, p) == ts
    decreases |ts|
  {
    if ts != [] {
      var rest := ts[1..];
      if ts[0] == Short {
        assert ts == [Short] + rest;
        ConsShort(rest);
        RankUnrank(rest, n - 1, p);
        UnrankShortStep(rest, n, p);
      } else {
        assert ts == [Long] + rest;
        ConsLong(rest);
        RankUnrank(rest, n - 2, p - Fib(n - 1));
        UnrankLongStep(rest, n, p);
      }
    }
  }

  /** A position within the short-first block unranks to a short tile in front of the rest. */
  lemma UnrankShortStep(rest: seq<Tile>, n: int, p: int)
    requires n == 1 + Units(rest) && p == A(rest) + 1 && UnrankT(n - 1, p) == rest
    ensures UnrankT(n, p) == [Short] + rest
  {
    ABound(rest);
    if n > 1 {
      assert p <= Fib(n - 1);
    }
  }

  /** A position past the short-first block unranks to a long tile in front of the rest. */
  lemma UnrankLongStep(rest: seq<Tile>, n: int, p: int)
    requires n == 2 + Units(rest) && p == Fib(n - 1) + A(rest) + 1
    requires UnrankT(n - 2, p - Fib(n - 1)) == rest
    ensures UnrankT(n, p) == [Long] + rest
  {
    assert n >= 2 && p > Fib(n - 1);
  }

  /**
   * Over the coverings of n units, both orders give ranks from 1 to the
   * number of coverings, and the two ranks of a covering add up to one more
   * than that number. Any other criterion has a rank only below two units.
   */
  lemma RankBounds(ts: seq<Tile>)
    ensures RankOf(ts, LovesShortTiles).Some? && RankOf(ts, LovesLongTiles).Some?
    ensures RankOf(ts, OtherCriterion).Some? <==> Units(ts) <= 1
    ensures 1 <= RankOf(ts, LovesShortTiles).value <= Fib(Units(ts))
    ensures 1 <= RankOf(ts, LovesLongTiles).value <= Fib(Units(ts))
    ensures RankOf(ts, LovesShortTiles).value + RankOf(ts, LovesLongTiles).value == Fib(Units(ts)) + 1
  {
    ABound(ts);
  }

  /** The string `unrank` builds at a covering's short-first position is the covering's string. */
  lemma UnrankAtRank(ts: seq<Tile>, p: int)
    requires Units(ts) >= 1 && p == A(ts) + 1
    ensures UnrankString(Units(ts), p) == Render(ts)
  {
    var n := Units(ts);
    var t := UnrankT(n, p);
    RankUnrank(ts, n, p);
    assert t == ts;
    calc {
      UnrankString(n, p);
      Render(t);
      Render(ts);
    }
  }

  /**
   * The short-first round trip: a covering of at least one unit, ranked
   * with short tiles first and unranked, comes back as the same string.
   */
  lemma RoundTripShort(ts: seq<Tile>)
    requires Units(ts) >= 1
    ensures UnrankString(Units(ts), RankOf(ts, LovesShortTiles).value) == Render(ts)
  {
    var n := Units(ts);
    ABound(ts);
    if n <= 1 {
      assert Fib(n) == 1;
    }
    var r := RankOf(ts, LovesShortTiles).value;
    assert r == A(ts) + 1;
    UnrankAtRank(ts, r);
  }

  /**
   * The string unranked at any position p of a strip of n units is the
   * string of a covering of n units with p - 1 coverings before it.
   */
  lemma UnrankedCovering(n: int, p: int)
    requires n >= 1 && 1 <= p <= Fib(n)
    ensures Parse(UnrankString(n, p)) == Some(UnrankT(n, p))
    ensures Units(UnrankT(n, p)) == n && A(UnrankT(n, p)) == p - 1
  {
    UnrankRank(n, p);
  }

  /**
   * With short tiles first, `next_wff` moves to the covering of the same
   * strip whose rank is one higher, as long as the covering is not the last.
   */
  lemma NextIsSuccessorShort(ts: seq<Tile>)
    requires RankOf(ts, LovesShortTiles).value < Fib(Units(ts))
    ensures Parse(UnrankString(Units(ts), RankOf(ts, LovesShortTiles).value + 1)).Some?
    ensures var next := Parse(UnrankString(Units(ts), RankOf(ts, LovesShortTiles).value + 1)).value;
      Units(next) == Units(ts) && RankOf(next, LovesShortTiles).value == RankOf(ts, LovesShortTiles).value + 1
  {
    var n := Units(ts);
    var r := RankOf(ts, LovesShortTiles).value;
    assert n >= 2 && r == A(ts) + 1;
    SuccessorShortAt(n, r);
  }

  /** Short tiles first, the position after r names a covering of the same strip ranked r + 1. */
  lemma SuccessorShortAt(n: nat, r: int)
    requires n >= 2 && 1 <= r < Fib(n)
    ensures Parse(UnrankString(n, r + 1)).Some?
    ensures var next := Parse(UnrankString(n, r + 1)).value;
      Units(next) == n && RankOf(next, LovesShortTiles).value == r + 1
  {
    UnrankedCovering(n, r + 1);
  }

  /** As written, `unrank` under the long-first order does not undo `rank`: "[][]" ranks 2 and comes back as "[--]". */
  lemma UnrankIgnoresCriterion()
    ensures Parse("[][]") == Some([Short, Short])
    ensures RankOf([Short, Short], LovesLongTiles) == Some(2)
    ensures UnrankString(2, 2) == "[--]" != "[][]"
  {
    ParseRender([Short, Short]);
    assert Render([Short, Short]) == "[][]";
    assert UnrankT(2, 2) == [Long] + UnrankT(0, 1);
    assert Render([Long]) == "[--]";
  }

  /** The short-first position that a position under the criterion names. */
  function MirrorPos(nTiles: int, pos: int, criterion: Criterion): int {
    if criterion == LovesLongTiles && nTiles > 0 then Fib(nTiles) + 1 - pos else pos
  }

  /** `unrank` that honours the criterion: long-first positions count from the other end. */
  method UnrankByCriterion(numWffs: seq<int>, nTiles: int, pos: int, criterion: Criterion) returns (solu: string)
    requires IsNumWffs(numWffs)
    requires nTiles <= MaxNPairs()
    ensures solu == UnrankString(nTiles, MirrorPos(nTiles, pos, criterion))
  {
    var p := pos;
    if criterion == LovesLongTiles && nTiles > 0 {
      p := NumSol(numWffs, nTiles) + 1 - pos;
    }
    solu := Unrank(numWffs, nTiles, p, criterion);
  }

  /** `next_wff` over the corrected `unrank`. */
  method NextByCriterion(numWffs: seq<int>, wff: string, criterion: Criterion) returns (next: Option<string>)
    requires IsNumWffs(numWffs)
    requires |wff| / 2 <= MaxNPairs()
    ensures Parse(wff).Some? && RankOf(Parse(wff).value, criterion).Some? ==>
      next == Some(UnrankString(|wff| / 2, MirrorPos(|wff| / 2, RankOf(Parse(wff).value, criterion).value + 1, criterion)))
    ensures Parse(wff).Some? && RankOf(Parse(wff).value, criterion).None? ==> next == None
    ensures next == if ScanRank(numWffs, wff, criterion).None? then None
      else Some(UnrankString(|wff| / 2, MirrorPos(|wff| / 2, ScanRank(numWffs, wff, criterion).value + 1, criterion)))
  {
    var nTiles := |wff| / 2;
    var r := Rank(numWffs, wff, criterion);
    if Parse(wff).Some? {
      ScanRankOfCovering(numWffs, wff, criterion);
    }
    if r.None? {
      return None;
    }
    var s := UnrankByCriterion(numWffs, nTiles, r.value + 1, criterion);
    next := Some(s);
  }

  /**
   * The corrected round trip: under either order, a covering of at least
   * one unit, ranked and unranked, comes back as the same string.
   */
  lemma RoundTripByCriterion(ts: seq<Tile>, criterion: Criterion)
    requires criterion == LovesShortTiles || criterion == LovesLongTiles
    requires Units(ts) >= 1
    ensures RankOf(ts, criterion).Some?
    ensures UnrankString(Units(ts), MirrorPos(Units(ts), RankOf(ts, criterion).value, criterion)) == Render(ts)
  {
    var n := Units(ts);
    ABound(ts);
    if n <= 1 {
      assert Fib(n) == 1;
    }
    var r := RankOf(ts, criterion).value;
    if criterion == LovesShortTiles {
      assert r == A(ts) + 1;
    } else {
      assert r == Fib(n) - A(ts);
    }
    var m := MirrorPos(n, r, criterion);
    assert m == A(ts) + 1;
    UnrankAtRank(ts, m);
  }

  /**
   * Under either order, the corrected `next_wff` moves to the covering of
   * the same strip whose rank is one higher, as long as the covering is not
   * the last.
   */
  lemma NextIsSuccessor(ts: seq<Tile>, criterion: Criterion)
    requires criterion == LovesShortTiles || criterion == LovesLongTiles
    requires RankOf(ts, criterion).value < Fib(Units(ts))
    ensures Parse(UnrankString(Units(ts), MirrorPos(Units(ts), RankOf(ts, criterion).value + 1, criterion))).Some?
    ensures var next := Parse(UnrankString(Units(ts), MirrorPos(Units(ts), RankOf(ts, criterion).value + 1, criterion))).value;
      Units(next) == Units(ts) && RankOf(next, criterion).value == RankOf(ts, criterion).value + 1
  {
    var n := Units(ts);
    assert n >= 2;
    ABound(ts);
    var p := MirrorPos(n, RankOf(ts, criterion).value + 1, criterion);
    assert criterion == LovesShortTiles ==> p == A(ts) + 2;
    assert criterion == LovesLongTiles ==> p == A(ts);
    UnrankedCovering(n, p);
  }
}
