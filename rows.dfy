/** One row of the 2048 board: compaction, the single left-to-right merge pass
    and the score it earns (Game2048.merge). */
module Rows {

  /** 1, 2, 4, 8, ... */
  predicate IsPowerOfTwo(v: int)
  {
    v == 1 || (v >= 2 && v % 2 == 0 && IsPowerOfTwo(v / 2))
  }

  /** A cell value: 0 for an empty cell, otherwise a power of two of at least 2. */
  predicate IsTile(v: int)
  {
    v == 0 || (v >= 2 && IsPowerOfTwo(v))
  }

  predicate AllTiles(s: seq<int>)
  {
    forall k :: 0 <= k < |s| ==> IsTile(s[k])
  }

  predicate NoEmpty(s: seq<int>)
  {
    forall k :: 0 <= k < |s| ==> s[k] != 0
  }

  /** No cell equals its right neighbour. */
  predicate NoEqualNeighbours(s: seq<int>)
  {
    forall k :: 0 <= k < |s| - 1 ==> s[k] != s[k + 1]
  }

  /** `[value for value in row if value != 0]`: the row with its empty cells dropped. */
  function Compact(s: seq<int>): (r: seq<int>)
    ensures |r| <= |s|
    ensures NoEmpty(r)
  {
    if s == [] then []
    else if s[0] == 0 then Compact(s[1..])
    else [s[0]] + Compact(s[1..])
  }

  /** Compaction keeps only values of the row it compacts. */
  lemma {:induction false} CompactMembers(s: seq<int>)
    ensures forall x :: x in Compact(s) ==> x in s
  {
    if s != [] {
      CompactMembers(s[1..]);
    }
  }

  /** Reference definition of one merge pass over a compacted row: the first two
      cells merge when equal and the pass continues AFTER the pair, so a merged
      cell is never merged again in the same pass. */
  function Combine(c: seq<int>): (r: seq<int>)
    ensures |r| <= |c|
    ensures NoEmpty(c) ==> NoEmpty(r)
  {
    if |c| < 2 then c
    else if c[0] == c[1] then [2 * c[0]] + Combine(c[2..])
    else [c[0]] + Combine(c[1..])
  }

  /** The score a merge pass earns: the sum of the doubled values. */
  function CombineGain(c: seq<int>): int
  {
    if |c| < 2 then 0
    else if c[0] == c[1] then 2 * c[0] + CombineGain(c[2..])
    else CombineGain(c[1..])
  }

  function Zeros(n: nat): seq<int>
  {
    seq(n, _ => 0)
  }

  /** `s + [0] * (width - len(s))`; Python repeats a list a negative number of times as []. */
  function Pad(s: seq<int>, width: nat): seq<int>
  {
    if |s| < width then s + Zeros(width - |s|) else s
  }

  /** The row `merge` produces for `row` on a board `width` cells wide. */
  function MergedRow(row: seq<int>, width: nat): seq<int>
  {
    Pad(Combine(Compact(row)), width)
  }

  /** What `merge` adds to the score for `row`. */
  function RowGain(row: seq<int>): int
  {
    CombineGain(Compact(row))
  }

  /** The loop of Game2048.merge for one row: compact into a fresh list, one pass
      doubling the left cell of each equal adjacent pair and zeroing the right one,
      then compact again and pad. `gain` is what the pass adds to the score. */
  method MergeRow(row: seq<int>, width: nat) returns (merged: seq<int>, gain: int)
    ensures merged == MergedRow(row, width)
    ensures gain == RowGain(row)
  {
    var packed := Compact(row);
    var passed;
    passed, gain := MergePass(packed);
    merged := Pad(Compact(passed), width);
  }

  /** The inner `for i in range(1, len(new_row))` loop over a compacted row, on
      an array: what it leaves, compacted, is the reference pass, and `gain` is
      the sum of the doubled cells. */
  method MergePass(packed: seq<int>) returns (passed: seq<int>, gain: int)
    requires NoEmpty(packed)
    ensures Compact(passed) == Combine(packed)
    ensures gain == CombineGain(packed)
  {
    var cells := new int[|packed|](k requires 0 <= k < |packed| => packed[k]);
    gain := 0;
    if cells.Length == 0 {
      return cells[..], gain;
    }
    assert cells[..] == packed;
    for i := 1 to cells.Length
      invariant PassState(cells[..], packed, i, gain)
    {
      ghost var before := cells[..];
      if cells[i] == cells[i - 1] {
        ghost var x, g := cells[i - 1], gain;
        PassMerges(before, packed, i, gain);
        cells[i - 1] := cells[i - 1] * 2;
        gain := gain + cells[i - 1];
        cells[i] := 0;
        assert gain == g + 2 * x;
        assert cells[..] == before[i - 1 := 2 * x][i := 0];
      } else {
        PassKeeps(before, packed, i, gain);
      }
    }
    passed := cells[..];
    PassDone(passed, packed, gain);
  }

  /** Where the merge pass stands before comparing `cur[i]` with `cur[i - 1]`:
      the cells from `i` on are untouched, the cell at `i - 1` is the input's or
      was emptied by a merge, and what is settled so far followed by a fresh
      pass over the rest gives the reference pass. */
  ghost predicate PassState(cur: seq<int>, packed: seq<int>, i: nat, gain: int)
  {
    |cur| == |packed| && 1 <= i <= |packed| &&
    cur[i..] == packed[i..] &&
    (cur[i - 1] == 0 || cur[i - 1] == packed[i - 1]) &&
    var k := if cur[i - 1] == 0 then i else i - 1;
    Compact(cur[..k]) + Combine(packed[k..]) == Combine(packed) &&
    gain + CombineGain(packed[k..]) == CombineGain(packed)
  }

  lemma PassMerges(cur: seq<int>, packed: seq<int>, i: nat, gain: int)
    requires NoEmpty(packed) && PassState(cur, packed, i, gain) && i < |packed|
    requires cur[i] == cur[i - 1]
    ensures PassState(cur[i - 1 := 2 * cur[i - 1]][i := 0], packed, i + 1, gain + 2 * cur[i - 1])
  {
    var next := cur[i - 1 := 2 * cur[i - 1]][i := 0];
    assert cur[i] == packed[i] by { assert cur[i..][0] == packed[i..][0]; }
    assert cur[i - 1] != 0;
    assert next[i + 1..] == packed[i + 1..] by {
      assert next[i + 1..] == cur[i + 1..] == cur[i..][1..];
    }
    assert next[i] == 0;
    SettledMerge(cur, packed, i);
    GainMerge(packed, i, gain);
  }

  /** A merged pair joins the settled cells as one doubled cell. */
  lemma SettledMerge(cur: seq<int>, packed: seq<int>, i: nat)
    requires 1 <= i < |packed| == |cur|
    requires cur[i - 1] == packed[i - 1] == packed[i] != 0
    requires Compact(cur[..i - 1]) + Combine(packed[i - 1..]) == Combine(packed)
    ensures Compact(cur[i - 1 := 2 * cur[i - 1]][i := 0][..i + 1]) + Combine(packed[i + 1..]) == Combine(packed)
  {
    CombineStep(packed, i - 1);
    MergedPairCompacts(cur, i);
    ConcatAssoc(Compact(cur[..i - 1]), [2 * cur[i - 1]], Combine(packed[i + 1..]));
  }

  lemma GainMerge(packed: seq<int>, i: nat, gain: int)
    requires 1 <= i < |packed| && packed[i - 1] == packed[i]
    requires gain + CombineGain(packed[i - 1..]) == CombineGain(packed)
    ensures gain + 2 * packed[i - 1] + CombineGain(packed[i + 1..]) == CombineGain(packed)
  {
    GainStep(packed, i - 1);
  }

  /** After the pair at i - 1, i merged, the settled cells are those before the
      pair followed by the doubled cell. */
  lemma MergedPairCompacts(cur: seq<int>, i: nat)
    requires 1 <= i < |cur| && cur[i - 1] != 0
    ensures Compact(cur[i - 1 := 2 * cur[i - 1]][i := 0][..i + 1]) == Compact(cur[..i - 1]) + [2 * cur[i - 1]]
  {
    var x := cur[i - 1];
    assert cur[i - 1 := 2 * x][i := 0][..i + 1] == cur[..i - 1] + [2 * x] + [0];
    CompactAppend(cur[..i - 1] + [2 * x], [0]);
    CompactAppend(cur[..i - 1], [2 * x]);
  }

  /** One step of the reference pass, read from position `k` of `c`. */
  lemma CombineStep(c: seq<int>, k: nat)
    requires k + 1 < |c|
    ensures c[k] == c[k + 1] ==> Combine(c[k..]) == [2 * c[k]] + Combine(c[k + 2..])
    ensures c[k] != c[k + 1] ==> Combine(c[k..]) == [c[k]] + Combine(c[k + 1..])
  {
    assert c[k..][1..] == c[k + 1..];
    assert c[k..][2..] == c[k + 2..];
  }

  /** One step of the score of the reference pass, read from position `k` of `c`. */
  lemma GainStep(c: seq<int>, k: nat)
    requires k + 1 < |c|
    ensures c[k] == c[k + 1] ==> CombineGain(c[k..]) == 2 * c[k] + CombineGain(c[k + 2..])
    ensures c[k] != c[k + 1] ==> CombineGain(c[k..]) == CombineGain(c[k + 1..])
  {
    assert c[k..][1..] == c[k + 1..];
    assert c[k..][2..] == c[k + 2..];
  }

  lemma PassKeeps(cur: seq<int>, packed: seq<int>, i: nat, gain: int)
    requires NoEmpty(packed) && PassState(cur, packed, i, gain) && i < |packed|
    requires cur[i] != cur[i - 1]
    ensures PassState(cur, packed, i + 1, gain)
  {
    assert cur[i] == packed[i] by { assert cur[i..][0] == packed[i..][0]; }
    assert cur[i] != 0;
    assert cur[i + 1..] == packed[i + 1..] by {
      assert cur[i + 1..] == cur[i..][1..];
    }
    if cur[i - 1] != 0 {
      SettledKeep(cur, packed, i);
      GainKeep(packed, i, gain);
    }
  }

  /** A cell that does not merge joins the settled cells unchanged. */
  lemma SettledKeep(cur: seq<int>, packed: seq<int>, i: nat)
    requires 1 <= i < |packed| == |cur|
    requires cur[i - 1] == packed[i - 1] != packed[i] && cur[i - 1] != 0
    requires Compact(cur[..i - 1]) + Combine(packed[i - 1..]) == Combine(packed)
    ensures Compact(cur[..i]) + Combine(packed[i..]) == Combine(packed)
  {
    CombineStep(packed, i - 1);
    CompactSnoc(cur, i);
    ConcatAssoc(Compact(cur[..i - 1]), [cur[i - 1]], Combine(packed[i..]));
  }

  lemma ConcatAssoc(a: seq<int>, b: seq<int>, c: seq<int>)
    ensures (a + b) + c == a + (b + c)
  {
  }

  /** Compacting one more cell, a tile, appends it to the compacted prefix. */
  lemma CompactSnoc(cur: seq<int>, i: nat)
    requires 1 <= i <= |cur| && cur[i - 1] != 0
    ensures Compact(cur[..i]) == Compact(cur[..i - 1]) + [cur[i - 1]]
  {
    assert cur[..i] == cur[..i - 1] + [cur[i - 1]];
    CompactAppend(cur[..i - 1], [cur[i - 1]]);
    assert Compact([cur[i - 1]]) == [cur[i - 1]] by {
      assert [cur[i - 1]][1..] == [];
    }
  }

  lemma GainKeep(packed: seq<int>, i: nat, gain: int)
    requires 1 <= i < |packed| && packed[i - 1] != packed[i]
    requires gain + CombineGain(packed[i - 1..]) == CombineGain(packed)
    ensures gain + CombineGain(packed[i..]) == CombineGain(packed)
  {
    GainStep(packed, i - 1);
  }

  lemma PassDone(cur: seq<int>, packed: seq<int>, gain: int)
    requires PassState(cur, packed, |packed|, gain)
    ensures Compact(cur) == Combine(packed)
    ensures gain == CombineGain(packed)
  {
    var n := |packed|;
    assert cur[..n] == cur;
    if cur[n - 1] != 0 {
      assert packed[n - 1..] == [packed[n - 1]];
      assert cur == cur[..n - 1] + [cur[n - 1]];
      CompactAppend(cur[..n - 1], [cur[n - 1]]);
    }
  }

  lemma {:induction false} CompactAppend(s: seq<int>, t: seq<int>)
    ensures Compact(s + t) == Compact(s) + Compact(t)
  {
    if s == [] {
      assert s + t == t;
    } else {
      assert (s + t)[1..] == s[1..] + t;
      CompactAppend(s[1..], t);
    }
  }

  /** Compaction leaves a row alone exactly when it has no empty cell. */
  lemma {:induction false} CompactFixedPoints(s: seq<int>)
    ensures Compact(s) == s <==> NoEmpty(s)
  {
    if s != [] {
      CompactFixedPoints(s[1..]);
      if s[0] == 0 {
        assert |Compact(s)| < |s|;
      }
    }
  }

  /** A merge pass leaves a compacted row alone exactly when no two neighbours are equal. */
  lemma {:induction false} CombineFixedPoints(c: seq<int>)
    ensures Combine(c) == c <==> NoEqualNeighbours(c)
  {
    if |c| >= 2 {
      if c[0] == c[1] {
        assert |Combine(c)| < |c|;
      } else {
        CombineFixedPoints(c[1..]);
        assert NoEqualNeighbours(c) <==> NoEqualNeighbours(c[1..]) by {
          if NoEqualNeighbours(c[1..]) {
            forall k | 0 <= k < |c| - 1 ensures c[k] != c[k + 1] {
              if k > 0 { assert c[1..][k - 1] == c[k]; }
            }
          }
        }
      }
    }
  }

  /** `r` is `c` cut into consecutive blocks, each block a single cell kept as it
      is or a pair of equal cells replaced by their double. */
  predicate OnePairPerCell(c: seq<int>, r: seq<int>)
    decreases |c|
  {
    if r == [] then c == []
    else
      (|c| >= 1 && r[0] == c[0] && OnePairPerCell(c[1..], r[1..])) ||
      (|c| >= 2 && c[0] == c[1] && r[0] == 2 * c[0] && OnePairPerCell(c[2..], r[1..]))
  }

  /** No cascade: every cell of a merged row is a single cell of the input or the
      double of one equal adjacent pair of it, in order, so [2, 2, 4] does not
      become [8] and [2, 2, 4, 4] does not become [8, 4]. */
  lemma {:induction false} CombineNoCascade(c: seq<int>)
    ensures OnePairPerCell(c, Combine(c))
    ensures forall x :: x in Combine(c) ==> x in c || (x % 2 == 0 && x / 2 in c)
    ensures 2 * |Combine(c)| >= |c|
  {
    if |c| >= 2 {
      if c[0] == c[1] {
        CombineNoCascade(c[2..]);
        assert Combine(c)[1..] == Combine(c[2..]);
        forall x | x in Combine(c[2..]) ensures x in c || (x % 2 == 0 && x / 2 in c) {
          assert forall y :: y in c[2..] ==> y in c;
        }
      } else {
        CombineNoCascade(c[1..]);
        assert Combine(c)[1..] == Combine(c[1..]);
        forall x | x in Combine(c[1..]) ensures x in c || (x % 2 == 0 && x / 2 in c) {
          assert forall y :: y in c[1..] ==> y in c;
        }
      }
    }
  }

  /** The cut into blocks excludes a cascade: a cell doubled once is not merged
      again within the same pass. */
  lemma CascadesExcluded()
    ensures !OnePairPerCell([2, 2, 4], [8])
    ensures !OnePairPerCell([2, 2, 4, 4], [8, 4])
    ensures !OnePairPerCell([4, 2, 2, 4], [4, 8])
  {
  }

  /** A merged row is made of tiles again. */
  lemma MergedRowTiles(row: seq<int>, width: nat)
    requires AllTiles(row)
    ensures AllTiles(MergedRow(row, width))
  {
    var c := Compact(row);
    var r := MergedRow(row, width);
    CompactMembers(row);
    CombineNoCascade(c);
    forall k | 0 <= k < |r| ensures IsTile(r[k]) {
      if k < |Combine(c)| {
        var x := Combine(c)[k];
        assert x in Combine(c);
        if x in c {
          assert x in row;
        } else {
          assert x / 2 in row;
          assert x / 2 * 2 == x;
        }
      }
    }
  }

  /** Row shape: a row no longer than the board is merged into exactly `width`
      cells, the occupied ones first and the empty ones after them. */
  lemma MergedRowShape(row: seq<int>, width: nat)
    requires |row| <= width
    ensures |MergedRow(row, width)| == width
    ensures var r, n := MergedRow(row, width), |Combine(Compact(row))|;
      n <= width && (forall k :: 0 <= k < n ==> r[k] != 0) && (forall k :: n <= k < width ==> r[k] == 0)
  {
  }

  /** Sum over a row of `f` applied to each cell. */
  function RowTotal(s: seq<int>, f: int -> int): int
  {
    if s == [] then 0 else f(s[0]) + RowTotal(s[1..], f)
  }

  /** The value a cell adds to the sum of the tiles. */
  function Value(x: int): int { x }

  /** 1 for an occupied cell, 0 for an empty one. */
  function Occupancy(x: int): int { if x == 0 then 0 else 1 }

  lemma {:induction false} RowTotalAppend(s: seq<int>, t: seq<int>, f: int -> int)
    ensures RowTotal(s + t, f) == RowTotal(s, f) + RowTotal(t, f)
  {
    if s == [] {
      assert s + t == t;
    } else {
      assert (s + t)[1..] == s[1..] + t;
      RowTotalAppend(s[1..], t, f);
    }
  }

  lemma {:induction false} CompactTotal(s: seq<int>, f: int -> int)
    requires f(0) == 0
    ensures RowTotal(Compact(s), f) == RowTotal(s, f)
  {
    if s != [] {
      CompactTotal(s[1..], f);
    }
  }

  lemma {:induction false} PadTotal(s: seq<int>, width: nat, f: int -> int)
    requires f(0) == 0
    ensures RowTotal(Pad(s, width), f) == RowTotal(s, f)
  {
    if |s| < width {
      RowTotalAppend(s, Zeros(width - |s|), f);
      ZerosTotal(width - |s|, f);
    }
  }

  lemma {:induction false} ZerosTotal(n: nat, f: int -> int)
    requires f(0) == 0
    ensures RowTotal(Zeros(n), f) == 0
  {
    if n > 0 {
      assert Zeros(n)[1..] == Zeros(n - 1);
      ZerosTotal(n - 1, f);
    }
  }

  /** A row without empty cells has as many occupied cells as it is long. */
  lemma {:induction false} OccupancyOfFull(s: seq<int>)
    requires NoEmpty(s)
    ensures RowTotal(s, Occupancy) == |s|
  {
    if s != [] {
      OccupancyOfFull(s[1..]);
    }
  }

  /** A merge pass keeps the sum of the row. */
  lemma {:induction false} CombineSum(c: seq<int>)
    ensures RowTotal(Combine(c), Value) == RowTotal(c, Value)
  {
    if |c| >= 2 {
      assert c[1..][1..] == c[2..];
      if c[0] == c[1] {
        CombineSum(c[2..]);
      } else {
        CombineSum(c[1..]);
      }
    }
  }

  /** For positive cells the pass earns nothing exactly when nothing merges, and
      otherwise earns a positive score no larger than the row's sum, while the
      row loses at least one cell. */
  lemma {:induction false} CombineGainBounds(c: seq<int>)
    requires forall k :: 0 <= k < |c| ==> c[k] > 0
    ensures 0 <= CombineGain(c) <= RowTotal(c, Value)
    ensures CombineGain(c) == 0 <==> NoEqualNeighbours(c)
    ensures CombineGain(c) == 0 <==> |Combine(c)| == |c|
  {
    CombineFixedPoints(c);
    if |c| >= 2 {
      assert c[1..][1..] == c[2..];
      if c[0] == c[1] {
        CombineGainBounds(c[2..]);
        assert |Combine(c)| < |c|;
      } else {
        CombineGainBounds(c[1..]);
        CombineFixedPoints(c[1..]);
      }
    }
  }

  /** `merge` keeps the sum of every row. */
  lemma MergedRowSum(row: seq<int>, width: nat)
    ensures RowTotal(MergedRow(row, width), Value) == RowTotal(row, Value)
  {
    PadTotal(Combine(Compact(row)), width, Value);
    CombineSum(Compact(row));
    CompactTotal(row, Value);
  }

  /** Score of one row: never negative, never more than the row's sum, and zero
      exactly when the row keeps all its occupied cells; any positive gain costs
      the row at least one occupied cell. */
  lemma RowGainBounds(row: seq<int>, width: nat)
    requires AllTiles(row)
    ensures 0 <= RowGain(row) <= RowTotal(row, Value)
    ensures RowTotal(MergedRow(row, width), Occupancy) <= RowTotal(row, Occupancy)
    ensures RowGain(row) == 0 <==> RowTotal(MergedRow(row, width), Occupancy) == RowTotal(row, Occupancy)
  {
    var c := Compact(row);
    CompactMembers(row);
    forall k | 0 <= k < |c| ensures c[k] > 0 {
      assert c[k] in row;
    }
    CombineGainBounds(c);
    CompactTotal(row, Value);
    CompactTotal(row, Occupancy);
    OccupancyOfFull(c);
    PadTotal(Combine(c), width, Occupancy);
    OccupancyOfFull(Combine(c));
  }

  /** A full row with no equal neighbours is left as it is and earns nothing. */
  lemma SettledRow(row: seq<int>, width: nat)
    requires |row| == width && NoEmpty(row) && NoEqualNeighbours(row)
    ensures MergedRow(row, width) == row
    ensures RowGain(row) == 0
  {
    CompactFixedPoints(row);
    CombineFixedPoints(row);
    NoMergeNoGain(row);
  }

  lemma {:induction false} NoMergeNoGain(c: seq<int>)
    requires NoEqualNeighbours(c)
    ensures CombineGain(c) == 0
  {
    if |c| >= 2 {
      assert c[0] != c[1];
      assert NoEqualNeighbours(c[1..]) by {
        forall k | 0 <= k < |c[1..]| - 1 ensures c[1..][k] != c[1..][k + 1] {
          assert c[k + 1] != c[k + 2];
        }
      }
      NoMergeNoGain(c[1..]);
    }
  }

  /** Four equal tiles merge pairwise into two, not into a single 8. */
  lemma MergeFourTwos()
    ensures MergedRow([2, 2, 2, 2], 4) == [4, 4, 0, 0] && RowGain([2, 2, 2, 2]) == 8
  {
    assert Compact([2, 2, 2, 2]) == [2, 2, 2, 2];
    assert [2, 2, 2, 2][2..] == [2, 2];
  }

  /** A freshly merged 4 is not merged again with the 4 beside it: [2, 2, 4] does
      not cascade into a single 8. */
  lemma MergeNoCascade()
    ensures MergedRow([2, 2, 4, 0], 4) == [4, 4, 0, 0] && RowGain([2, 2, 4, 0]) == 4
  {
    assert Compact([2, 2, 4, 0]) == [2, 2, 4];
    assert [2, 2, 4][2..] == [4];
  }

  /** An empty cell between two equal tiles does not keep them apart. */
  lemma MergeAcrossGap()
    ensures MergedRow([2, 0, 2, 4], 4) == [4, 4, 0, 0] && RowGain([2, 0, 2, 4]) == 4
  {
    assert Compact([2, 0, 2, 4]) == [2, 2, 4];
    assert [2, 2, 4][2..] == [4];
  }

  /** A freshly merged 8 is not merged again with the 8 beside it. */
  lemma MergeNoRemerge()
    ensures MergedRow([4, 4, 8, 0], 4) == [8, 8, 0, 0] && RowGain([4, 4, 8, 0]) == 8
  {
    assert Compact([4, 4, 8, 0]) == [4, 4, 8];
    assert [4, 4, 8][2..] == [8];
  }
}
