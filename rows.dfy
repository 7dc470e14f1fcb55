/*
 * One row of a 2048 board: the left-pack (`compress`), the single
 * left-to-right merge pass (`merge`) and their composition, the move of one
 * row to the left. Cells are plain integers: 0 is an empty cell, a power of
 * two is a tile, and the preset boards use -1 for a blocked cell.
 */
module Rows {

  type Row = seq<int>

  /** Sum of the cells of a row. */
  function Sum(s: Row): int
  {
    if |s| == 0 then 0 else s[0] + Sum(s[1..])
  }

  /** A row of k empty cells. */
  function Zeros(k: nat): Row
  {
    seq(k, _ => 0)
  }

  /** The non-empty cells of s, in their original order. */
  function NonZero(s: Row): (t: Row)
    ensures |t| <= |s|
    ensures 0 !in t
  {
    if |s| == 0 then [] else (if s[0] != 0 then [s[0]] else []) + NonZero(s[1..])
  }

  /** Every empty cell of s lies to the right of every non-empty one. */
  predicate IsPacked(s: Row)
  {
    forall i, j :: 0 <= i < j < |s| && s[i] == 0 ==> s[j] == 0
  }

  // ---------------------------------------------------------------------
  // Helper facts about sums and the non-zero filter
  // ---------------------------------------------------------------------

  lemma {:induction false} SumAppend(a: Row, b: Row)
    ensures Sum(a + b) == Sum(a) + Sum(b)
  {
    if |a| == 0 {
      assert a + b == b;
    } else {
      assert (a + b)[1..] == a[1..] + b;
      SumAppend(a[1..], b);
    }
  }

  lemma {:induction false} SumZeros(k: nat)
    ensures Sum(Zeros(k)) == 0
  {
    if k > 0 {
      assert Zeros(k)[1..] == Zeros(k - 1);
      SumZeros(k - 1);
    }
  }

  lemma {:induction false} NonZeroAppend(a: Row, b: Row)
    ensures NonZero(a + b) == NonZero(a) + NonZero(b)
  {
    if |a| == 0 {
      assert a + b == b;
    } else {
      assert (a + b)[1..] == a[1..] + b;
      NonZeroAppend(a[1..], b);
    }
  }

  lemma {:induction false} NonZeroZeros(k: nat)
    ensures NonZero(Zeros(k)) == []
  {
    if k > 0 {
      assert Zeros(k)[1..] == Zeros(k - 1);
      NonZeroZeros(k - 1);
    }
  }

  /** Filtering a row without empty cells keeps it as it is. */
  lemma {:induction false} NonZeroFixed(s: Row)
    requires 0 !in s
    ensures NonZero(s) == s
  {
    if |s| > 0 {
      assert s == [s[0]] + s[1..];
      NonZeroFixed(s[1..]);
    }
  }

  /** A row that loses nothing to the filter has no empty cell. */
  lemma {:induction false} NonZeroFull(s: Row)
    requires |NonZero(s)| == |s|
    ensures 0 !in s
  {
    if |s| > 0 {
      assert s[0] != 0;
      NonZeroFull(s[1..]);
      assert s == [s[0]] + s[1..];
    }
  }

  lemma {:induction false} SumNonZero(s: Row)
    ensures Sum(NonZero(s)) == Sum(s)
  {
    if |s| > 0 {
      var head := if s[0] != 0 then [s[0]] else [];
      SumAppend(head, NonZero(s[1..]));
      SumNonZero(s[1..]);
    }
  }

  lemma {:induction false} NonZeroCount(s: Row, x: int)
    requires x != 0
    ensures multiset(NonZero(s))[x] == multiset(s)[x]
  {
    if |s| > 0 {
      assert s == [s[0]] + s[1..];
      NonZeroCount(s[1..], x);
    }
  }

  /** A packed row is its tiles followed by empty cells. */
  lemma {:induction false} PackedSplit(s: Row)
    requires IsPacked(s)
    ensures s == NonZero(s) + Zeros(|s| - |NonZero(s)|)
  {
    if |s| == 0 {
    } else if s[0] == 0 {
      assert forall j :: 0 <= j < |s| ==> s[j] == 0;
      assert s == Zeros(|s|);
      NonZeroZeros(|s|);
    } else {
      var t := s[1..];
      assert IsPacked(t) by {
        forall i, j | 0 <= i < j < |t| && t[i] == 0 ensures t[j] == 0 {
          assert s[i + 1] == 0;
        }
      }
      PackedSplit(t);
      assert NonZero(s) == [s[0]] + NonZero(t);
      assert s == [s[0]] + t;
    }
  }

  // ---------------------------------------------------------------------
  // compress (game2048.py:23-27)
  // ---------------------------------------------------------------------

  /**
   * The row's non-empty cells moved to the left, in order, padded with
   * empty cells up to `size`. A row longer than `size` is not padded.
   */
  function Compress(row: Row, size: nat): (r: Row)
    ensures |row| <= size ==> |r| == size
    ensures NonZero(r) == NonZero(row)
  {
    var tiles := NonZero(row);
    var pad := if |tiles| < size then size - |tiles| else 0;
    NonZeroAppend(tiles, Zeros(pad));
    NonZeroFixed(tiles);
    NonZeroZeros(pad);
    tiles + Zeros(pad)
  }

  /** A compressed row has all its empty cells on the right. */
  lemma CompressPacked(row: Row, size: nat)
    ensures IsPacked(Compress(row, size))
  {
  }

  /** Compressing twice is compressing once. */
  lemma CompressIdempotent(row: Row, size: nat)
    ensures Compress(Compress(row, size), size) == Compress(row, size)
  {
  }

  /**
   * The three properties in the contract of Compress determine its result:
   * any row of the right length that keeps the tiles in order and is packed
   * is the compressed row.
   */
  lemma CompressUnique(row: Row, size: nat, r: Row)
    requires |row| <= size && |r| == size
    requires NonZero(r) == NonZero(row) && IsPacked(r)
    ensures r == Compress(row, size)
  {
    PackedSplit(r);
  }

  /** Compressing keeps the row sum. */
  lemma CompressSum(row: Row, size: nat)
    ensures Sum(Compress(row, size)) == Sum(row)
  {
    var tiles := NonZero(row);
    var pad := if |tiles| < size then size - |tiles| else 0;
    SumAppend(tiles, Zeros(pad));
    SumZeros(pad);
    SumNonZero(row);
  }

  /** Compressing keeps every non-zero value, blocked cells included. */
  lemma CompressCount(row: Row, size: nat, x: int)
    requires x != 0
    ensures multiset(Compress(row, size))[x] == multiset(row)[x]
  {
    var tiles := NonZero(row);
    var pad := if |tiles| < size then size - |tiles| else 0;
    NonZeroCount(row, x);
    assert x !in Zeros(pad);
    assert multiset(tiles + Zeros(pad)) == multiset(tiles) + multiset(Zeros(pad));
  }

  /** A compressed row of full length without an empty cell was already packed. */
  lemma CompressFullIsIdentity(row: Row, size: nat)
    requires |row| == size && 0 !in Compress(row, size)
    ensures Compress(row, size) == row
  {
    NonZeroFixed(Compress(row, size));
    NonZeroFull(row);
    NonZeroFixed(row);
  }

  // ---------------------------------------------------------------------
  // merge (game2048.py:29-36): one pass from left to right
  // ---------------------------------------------------------------------

  /**
   * The row after the single left-to-right pass of `merge`: a positive cell
   * equal to its right neighbour is doubled and the neighbour emptied; the
   * pass then continues at the emptied cell, which never merges.
   */
  function MergePass(s: Row): (r: Row)
    ensures |r| == |s|
    decreases |s|
  {
    if |s| < 2 then s
    else if s[0] > 0 && s[0] == s[1] then [2 * s[0]] + MergePass([0] + s[2..])
    else [s[0]] + MergePass(s[1..])
  }

  /** What the pass adds to the score: the sum of the doubled cells. */
  function MergeGain(s: Row): (g: int)
    ensures g >= 0
    decreases |s|
  {
    if |s| < 2 then 0
    else if s[0] > 0 && s[0] == s[1] then 2 * s[0] + MergeGain([0] + s[2..])
    else MergeGain(s[1..])
  }

  /** The sum of the cells of r that differ from the cell of s at the same place. */
  function RewrittenSum(s: Row, r: Row): int
    requires |s| == |r|
  {
    if |s| == 0 then 0
    else (if r[0] != s[0] then r[0] else 0) + RewrittenSum(s[1..], r[1..])
  }

  /** The pass merged the pair at i and i + 1. */
  predicate MergedAt(s: Row, r: Row, i: int)
    requires |s| == |r|
  {
    0 <= i && i + 1 < |s| && s[i] > 0 && s[i + 1] == s[i] && r[i] == 2 * s[i] && r[i + 1] == 0
  }

  /** An empty cell at the head of the row never merges. */
  lemma MergeLeadingZero(t: Row)
    ensures MergePass([0] + t) == [0] + MergePass(t)
    ensures MergeGain([0] + t) == MergeGain(t)
  {
    if |t| > 0 {
      assert ([0] + t)[1..] == t;
    }
  }

  /** Unfolding the pass at a merged head pair. */
  lemma MergeHead(s: Row)
    requires |s| >= 2 && s[0] > 0 && s[0] == s[1]
    ensures MergePass(s) == [2 * s[0], 0] + MergePass(s[2..])
    ensures MergeGain(s) == 2 * s[0] + MergeGain(s[2..])
  {
    var t := s[2..];
    MergeLeadingZero(t);
    assert MergePass(s) == [2 * s[0]] + MergePass([0] + t);
    assert [2 * s[0]] + ([0] + MergePass(t)) == [2 * s[0], 0] + MergePass(t);
  }

  /** The row after the pass has looked at the pair at i and i + 1. */
  function MergeAt(s: Row, i: nat): (r: Row)
    requires i + 1 < |s|
    ensures |r| == |s|
  {
    if s[i] > 0 && s[i] == s[i + 1] then s[i := 2 * s[i]][i + 1 := 0] else s
  }

  /**
   * One step of the pass over the first n cells, as the in-place loop takes
   * it: the cells already passed followed by the pass over the rest keep
   * the same result and the same score, and the cells from n on are left alone.
   */
  lemma MergeAtStep(s: Row, i: nat, n: nat)
    requires i + 1 < n <= |s|
    ensures MergeAt(s, i)[..i + 1] + MergePass(MergeAt(s, i)[i + 1..n]) == s[..i] + MergePass(s[i..n])
    ensures MergeGain(s[i..n]) ==
            (if s[i] > 0 && s[i] == s[i + 1] then 2 * s[i] else 0) + MergeGain(MergeAt(s, i)[i + 1..n])
    ensures MergeAt(s, i)[n..] == s[n..]
  {
    if s[i] > 0 && s[i] == s[i + 1] {
      MergeAtPair(s, i, n);
    } else {
      MergeAtKeep(s, i, n);
    }
  }

  lemma MergeAtPair(s: Row, i: nat, n: nat)
    requires i + 1 < n <= |s| && s[i] > 0 && s[i] == s[i + 1]
    ensures MergeAt(s, i)[..i + 1] + MergePass(MergeAt(s, i)[i + 1..n]) == s[..i] + MergePass(s[i..n])
    ensures MergeGain(s[i..n]) == 2 * s[i] + MergeGain(MergeAt(s, i)[i + 1..n])
    ensures MergeAt(s, i)[n..] == s[n..]
  {
    var t := s[i..n];
    var r := s[i := 2 * s[i]][i + 1 := 0];
    assert MergeAt(s, i) == r;
    assert t[0] == s[i] && t[1] == s[i + 1];
    assert MergePass(t) == [2 * t[0]] + MergePass([0] + t[2..]);
    assert r[..i + 1] == s[..i] + [2 * t[0]];
    assert r[i + 1..n] == [0] + t[2..];
  }

  lemma MergeAtKeep(s: Row, i: nat, n: nat)
    requires i + 1 < n <= |s| && !(s[i] > 0 && s[i] == s[i + 1])
    ensures s[..i + 1] + MergePass(s[i + 1..n]) == s[..i] + MergePass(s[i..n])
    ensures MergeGain(s[i..n]) == MergeGain(s[i + 1..n])
  {
    var t := s[i..n];
    assert t[0] == s[i] && t[1] == s[i + 1];
    assert MergePass(t) == [t[0]] + MergePass(t[1..]);
    assert s[..i + 1] == s[..i] + [t[0]];
    assert t[1..] == s[i + 1..n];
  }

  /** The pass keeps the row sum: what it doubles it takes from the neighbour. */
  lemma {:induction false} MergeSum(s: Row)
    ensures Sum(MergePass(s)) == Sum(s)
  {
    if |s| < 2 {
    } else if s[0] > 0 && s[0] == s[1] {
      var t := s[2..];
      MergeHead(s);
      MergeSum(t);
      SumAppend([2 * s[0], 0], MergePass(t));
      assert s == [s[0], s[1]] + t;
      SumAppend([s[0], s[1]], t);
    } else {
      MergeSum(s[1..]);
      assert MergePass(s)[1..] == MergePass(s[1..]);
    }
  }

  /**
   * The score gained by the pass is exactly the total of the cells it
   * rewrote (the doubled cells; the emptied ones add nothing).
   */
  lemma {:induction false} MergeGainIsRewrittenSum(s: Row)
    ensures MergeGain(s) == RewrittenSum(s, MergePass(s))
  {
    var r := MergePass(s);
    if |s| < 2 {
      if |s| > 0 {
        assert s[1..] == [] && r[1..] == [];
      }
    } else if s[0] > 0 && s[0] == s[1] {
      var t := s[2..];
      MergeHead(s);
      MergeGainIsRewrittenSum(t);
      assert r[1..][1..] == MergePass(t);
      assert s[1..][1..] == t;
    } else {
      MergeGainIsRewrittenSum(s[1..]);
      assert r[1..] == MergePass(s[1..]);
    }
  }

  /**
   * Soundness of the pass: every cell it changes belongs to a merged pair,
   * either as the doubled left cell or as the emptied right cell. In
   * particular a cell holding 0 or -1 is never changed.
   */
  lemma {:induction false} MergeOnlyPairs(s: Row)
    ensures forall i :: 0 <= i < |s| && MergePass(s)[i] != s[i] ==>
              MergedAt(s, MergePass(s), i) || MergedAt(s, MergePass(s), i - 1)
  {
    var r := MergePass(s);
    if |s| < 2 {
    } else if s[0] > 0 && s[0] == s[1] {
      var t := s[2..];
      MergeHead(s);
      MergeOnlyPairs(t);
      var rt := MergePass(t);
      forall i | 2 <= i < |s| && r[i] != s[i]
        ensures MergedAt(s, r, i) || MergedAt(s, r, i - 1)
      {
        assert r[i] == rt[i - 2] && s[i] == t[i - 2];
        assert MergedAt(t, rt, i - 2) || MergedAt(t, rt, i - 3);
        if MergedAt(t, rt, i - 2) {
          assert r[i + 1] == rt[i - 1] && s[i + 1] == t[i - 1];
        } else {
          assert r[i - 1] == rt[i - 3] && s[i - 1] == t[i - 3];
        }
      }
    } else {
      var u := s[1..];
      MergeOnlyPairs(u);
      var ru := MergePass(u);
      assert r == [s[0]] + ru;
      forall i | 1 <= i < |s| && r[i] != s[i]
        ensures MergedAt(s, r, i) || MergedAt(s, r, i - 1)
      {
        assert r[i] == ru[i - 1] && s[i] == u[i - 1];
        assert MergedAt(u, ru, i - 1) || MergedAt(u, ru, i - 2);
        if MergedAt(u, ru, i - 1) {
          assert r[i + 1] == ru[i] && s[i + 1] == u[i];
        } else {
          assert r[i - 1] == ru[i - 2] && s[i - 1] == u[i - 2];
        }
      }
    }
  }

  /**
   * Completeness of the pass: a positive cell equal to its right neighbour
   * is merged unless the pass has just emptied it as the right half of the
   * pair before. So [2, 2, 2] merges once and [2, 2, 2, 2] twice.
   */
  lemma {:induction false} MergeGreedy(s: Row)
    ensures forall i :: (0 <= i && i + 1 < |s| && s[i] > 0 && s[i] == s[i + 1] &&
                         !MergedAt(s, MergePass(s), i - 1)) ==> MergedAt(s, MergePass(s), i)
  {
    var r := MergePass(s);
    if |s| < 2 {
    } else if s[0] > 0 && s[0] == s[1] {
      var t := s[2..];
      MergeHead(s);
      MergeGreedy(t);
      var rt := MergePass(t);
      forall i | 2 <= i && i + 1 < |s| && s[i] > 0 && s[i] == s[i + 1] && !MergedAt(s, r, i - 1)
        ensures MergedAt(s, r, i)
      {
        assert r[i] == rt[i - 2] && s[i] == t[i - 2];
        assert r[i + 1] == rt[i - 1] && s[i + 1] == t[i - 1];
        if i > 2 {
          assert r[i - 1] == rt[i - 3] && s[i - 1] == t[i - 3];
          assert !MergedAt(t, rt, i - 3);
        }
        assert MergedAt(t, rt, i - 2);
      }
    } else {
      var u := s[1..];
      MergeGreedy(u);
      var ru := MergePass(u);
      assert r == [s[0]] + ru;
      forall i | 1 <= i && i + 1 < |s| && s[i] > 0 && s[i] == s[i + 1] && !MergedAt(s, r, i - 1)
        ensures MergedAt(s, r, i)
      {
        assert r[i] == ru[i - 1] && s[i] == u[i - 1];
        assert r[i + 1] == ru[i] && s[i + 1] == u[i];
        if i > 1 {
          assert r[i - 1] == ru[i - 2] && s[i - 1] == u[i - 2];
          assert !MergedAt(u, ru, i - 2);
        }
        assert MergedAt(u, ru, i - 1);
      }
    }
  }

  /** A row without a mergeable pair passes through unchanged and scores nothing. */
  lemma MergeNoPairIsIdentity(s: Row)
    requires forall i :: 0 <= i < |s| - 1 ==> !(s[i] > 0 && s[i] == s[i + 1])
    ensures MergePass(s) == s && MergeGain(s) == 0
  {
    MergeOnlyPairs(s);
    var r := MergePass(s);
    assert forall i :: 0 <= i < |s| ==> r[i] == s[i];
    MergeGainIsRewrittenSum(s);
    RewrittenSumSame(s);
  }

  lemma {:induction false} RewrittenSumSame(s: Row)
    ensures RewrittenSum(s, s) == 0
  {
    if |s| > 0 {
      RewrittenSumSame(s[1..]);
    }
  }

  /** The pass never adds a tile, and every merge removes one. */
  lemma {:induction false} MergeTiles(s: Row)
    ensures |NonZero(MergePass(s))| <= |NonZero(s)|
    ensures MergeGain(s) > 0 ==> |NonZero(MergePass(s))| < |NonZero(s)|
  {
    if |s| < 2 {
    } else if s[0] > 0 && s[0] == s[1] {
      var t := s[2..];
      MergeHead(s);
      MergeTiles(t);
      var r := MergePass(s);
      assert r[1..][1..] == MergePass(t);
      assert |NonZero(r)| == 1 + |NonZero(MergePass(t))|;
      assert s[1..][1..] == t;
      assert |NonZero(s)| == 2 + |NonZero(t)|;
    } else {
      MergeTiles(s[1..]);
      assert MergePass(s)[1..] == MergePass(s[1..]);
    }
  }

  /** A pass that changes the row scores. */
  lemma {:induction false} MergeChangedScores(s: Row)
    ensures MergePass(s) != s ==> MergeGain(s) > 0
  {
    if |s| < 2 {
    } else if s[0] > 0 && s[0] == s[1] {
    } else {
      MergeChangedScores(s[1..]);
      assert MergePass(s) == [s[0]] + MergePass(s[1..]);
      assert s == [s[0]] + s[1..];
    }
  }

  /** A row holding a mergeable pair is changed by the pass. */
  lemma MergeFindsPair(s: Row, i: int)
    requires 0 <= i < |s| - 1 && s[i] > 0 && s[i] == s[i + 1]
    ensures MergePass(s) != s
  {
    MergeGreedy(s);
    var r := MergePass(s);
    if MergedAt(s, r, i - 1) {
      assert r[i - 1] != s[i - 1];
    } else {
      assert r[i] != s[i];
    }
  }

  /** A pass that leaves no empty cell merged nothing. */
  lemma {:induction false} MergeNoRoomIsIdentity(s: Row)
    requires 0 !in MergePass(s)
    ensures MergePass(s) == s
  {
    if |s| < 2 {
    } else if s[0] > 0 && s[0] == s[1] {
      MergeHead(s);
    } else {
      assert MergePass(s) == [s[0]] + MergePass(s[1..]);
      MergeNoRoomIsIdentity(s[1..]);
    }
  }

  /** The pass neither creates nor destroys a cell holding a negative value. */
  lemma {:induction false} MergeCount(s: Row, x: int)
    requires x < 0
    ensures multiset(MergePass(s))[x] == multiset(s)[x]
  {
    if |s| < 2 {
    } else if s[0] > 0 && s[0] == s[1] {
      MergeCount(s[2..], x);
      MergeCountPair(s, x);
    } else {
      MergeCount(s[1..], x);
      MergeCountKeep(s, x);
    }
  }

  lemma MergeCountPair(s: Row, x: int)
    requires x < 0 && |s| >= 2 && s[0] > 0 && s[0] == s[1]
    ensures multiset(MergePass(s))[x] == multiset(MergePass(s[2..]))[x]
    ensures multiset(s)[x] == multiset(s[2..])[x]
  {
    var t := s[2..];
    MergeHead(s);
    assert multiset(MergePass(s)) == multiset([2 * s[0], 0]) + multiset(MergePass(t));
    assert s == [s[0], s[1]] + t;
    assert multiset(s) == multiset([s[0], s[1]]) + multiset(t);
  }

  lemma MergeCountKeep(s: Row, x: int)
    requires |s| >= 2 && !(s[0] > 0 && s[0] == s[1])
    ensures multiset(MergePass(s)) == multiset([s[0]]) + multiset(MergePass(s[1..]))
    ensures multiset(s) == multiset([s[0]]) + multiset(s[1..])
  {
    assert MergePass(s) == [s[0]] + MergePass(s[1..]);
    assert s == [s[0]] + s[1..];
  }

  // ---------------------------------------------------------------------
  // One row of move_left (game2048.py:41-47)
  // ---------------------------------------------------------------------

  /** compress, then merge, then compress again. */
  function MoveRow(row: Row, size: nat): (r: Row)
    ensures |row| <= size ==> |r| == size
  {
    Compress(MergePass(Compress(row, size)), size)
  }

  /** The score the row earns in move_left. */
  function RowGain(row: Row, size: nat): (g: int)
    ensures g >= 0
  {
    MergeGain(Compress(row, size))
  }

  /** A move keeps the row sum and never adds a tile. */
  lemma MoveRowKeepsSumAndTiles(row: Row, size: nat)
    ensures Sum(MoveRow(row, size)) == Sum(row)
    ensures |NonZero(MoveRow(row, size))| <= |NonZero(row)|
  {
    var c := Compress(row, size);
    CompressSum(row, size);
    MergeSum(c);
    CompressSum(MergePass(c), size);
    MergeTiles(c);
  }

  /** Blocked cells (any negative value) slide but are never created or destroyed. */
  lemma MoveRowCount(row: Row, size: nat, x: int)
    requires x < 0
    ensures multiset(MoveRow(row, size))[x] == multiset(row)[x]
  {
    var c := Compress(row, size);
    CompressCount(row, size, x);
    MergeCount(c, x);
    CompressCount(MergePass(c), size, x);
  }

  /** A row that earns score changes; so a row that does not change earns nothing. */
  lemma MoveRowScoringChanges(row: Row, size: nat)
    ensures RowGain(row, size) > 0 ==> MoveRow(row, size) != row
  {
    MergeTiles(Compress(row, size));
  }

  /** A full row without a mergeable pair stays as it is and scores nothing. */
  lemma MoveRowStuck(row: Row, size: nat)
    requires |row| == size && 0 !in row
    requires forall c :: 0 <= c < size - 1 ==> !(row[c] > 0 && row[c] == row[c + 1])
    ensures MoveRow(row, size) == row && RowGain(row, size) == 0
  {
    NonZeroFixed(row);
    assert Compress(row, size) == row + Zeros(0) == row;
    MergeNoPairIsIdentity(row);
  }

  /** A full row holding a mergeable pair changes. */
  lemma MoveRowWithPair(row: Row, size: nat, c: int)
    requires |row| == size && 0 !in row
    requires 0 <= c < size - 1 && row[c] > 0 && row[c] == row[c + 1]
    ensures MoveRow(row, size) != row
  {
    NonZeroFixed(row);
    assert Compress(row, size) == row + Zeros(0) == row;
    MergeFindsPair(row, c);
    MergeChangedScores(row);
    MoveRowScoringChanges(row, size);
  }

  /** A row that changes ends with at least one empty cell. */
  lemma MovedRowHasRoom(row: Row, size: nat)
    requires |row| == size && MoveRow(row, size) != row
    ensures 0 in MoveRow(row, size)
  {
    var c := Compress(row, size);
    var m := MergePass(c);
    if 0 !in MoveRow(row, size) {
      CompressFullIsIdentity(m, size);
      MergeNoRoomIsIdentity(c);
      CompressFullIsIdentity(row, size);
      assert false;
    }
  }

  // ---------------------------------------------------------------------
  // Worked rows
  // ---------------------------------------------------------------------

  /** [2, 2, 2, 2]: one pass gives [4, 0, 4, 0] and 8 points, not [8, 0, 0, 0]. */
  lemma MergeFourEqual()
    ensures MergePass([2, 2, 2, 2]) == [4, 0, 4, 0]
    ensures MergeGain([2, 2, 2, 2]) == 8
    ensures MoveRow([2, 2, 2, 2], 4) == [4, 4, 0, 0]
  {
    MergeHead([2, 2, 2, 2]);
    MergeHead([2, 2]);
    assert [2, 2, 2, 2][2..] == [2, 2];
    assert NonZero([2, 2, 2, 2]) == [2, 2, 2, 2] by { NonZeroFixed([2, 2, 2, 2]); }
    assert Compress([2, 2, 2, 2], 4) == [2, 2, 2, 2];
    CompressUnique([4, 0, 4, 0], 4, [4, 4, 0, 0]);
  }

  /** [2, 2, 4, 0] moves to [4, 4, 0, 0]: the new 4 does not join the old one. */
  lemma MoveRowMergesOnce()
    ensures MoveRow([2, 2, 4, 0], 4) == [4, 4, 0, 0]
  {
    CompressUnique([2, 2, 4, 0], 4, [2, 2, 4, 0]);
    MergeHead([2, 2, 4, 0]);
    assert [2, 2, 4, 0][2..] == [4, 0];
    assert MergePass([2, 2, 4, 0]) == [4, 0, 4, 0];
    CompressUnique([4, 0, 4, 0], 4, [4, 4, 0, 0]);
  }

  /** [4, 4, 0, 0] moves to [8, 0, 0, 0]. */
  lemma MoveRowMergesFours()
    ensures MoveRow([4, 4, 0, 0], 4) == [8, 0, 0, 0]
  {
    CompressUnique([4, 4, 0, 0], 4, [4, 4, 0, 0]);
    MergeHead([4, 4, 0, 0]);
    assert [4, 4, 0, 0][2..] == [0, 0];
    assert MergePass([4, 4, 0, 0]) == [8, 0, 0, 0];
    CompressUnique([8, 0, 0, 0], 4, [8, 0, 0, 0]);
  }

  /**
   * A second move to the left can change a row again: [2, 2, 4, 0] becomes
   * [4, 4, 0, 0], which becomes [8, 0, 0, 0], so a move is not idempotent.
   */
  lemma MoveRowNotIdempotent()
    ensures MoveRow([2, 2, 4, 0], 4) == [4, 4, 0, 0]
    ensures MoveRow(MoveRow([2, 2, 4, 0], 4), 4) != MoveRow([2, 2, 4, 0], 4)
  {
    MoveRowMergesOnce();
    MoveRowMergesFours();
  }

  // ---------------------------------------------------------------------
  // Cell values: every cell is empty, blocked or a tile
  // ---------------------------------------------------------------------

  /** v is 2, 4, 8, ...: the value of a tile. */
  predicate IsPowerOfTwo(v: int)
    decreases v
  {
    v == 2 || (v > 2 && v % 2 == 0 && IsPowerOfTwo(v / 2))
  }

  /** A value a cell can hold: empty (0), blocked (-1) or a tile. */
  predicate IsCellValue(v: int)
  {
    v == 0 || v == -1 || IsPowerOfTwo(v)
  }

  /** Every cell of the row holds a cell value. */
  predicate CellValues(s: Row)
  {
    forall i :: 0 <= i < |s| ==> IsCellValue(s[i])
  }

  /** Doubling a tile gives a tile. */
  lemma DoubleIsPowerOfTwo(v: int)
    requires IsPowerOfTwo(v)
    ensures IsPowerOfTwo(2 * v)
  {
    assert (2 * v) / 2 == v;
  }

  /** The non-empty cells of a row of cell values are cell values. */
  lemma {:induction false} NonZeroKeepsCellValues(s: Row)
    requires CellValues(s)
    ensures CellValues(NonZero(s))
  {
    if |s| > 0 {
      NonZeroKeepsCellValues(s[1..]);
    }
  }

  /** compress only moves cells and adds empty ones. */
  lemma CompressKeepsCellValues(row: Row, size: nat)
    requires CellValues(row)
    ensures CellValues(Compress(row, size))
  {
    NonZeroKeepsCellValues(row);
  }

  /** The merge pass turns a pair of equal tiles into a tile of twice the value and an empty cell. */
  lemma {:induction false} MergeKeepsCellValues(s: Row)
    requires CellValues(s)
    ensures CellValues(MergePass(s))
    decreases |s|
  {
    if |s| < 2 {
    } else if s[0] > 0 && s[0] == s[1] {
      var t := [0] + s[2..];
      assert CellValues(t);
      MergeKeepsCellValues(t);
      DoubleIsPowerOfTwo(s[0]);
      assert MergePass(s) == [2 * s[0]] + MergePass(t);
    } else {
      MergeKeepsCellValues(s[1..]);
      assert MergePass(s) == [s[0]] + MergePass(s[1..]);
    }
  }

  /** Moving a row left keeps every cell empty, blocked or a tile. */
  lemma MoveRowKeepsCellValues(row: Row, size: nat)
    requires CellValues(row)
    ensures CellValues(MoveRow(row, size))
  {
    CompressKeepsCellValues(row, size);
    MergeKeepsCellValues(Compress(row, size));
    CompressKeepsCellValues(MergePass(Compress(row, size)), size);
  }
}
