/** Row-level rules of a sliding move: a row is compacted (its zeros removed), equal
    neighbours are merged in one left-to-right pass, and the result is padded with zeros
    back to the row's length. All four directions reduce to this leftward slide. */
module Rows {

  /** 1, 2, 4, 8, ... */
  predicate PowerOfTwo(v: int)
  {
    v == 1 || (v > 1 && v % 2 == 0 && PowerOfTwo(v / 2))
  }

  /** A cell value: 0 for an empty cell, otherwise a power of two of at least 2. */
  predicate IsTile(v: int)
  {
    v == 0 || (v >= 2 && PowerOfTwo(v))
  }

  predicate AllTiles(s: seq<int>)
  {
    forall k :: 0 <= k < |s| ==> IsTile(s[k])
  }

  predicate AllNonZero(s: seq<int>)
  {
    forall k :: 0 <= k < |s| ==> s[k] != 0
  }

  predicate AllPositive(s: seq<int>)
  {
    forall k :: 0 <= k < |s| ==> s[k] > 0
  }

  /** No two neighbours are equal. */
  predicate NoPair(s: seq<int>)
  {
    forall k :: 0 <= k < |s| - 1 ==> s[k] != s[k + 1]
  }

  function Sum(s: seq<int>): int
  {
    if s == [] then 0 else s[0] + Sum(s[1..])
  }

  function Zeros(k: nat): (z: seq<int>)
    ensures |z| == k && forall i :: 0 <= i < k ==> z[i] == 0
  {
    seq(k, _ => 0)
  }

  /** The nonzero entries of `row`, in their original order (the row's `filter(val => val !== 0)`). */
  function Compact(row: seq<int>): (c: seq<int>)
    ensures |c| <= |row|
    ensures AllNonZero(c)
  {
    if row == [] then []
    else
      if row[0] == 0 then Compact(row[1..])
      else [row[0]] + Compact(row[1..])
  }

  /** One left-to-right pass over a compacted row: an element equal to its right neighbour
      merges with it into one element of twice the value and the pass resumes after the pair,
      so a produced element never merges again in the same pass. */
  function Merge(c: seq<int>): (m: seq<int>)
    ensures |m| <= |c|
  {
    if |c| == 0 then []
    else if 1 < |c| && c[0] == c[1] then [2 * c[0]] + Merge(c[2..])
    else [c[0]] + Merge(c[1..])
  }

  /** The points a merge pass scores: the sum of the doubled values it produces. */
  function MergeGain(c: seq<int>): int
  {
    if |c| == 0 then 0
    else if 1 < |c| && c[0] == c[1] then 2 * c[0] + MergeGain(c[2..])
    else MergeGain(c[1..])
  }

  /** One step of the merge pass from position j: a pair at j merges, anything else is
      kept, and the pass goes on after what it consumed. */
  lemma MergeStep(c: seq<int>, j: nat)
    requires j < |c|
    ensures j + 1 < |c| && c[j] == c[j + 1] ==>
              Merge(c[j..]) == [2 * c[j]] + Merge(c[j + 2..]) &&
              MergeGain(c[j..]) == 2 * c[j] + MergeGain(c[j + 2..])
    ensures !(j + 1 < |c| && c[j] == c[j + 1]) ==>
              Merge(c[j..]) == [c[j]] + Merge(c[j + 1..]) &&
              MergeGain(c[j..]) == MergeGain(c[j + 1..])
  {
    assert c[j..][1..] == c[j + 1..];
    if j + 1 < |c| {
      assert c[j..][2..] == c[j + 2..];
    }
  }

  /** The merge pass resumed at j after producing `done`: one more step keeps `done`
      followed by the rest of the pass equal to the whole pass. */
  lemma MergeResume(c: seq<int>, j: nat, done: seq<int>)
    requires j < |c| && done + Merge(c[j..]) == Merge(c)
    ensures j + 1 < |c| && c[j] == c[j + 1] ==>
              (done + [2 * c[j]]) + Merge(c[j + 2..]) == Merge(c) &&
              MergeGain(c[j..]) == 2 * c[j] + MergeGain(c[j + 2..])
    ensures !(j + 1 < |c| && c[j] == c[j + 1]) ==>
              (done + [c[j]]) + Merge(c[j + 1..]) == Merge(c) &&
              MergeGain(c[j..]) == MergeGain(c[j + 1..])
  {
    MergeStep(c, j);
    if j + 1 < |c| && c[j] == c[j + 1] {
      assert (done + [2 * c[j]]) + Merge(c[j + 2..]) == done + ([2 * c[j]] + Merge(c[j + 2..]));
    } else {
      assert (done + [c[j]]) + Merge(c[j + 1..]) == done + ([c[j]] + Merge(c[j + 1..]));
    }
  }

  /** `m` followed by zeros up to length `n`; a longer `m` is left as it is. */
  function Pad(m: seq<int>, n: nat): (p: seq<int>)
    ensures |p| == if |m| < n then n else |m|
  {
    if |m| < n then m + Zeros(n - |m|) else m
  }

  /** The row after a leftward slide. */
  function SlideRow(row: seq<int>): (r: seq<int>)
    ensures |r| == |row|
  {
    Pad(Merge(Compact(row)), |row|)
  }

  /** The points scored by sliding `row` to the left. */
  function RowGain(row: seq<int>): int
  {
    MergeGain(Compact(row))
  }

  /** A row that a leftward slide leaves alone: its zeros all sit to the right of its
      tiles, and no tile equals its right neighbour. */
  predicate Settled(row: seq<int>)
  {
    && (forall i, j :: 0 <= i < j < |row| && row[i] == 0 ==> row[j] == 0)
    && (forall k :: 0 <= k < |row| - 1 && row[k] != 0 ==> row[k] != row[k + 1])
  }

  // ---------------------------------------------------------------------------
  // Sums

  lemma {:induction false} SumAppend(a: seq<int>, b: seq<int>)
    ensures Sum(a + b) == Sum(a) + Sum(b)
  {
    if a == [] {
      assert a + b == b;
    } else {
      assert (a + b)[1..] == a[1..] + b;
      SumAppend(a[1..], b);
    }
  }

  lemma {:induction false} SumZeros(k: nat)
    ensures Sum(Zeros(k)) == 0
  {
    if k > 0 {
      assert Zeros(k)[1..] == Zeros(k - 1);
      SumZeros(k - 1);
    }
  }

  /** Reordering a sequence does not change its sum. */
  lemma {:induction false} SumOfPermutation(a: seq<int>, b: seq<int>)
    requires multiset(a) == multiset(b)
    ensures Sum(a) == Sum(b)
  {
    if a == [] {
      assert |b| == |multiset(b)| == 0;
    } else {
      var x := a[0];
      assert a == [x] + a[1..];
      assert x in multiset(b);
      var k :| 0 <= k < |b| && b[k] == x;
      var rest := b[..k] + b[k + 1..];
      assert b == b[..k] + [x] + b[k + 1..];
      assert b[..k] + [x] + b[k + 1..] == b[..k] + ([x] + b[k + 1..]);
      assert multiset(rest) == multiset(b) - multiset{x};
      assert multiset(a[1..]) == multiset(a) - multiset{x};
      SumOfPermutation(a[1..], rest);
      SumAppend(b[..k], [x] + b[k + 1..]);
      SumAppend(b[..k], b[k + 1..]);
    }
  }

  /** Compaction keeps every nonzero value with its multiplicity and drops the zeros. */
  lemma {:induction false} CompactCells(row: seq<int>)
    ensures multiset(Compact(row)) == multiset(row)[0 := 0]
  {
    if row != [] {
      CompactCells(row[1..]);
      assert row == [row[0]] + row[1..];
    }
  }

  lemma {:induction false} CompactSum(row: seq<int>)
    ensures Sum(Compact(row)) == Sum(row)
  {
    if row != [] {
      CompactSum(row[1..]);
    }
  }

  /** A merge pass keeps the row's sum: two equal values v, v become 2 * v. */
  lemma {:induction false} MergeSum(c: seq<int>)
    ensures Sum(Merge(c)) == Sum(c)
  {
    if |c| == 0 {
    } else if 1 < |c| && c[0] == c[1] {
      MergeSum(c[2..]);
      assert c[1..][1..] == c[2..];
    } else {
      MergeSum(c[1..]);
    }
  }

  lemma SumPad(m: seq<int>, n: nat)
    ensures Sum(Pad(m, n)) == Sum(m)
  {
    if |m| < n {
      SumAppend(m, Zeros(n - |m|));
      SumZeros(n - |m|);
    }
  }

  /** Sliding a row keeps the sum of its tile values. */
  lemma SlideRowSum(row: seq<int>)
    ensures Sum(SlideRow(row)) == Sum(row)
  {
    var c := Compact(row);
    CompactSum(row);
    MergeSum(c);
    SumPad(Merge(c), |row|);
  }

  // ---------------------------------------------------------------------------
  // What a merge pass produces

  lemma {:induction false} MergeNonZero(c: seq<int>)
    requires AllNonZero(c)
    ensures AllNonZero(Merge(c))
  {
    if |c| == 0 {
    } else if 1 < |c| && c[0] == c[1] {
      MergeNonZero(c[2..]);
    } else {
      MergeNonZero(c[1..]);
    }
  }

  lemma {:induction false} MergePositive(c: seq<int>)
    requires AllPositive(c)
    ensures AllPositive(Merge(c))
  {
    if |c| == 0 {
    } else if 1 < |c| && c[0] == c[1] {
      MergePositive(c[2..]);
    } else {
      MergePositive(c[1..]);
    }
  }

  lemma DoubleTile(v: int)
    requires IsTile(v)
    ensures IsTile(2 * v)
  {
    assert (2 * v) / 2 == v;
  }

  /** A merge pass only produces tile values from tile values. */
  lemma {:induction false} MergeTiles(c: seq<int>)
    requires AllTiles(c)
    ensures AllTiles(Merge(c))
  {
    if |c| == 0 {
    } else if 1 < |c| && c[0] == c[1] {
      DoubleTile(c[0]);
      MergeTiles(c[2..]);
    } else {
      MergeTiles(c[1..]);
    }
  }

  /** A merge pass changes its input exactly when the input has two equal neighbours, and
      then it shortens it. */
  lemma {:induction false} MergeIdentity(c: seq<int>)
    ensures Merge(c) == c <==> NoPair(c)
    ensures Merge(c) == c <==> |Merge(c)| == |c|
  {
    if |c| == 0 {
    } else if 1 < |c| && c[0] == c[1] {
      assert !NoPair(c);
      assert |Merge(c)| < |c|;
    } else {
      MergeIdentity(c[1..]);
      assert c == [c[0]] + c[1..];
      if 1 < |c| {
        assert NoPair(c) <==> NoPair(c[1..]);
      }
    }
  }

  /** The points of one pass are not negative, and are zero exactly when nothing merges. */
  lemma {:induction false} MergeGainSign(c: seq<int>)
    requires AllPositive(c)
    ensures MergeGain(c) >= 0
    ensures MergeGain(c) == 0 <==> NoPair(c)
  {
    if |c| == 0 {
    } else if 1 < |c| && c[0] == c[1] {
      MergeGainSign(c[2..]);
    } else {
      MergeGainSign(c[1..]);
      if 1 < |c| {
        assert NoPair(c) <==> NoPair(c[1..]);
      }
    }
  }

  /** Sliding a row scores no points (never negative) exactly when the compacted row has no
      two equal neighbours. */
  lemma RowGainSign(row: seq<int>)
    requires AllTiles(row)
    ensures RowGain(row) >= 0
    ensures RowGain(row) == 0 <==> NoPair(Compact(row))
  {
    var c := Compact(row);
    CompactCells(row);
    forall k | 0 <= k < |c|
      ensures c[k] > 0
    {
      assert c[k] in multiset(c);
      assert c[k] in multiset(row);
    }
    MergeGainSign(c);
  }

  // ---------------------------------------------------------------------------
  // Compaction

  lemma {:induction false} CompactAppend(a: seq<int>, b: seq<int>)
    ensures Compact(a + b) == Compact(a) + Compact(b)
  {
    if a == [] {
      assert a + b == b;
    } else {
      assert (a + b)[1..] == a[1..] + b;
      CompactAppend(a[1..], b);
    }
  }

  lemma {:induction false} CompactNonZero(s: seq<int>)
    requires AllNonZero(s)
    ensures Compact(s) == s
  {
    if s != [] {
      CompactNonZero(s[1..]);
    }
  }

  lemma {:induction false} CompactZeros(k: nat)
    ensures Compact(Zeros(k)) == []
  {
    if k > 0 {
      assert Zeros(k)[1..] == Zeros(k - 1);
      CompactZeros(k - 1);
    }
  }

  lemma CompactPad(m: seq<int>, n: nat)
    requires AllNonZero(m)
    ensures Compact(Pad(m, n)) == m
  {
    CompactNonZero(m);
    if |m| < n {
      CompactAppend(m, Zeros(n - |m|));
      CompactZeros(n - |m|);
    }
  }

  /** Compacting the slid row gives back exactly what the merge pass produced. */
  lemma CompactSlideRow(row: seq<int>)
    ensures Compact(SlideRow(row)) == Merge(Compact(row))
  {
    MergeNonZero(Compact(row));
    CompactPad(Merge(Compact(row)), |row|);
  }

  /** Whenever a merge happens the row changes; so the merge flag of the source's loop
      adds nothing to the "row differs" test. */
  lemma MergeMovesRow(row: seq<int>)
    requires |Merge(Compact(row))| < |Compact(row)|
    ensures SlideRow(row) != row
  {
    if SlideRow(row) == row {
      CompactSlideRow(row);
    }
  }

  // ---------------------------------------------------------------------------
  // The shape of a slid row and when it stays put

  /** The slid row holds the merge pass's output followed only by zeros. */
  lemma SlideRowShape(row: seq<int>)
    ensures |SlideRow(row)| == |row|
    ensures SlideRow(row)[..|Merge(Compact(row))|] == Merge(Compact(row))
    ensures forall k :: |Merge(Compact(row))| <= k < |row| ==> SlideRow(row)[k] == 0
    ensures Settled(SlideRow(row)) || !NoPair(Merge(Compact(row)))
  {
    var c := Compact(row);
    var m := Merge(c);
    MergeNonZero(c);
    if NoPair(m) {
      SettledOfPadded(m, |row|);
    }
  }

  /** In a settled row every cell after an empty one is empty. */
  lemma SettledZeroAfter(row: seq<int>, x: nat, y: nat)
    requires Settled(row) && x < y < |row| && row[x] == 0
    ensures row[y] == 0
  {
  }

  lemma SettledOfPadded(m: seq<int>, n: nat)
    requires AllNonZero(m) && NoPair(m) && |m| <= n
    ensures Settled(Pad(m, n))
  {
  }

  /** Sliding a row keeps every value a tile value. */
  lemma SlideRowTiles(row: seq<int>)
    requires AllTiles(row)
    ensures AllTiles(SlideRow(row))
  {
    var c := Compact(row);
    CompactCells(row);
    forall k | 0 <= k < |c|
      ensures IsTile(c[k])
    {
      assert c[k] in multiset(c);
      assert c[k] in multiset(row);
    }
    MergeTiles(c);
  }

  lemma {:induction false} SettledRowSlides(row: seq<int>)
    requires Settled(row)
    ensures SlideRow(row) == row
  {
    if row == [] {
    } else if row[0] == 0 {
      assert row == Zeros(|row|);
      CompactZeros(|row|);
    } else {
      var tail := row[1..];
      assert Settled(tail);
      SettledRowSlides(tail);
      var ct := Compact(tail);
      assert Compact(row) == [row[0]] + ct;
      if ct != [] {
        // the first tile after row[0] is its right neighbour, which differs from it
        assert tail[0] != 0 by {
          if tail[0] == 0 {
            assert tail == Zeros(|tail|);
            CompactZeros(|tail|);
          }
        }
        assert ct[0] == tail[0];
      }
      var mt := Merge(ct);
      assert Merge(Compact(row)) == [row[0]] + mt;
      assert Pad([row[0]] + mt, |row|) == [row[0]] + Pad(mt, |tail|);
      assert row == [row[0]] + tail;
    }
  }

  /** A leftward slide leaves a row as it is exactly when the row is settled. */
  lemma SlideRowFixed(row: seq<int>)
    ensures SlideRow(row) == row <==> Settled(row)
  {
    if Settled(row) {
      SettledRowSlides(row);
    }
    if SlideRow(row) == row {
      var c := Compact(row);
      CompactSlideRow(row);
      MergeIdentity(c);
      assert Merge(c) == c;
      SettledOfPadded(c, |row|);
    }
  }

  // ---------------------------------------------------------------------------
  // The two worked rows, for any nonzero value a (the source's rows use a = 2)

  /** One step of the filter. */
  lemma CompactCons(x: int, rest: seq<int>)
    ensures Compact([x] + rest) == if x == 0 then Compact(rest) else [x] + Compact(rest)
  {
    assert ([x] + rest)[1..] == rest;
  }

  /** [a, 0, a, a] slides to [2a, a, 0, 0] for 2a points: the leftmost pair merges and
      the third a does not merge again with the 2a just produced. */
  lemma LeftmostPairFirst(a: int)
    requires a != 0
    ensures SlideRow([a, 0, a, a]) == [2 * a, a, 0, 0]
    ensures RowGain([a, 0, a, a]) == 2 * a
  {
    LeftmostPairCompacts(a);
    LeftmostPairMerges(a);
    assert Zeros(2) == [0, 0];
  }

  lemma LeftmostPairCompacts(a: int)
    requires a != 0
    ensures Compact([a, 0, a, a]) == [a, a, a]
  {
    CompactCons(a, []);
    assert [a] + [] == [a];
    CompactCons(a, [a]);
    assert [a] + [a] == [a, a];
    CompactCons(0, [a, a]);
    assert [0] + [a, a] == [0, a, a];
    CompactCons(a, [0, a, a]);
    assert [a] + [0, a, a] == [a, 0, a, a];
  }

  lemma LeftmostPairMerges(a: int)
    requires a != 0
    ensures Merge([a, a, a]) == [2 * a, a]
    ensures MergeGain([a, a, a]) == 2 * a
  {
    assert [a, a, a][2..] == [a] && [a][1..] == [];
    assert Merge([a]) == [a] && MergeGain([a]) == 0;
  }

  /** [a, a, 2a, 0] slides to [2a, 2a, 0, 0] for 2a points: the new 2a does not merge
      with the old one. */
  lemma NoCascade(a: int)
    requires a != 0
    ensures SlideRow([a, a, 2 * a, 0]) == [2 * a, 2 * a, 0, 0]
    ensures RowGain([a, a, 2 * a, 0]) == 2 * a
  {
    NoCascadeCompacts(a);
    NoCascadeMerges(a);
    assert Zeros(2) == [0, 0];
  }

  lemma NoCascadeCompacts(a: int)
    requires a != 0
    ensures Compact([a, a, 2 * a, 0]) == [a, a, 2 * a]
  {
    CompactCons(0, []);
    assert [0] + [] == [0];
    CompactCons(2 * a, [0]);
    assert [2 * a] + [0] == [2 * a, 0];
    CompactCons(a, [2 * a, 0]);
    assert [a] + [2 * a, 0] == [a, 2 * a, 0];
    CompactCons(a, [a, 2 * a, 0]);
    assert [a] + [a, 2 * a, 0] == [a, a, 2 * a, 0];
  }

  lemma NoCascadeMerges(a: int)
    requires a != 0
    ensures Merge([a, a, 2 * a]) == [2 * a, 2 * a]
    ensures MergeGain([a, a, 2 * a]) == 2 * a
  {
    assert [a, a, 2 * a][2..] == [2 * a] && [2 * a][1..] == [];
    assert Merge([2 * a]) == [2 * a] && MergeGain([2 * a]) == 0;
  }
}
