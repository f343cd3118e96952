/**
 * One rank table (`full_time_rank` or `part_time_rank`) as its rows, and the
 * three statements the controller runs against it: reading the greatest
 * rank, deleting the row at a rank, and shifting the ranks above it down.
 * The table is a sequence of rows; its order carries no meaning except where
 * a listing sorts it.
 */
module RankTable {
  import opened Outcomes

  /** A row `(lecturer_id, rank)`. */
  datatype Row = Row(lecturerId: nat, rank: int)

  type Table = seq<Row>

  /** The set of ranks present in a table. */
  function Ranks(t: Table): (s: set<int>)
    ensures forall i :: 0 <= i < |t| ==> t[i].rank in s
  {
    if |t| == 0 then {}
    else
      var rest := Ranks(t[1..]);
      assert forall i :: 1 <= i < |t| ==> t[i].rank in rest by {
        forall i | 1 <= i < |t| ensures t[i].rank in rest {
          assert t[i] == t[1..][i - 1];
        }
      }
      {t[0].rank} + rest
  }

  /** A rank no row carries is not among the table's ranks. */
  lemma {:induction false} RankAbsent(t: Table, k: int)
    requires forall i :: 0 <= i < |t| ==> t[i].rank != k
    ensures k !in Ranks(t)
  {
    if |t| > 0 {
      assert forall i :: 0 <= i < |t[1..]| ==> t[1..][i] == t[i + 1];
      RankAbsent(t[1..], k);
    }
  }

  /** A row that carries a rank present in the table. */
  function RankIndex(t: Table, k: int): (i: nat)
    requires k in Ranks(t)
    ensures i < |t| && t[i].rank == k
  {
    if t[0].rank == k then 0 else 1 + RankIndex(t[1..], k)
  }

  /** The set of lecturer ids present in a table. */
  function Ids(t: Table): (s: set<nat>)
    ensures forall i :: 0 <= i < |t| ==> t[i].lecturerId in s
  {
    if |t| == 0 then {}
    else
      var rest := Ids(t[1..]);
      assert forall i :: 1 <= i < |t| ==> t[i].lecturerId in rest by {
        forall i | 1 <= i < |t| ensures t[i].lecturerId in rest {
          assert t[i] == t[1..][i - 1];
        }
      }
      {t[0].lecturerId} + rest
  }

  /** A row that carries a lecturer id present in the table. */
  function IdIndex(t: Table, id: nat): (i: nat)
    requires id in Ids(t)
    ensures i < |t| && t[i].lecturerId == id
  {
    if t[0].lecturerId == id then 0 else 1 + IdIndex(t[1..], id)
  }

  /** No rank occurs on two rows. */
  predicate DistinctRanks(t: Table) {
    |t| == 0 || (t[0].rank !in Ranks(t[1..]) && DistinctRanks(t[1..]))
  }

  /** No lecturer occurs on two rows. */
  predicate DistinctIds(t: Table) {
    |t| == 0 || (t[0].lecturerId !in Ids(t[1..]) && DistinctIds(t[1..]))
  }

  /** Every rank lies in `1..|t|`. */
  predicate RanksInRange(t: Table) {
    forall i :: 0 <= i < |t| ==> 1 <= t[i].rank <= |t|
  }

  /** The ranks `1..n`. */
  function Interval(n: nat): (s: set<int>)
    ensures forall k :: k in s <==> 1 <= k <= n
  {
    if n == 0 then {} else Interval(n - 1) + {n}
  }

  /** The ledger invariant: the ranks in the table are exactly `1..N`, where
      N is the number of rows. */
  predicate Dense(t: Table) {
    Ranks(t) == Interval(|t|)
  }

  lemma {:induction false} IntervalSize(n: nat)
    ensures |Interval(n)| == n
  {
    if n > 0 {
      IntervalSize(n - 1);
      var prev := Interval(n - 1);
      assert n !in prev;
      assert |prev + {n}| == |prev| + 1;
    }
  }

  /** A table has at most as many ranks as rows, and exactly as many when no
      rank repeats. */
  lemma {:induction false} RanksSize(t: Table)
    ensures |Ranks(t)| <= |t|
    ensures DistinctRanks(t) <==> |Ranks(t)| == |t|
  {
    if |t| > 0 {
      RanksSize(t[1..]);
      if t[0].rank in Ranks(t[1..]) {
        assert Ranks(t) == Ranks(t[1..]);
      }
    }
  }

  /** The same for ids. */
  lemma {:induction false} IdsSize(t: Table)
    ensures |Ids(t)| <= |t|
    ensures DistinctIds(t) <==> |Ids(t)| == |t|
  {
    if |t| > 0 {
      IdsSize(t[1..]);
      if t[0].lecturerId in Ids(t[1..]) {
        assert Ids(t) == Ids(t[1..]);
      }
    }
  }

  /** Density is "no rank repeats and every rank is in `1..N`" (both
      directions, by counting). */
  lemma DenseIff(t: Table)
    ensures Dense(t) <==> DistinctRanks(t) && RanksInRange(t)
  {
    RanksSize(t);
    IntervalSize(|t|);
    if DistinctRanks(t) && RanksInRange(t) {
      assert Ranks(t) <= Interval(|t|) by {
        forall k | k in Ranks(t) ensures k in Interval(|t|) {
          var i := RankIndex(t, k);
        }
      }
      var missing := Interval(|t|) - Ranks(t);
      assert |missing| == 0;
    }
  }

  /** Index form of `DistinctRanks`. */
  lemma {:induction false} DistinctRanksAt(t: Table)
    ensures DistinctRanks(t) <==> forall i, j :: 0 <= i < j < |t| ==> t[i].rank != t[j].rank
  {
    if |t| > 0 {
      DistinctRanksAt(t[1..]);
      if DistinctRanks(t) {
        forall i, j | 0 <= i < j < |t| ensures t[i].rank != t[j].rank {
          assert t[j] == t[1..][j - 1];
          if i > 0 {
            assert t[i] == t[1..][i - 1];
          }
        }
      }
      if forall i, j :: 0 <= i < j < |t| ==> t[i].rank != t[j].rank {
        forall i, j | 0 <= i < j < |t[1..]| ensures t[1..][i].rank != t[1..][j].rank {
          assert t[1..][i] == t[i + 1] && t[1..][j] == t[j + 1];
        }
        forall i | 0 <= i < |t[1..]| ensures t[1..][i].rank != t[0].rank {
          assert t[1..][i] == t[i + 1];
        }
        RankAbsent(t[1..], t[0].rank);
      }
    }
  }

  /** `SELECT rank FROM t ORDER BY rank DESC LIMIT 1`: the greatest rank, or
      nothing when the table is empty. */
  function MaxRank(t: Table): (m: Option<int>)
    ensures m.None? <==> |t| == 0
    ensures m.Some? ==> m.value in Ranks(t)
    ensures m.Some? ==> forall i :: 0 <= i < |t| ==> t[i].rank <= m.value
  {
    if |t| == 0 then None
    else
      var rest := MaxRank(t[1..]);
      assert forall i :: 1 <= i < |t| ==> t[i] == t[1..][i - 1];
      match rest
      case None => Some(t[0].rank)
      case Some(m) => Some(if t[0].rank >= m then t[0].rank else m)
  }

  /** The rank a new lecturer is given: 1 in an empty table, otherwise one
      above the greatest rank present. */
  function NextRank(t: Table): (r: int)
    ensures forall i :: 0 <= i < |t| ==> t[i].rank < r
    ensures |t| == 0 ==> r == 1
    ensures |t| > 0 ==> r - 1 in Ranks(t)
  {
    match MaxRank(t)
    case None => 1
    case Some(m) => m + 1
  }

  /** Appending a row adds its rank and its id and nothing else. */
  lemma {:induction false} AppendRow(t: Table, row: Row)
    ensures Ranks(t + [row]) == Ranks(t) + {row.rank}
    ensures Ids(t + [row]) == Ids(t) + {row.lecturerId}
    ensures DistinctRanks(t + [row]) <==> DistinctRanks(t) && row.rank !in Ranks(t)
    ensures DistinctIds(t + [row]) <==> DistinctIds(t) && row.lecturerId !in Ids(t)
  {
    if |t| > 0 {
      assert (t + [row])[1..] == t[1..] + [row];
      AppendRow(t[1..], row);
    } else {
      assert (t + [row])[1..] == [];
    }
  }

  /** In a dense table the next rank is `N + 1`, and appending a row there
      gives a table whose ranks are exactly `1..N+1`. */
  lemma AppendKeepsDense(t: Table, id: nat)
    requires Dense(t)
    ensures NextRank(t) == |t| + 1
    ensures Ranks(t + [Row(id, NextRank(t))]) == Interval(|t| + 1)
    ensures Dense(t + [Row(id, NextRank(t))])
  {
    var r := NextRank(t);
    if |t| > 0 {
      assert r - 1 <= |t|;
      assert |t| in Ranks(t);
      var i := RankIndex(t, |t|);
      assert r - 1 >= |t|;
    }
    AppendRow(t, Row(id, r));
  }

  /** `DELETE FROM t WHERE rank = r`. */
  function DeleteRank(t: Table, r: int): (t': Table)
    ensures |t'| <= |t|
    ensures forall i :: 0 <= i < |t'| ==> t'[i] in t && t'[i].rank != r
    ensures Ranks(t') == Ranks(t) - {r}
    ensures Ids(t') <= Ids(t)
    ensures r !in Ranks(t) ==> t' == t
    ensures DistinctRanks(t) ==> DistinctRanks(t')
    ensures DistinctIds(t) ==> DistinctIds(t')
    ensures DistinctRanks(t) && r in Ranks(t) ==> |t'| == |t| - 1
  {
    if |t| == 0 then []
    else
      var rest := DeleteRank(t[1..], r);
      if t[0].rank == r then rest
      else
        assert ([t[0]] + rest)[1..] == rest;
        [t[0]] + rest
  }

  /** Every row at another rank survives the delete. */
  lemma {:induction false} DeleteRankKeeps(t: Table, r: int, row: Row)
    requires row in t && row.rank != r
    ensures row in DeleteRank(t, r)
  {
    if t[0] != row {
      assert row in t[1..];
      DeleteRankKeeps(t[1..], r, row);
    }
  }

  /** A row after `UPDATE t SET rank = rank - 1 WHERE rank > r`. */
  function Shift(row: Row, r: int): Row {
    if row.rank > r then row.(rank := row.rank - 1) else row
  }

  /** `UPDATE t SET rank = rank - 1 WHERE rank > r`: every row keeps its
      lecturer and its place; only ranks above `r` drop by one. */
  function ShiftDown(t: Table, r: int): (t': Table)
    ensures |t'| == |t|
    ensures forall i :: 0 <= i < |t| ==> t'[i].lecturerId == t[i].lecturerId
    ensures forall i :: 0 <= i < |t| ==> t[i].rank > r ==> t'[i].rank == t[i].rank - 1
    ensures forall i :: 0 <= i < |t| ==> t[i].rank <= r ==> t'[i] == t[i]
  {
    if |t| == 0 then []
    else
      var rest := ShiftDown(t[1..], r);
      assert forall i :: 1 <= i < |t| ==> t[i] == t[1..][i - 1] && ([Shift(t[0], r)] + rest)[i] == rest[i - 1];
      [Shift(t[0], r)] + rest
  }

  /** Shifting changes ranks only: the lecturers in the table stay the same. */
  lemma {:induction false} ShiftDownKeepsIds(t: Table, r: int)
    ensures Ids(ShiftDown(t, r)) == Ids(t)
    ensures DistinctIds(t) ==> DistinctIds(ShiftDown(t, r))
  {
    if |t| > 0 {
      var t' := ShiftDown(t, r);
      assert t'[1..] == ShiftDown(t[1..], r);
      ShiftDownKeepsIds(t[1..], r);
    }
  }

  /** What `deleteLecturer` does to the rank table it picked: the row at rank
      `r` goes and every rank above `r` closes the gap. */
  function Remove(t: Table, r: int): Table {
    ShiftDown(DeleteRank(t, r), r)
  }

  /** Rows below `r` survive `Remove` unchanged. */
  lemma RemoveKeepsLower(t: Table, r: int, row: Row)
    requires row in t && row.rank < r
    ensures row in Remove(t, r)
  {
    var d := DeleteRank(t, r);
    DeleteRankKeeps(t, r, row);
    var i :| 0 <= i < |d| && d[i] == row;
    assert Remove(t, r)[i] == row;
  }

  /** Rows above `r` come out of `Remove` one rank lower. */
  lemma RemoveLowersUpper(t: Table, r: int, row: Row)
    requires row in t && row.rank > r
    ensures Row(row.lecturerId, row.rank - 1) in Remove(t, r)
  {
    var d := DeleteRank(t, r);
    DeleteRankKeeps(t, r, row);
    var i :| 0 <= i < |d| && d[i] == row;
    assert Remove(t, r)[i] == Row(row.lecturerId, row.rank - 1);
  }

  /** Every row `Remove` leaves is a row below `r`, or a row above `r` moved
      down by one. */
  lemma RemoveAddsNothing(t: Table, r: int, row: Row)
    requires row in Remove(t, r)
    ensures (row.rank < r && row in t) || (row.rank >= r && Row(row.lecturerId, row.rank + 1) in t)
  {
    var d := DeleteRank(t, r);
    var s := Remove(t, r);
    var i :| 0 <= i < |s| && s[i] == row;
    assert d[i] in t;
    if d[i].rank > r {
      assert d[i] == Row(row.lecturerId, row.rank + 1);
    } else {
      assert d[i] == row;
    }
  }

  /** The effect of `Remove`, row by row: rows below `r` stay as they are,
      rows above `r` move down by exactly one, rows at `r` are gone, and no
      other row appears. */
  lemma RemoveEffect(t: Table, r: int)
    ensures |Remove(t, r)| <= |t|
    ensures forall row :: row in t && row.rank < r ==> row in Remove(t, r)
    ensures forall row :: row in t && row.rank > r ==> Row(row.lecturerId, row.rank - 1) in Remove(t, r)
    ensures forall row :: row in Remove(t, r) ==>
      (row.rank < r && row in t) || (row.rank >= r && Row(row.lecturerId, row.rank + 1) in t)
  {
    forall row | row in t && row.rank < r ensures row in Remove(t, r) {
      RemoveKeepsLower(t, r, row);
    }
    forall row | row in t && row.rank > r ensures Row(row.lecturerId, row.rank - 1) in Remove(t, r) {
      RemoveLowersUpper(t, r, row);
    }
    forall row | row in Remove(t, r)
      ensures (row.rank < r && row in t) || (row.rank >= r && Row(row.lecturerId, row.rank + 1) in t)
    {
      RemoveAddsNothing(t, r, row);
    }
  }

  /** Removing a rank that is present keeps a dense table dense, one row
      shorter. */
  lemma RemoveKeepsDense(t: Table, r: int)
    requires Dense(t)
    requires r in Ranks(t)
    ensures |Remove(t, r)| == |t| - 1
    ensures Ranks(Remove(t, r)) == Interval(|t| - 1)
    ensures Dense(Remove(t, r))
  {
    DenseIff(t);
    var d := DeleteRank(t, r);
    var s := ShiftDown(d, r);
    assert 1 <= r <= |t|;
    assert |d| == |t| - 1;
    forall i | 0 <= i < |d| ensures 1 <= d[i].rank <= |t| && d[i].rank != r {
      assert d[i] in t;
    }
    assert RanksInRange(s);
    DistinctRanksAt(d);
    DistinctRanksAt(s);
    DenseIff(s);
  }

  /** The edge case of a lecturer holding no rank: `deleteLecturer` then
      removes rank 0, which matches no row of a dense table, and shifts every
      row down, leaving a row at rank 0. */
  lemma RemoveZeroBreaksDense(t: Table)
    requires Dense(t) && |t| > 0
    ensures |Remove(t, 0)| == |t|
    ensures 0 in Ranks(Remove(t, 0))
    ensures !Dense(Remove(t, 0))
  {
    assert 0 !in Ranks(t);
    assert 1 in Ranks(t);
    var i := RankIndex(t, 1);
    assert Remove(t, 0)[i].rank == 0;
  }

  /** `LEFT OUTER JOIN ... ON l.id = t.lecturer_id` read with `getInt`: the
      rank of the lecturer's row, or 0 (a SQL NULL) when it has none. */
  function RankOf(t: Table, id: nat): (r: int)
    ensures id !in Ids(t) ==> r == 0
    ensures id in Ids(t) ==> Row(id, r) in t
  {
    if |t| == 0 then 0
    else if t[0].lecturerId == id then t[0].rank
    else RankOf(t[1..], id)
  }

  /** With no repeated lecturer, the join reads back the rank of the
      lecturer's own row. */
  lemma {:induction false} RankOfRow(t: Table, row: Row)
    requires DistinctIds(t)
    requires row in t
    ensures RankOf(t, row.lecturerId) == row.rank
  {
    if t[0] != row {
      assert row in t[1..];
      var j :| 0 <= j < |t[1..]| && t[1..][j] == row;
      assert row.lecturerId in Ids(t[1..]);
      RankOfRow(t[1..], row);
    }
  }

  /** When the lecturer's row is the only one at its rank and the only one
      for its lecturer, deleting that rank takes exactly that lecturer out. */
  lemma {:induction false} DeleteRankDropsId(t: Table, id: nat, r: int)
    requires DistinctRanks(t) && DistinctIds(t)
    requires Row(id, r) in t
    ensures Ids(DeleteRank(t, r)) == Ids(t) - {id}
  {
    if t[0] == Row(id, r) {
      assert DeleteRank(t, r) == t[1..];
    } else {
      assert Row(id, r) in t[1..];
      var j :| 0 <= j < |t[1..]| && t[1..][j] == Row(id, r);
      assert r in Ranks(t[1..]) && id in Ids(t[1..]);
      DeleteRankDropsId(t[1..], id, r);
      var rest := DeleteRank(t[1..], r);
      assert DeleteRank(t, r) == [t[0]] + rest;
      assert ([t[0]] + rest)[1..] == rest;
    }
  }

  /** Ranks never decrease along the sequence. */
  predicate SortedByRank(t: Table) {
    forall i, j :: 0 <= i < j < |t| ==> t[i].rank <= t[j].rank
  }

  /** Places a row in front of the first row of higher rank. */
  function InsertByRank(x: Row, s: Table): (r: Table)
    requires SortedByRank(s)
    ensures |r| == |s| + 1
    ensures multiset(r) == multiset(s) + multiset{x}
    ensures SortedByRank(r)
  {
    if |s| == 0 || x.rank <= s[0].rank then [x] + s
    else
      var rest := InsertByRank(x, s[1..]);
      assert s == [s[0]] + s[1..];
      InsertedAbove(x, s, rest);
      [s[0]] + rest
  }

  /** Every row of the insertion below the head is at least the head's rank. */
  lemma InsertedAbove(x: Row, s: Table, rest: Table)
    requires |s| > 0 && SortedByRank(s) && s[0].rank < x.rank
    requires multiset(rest) == multiset(s[1..]) + multiset{x}
    ensures forall k :: 0 <= k < |rest| ==> s[0].rank <= rest[k].rank
  {
    forall k | 0 <= k < |rest| ensures s[0].rank <= rest[k].rank {
      assert rest[k] in multiset(rest);
      if rest[k] != x {
        assert rest[k] in multiset(s[1..]);
        var j :| 0 <= j < |s[1..]| && s[1..][j] == rest[k];
        assert s[j + 1] == rest[k];
      }
    }
  }

  /** `... ORDER BY rank ASC`: the rows of the table in ascending rank. */
  function SortByRank(t: Table): (s: Table)
    ensures |s| == |t|
    ensures multiset(s) == multiset(t)
    ensures SortedByRank(s)
  {
    if |t| == 0 then []
    else
      assert t == [t[0]] + t[1..];
      InsertByRank(t[0], SortByRank(t[1..]))
  }

  /** Two tables holding the same rows hold the same ranks. */
  lemma RanksOfPermutation(s: Table, t: Table)
    requires multiset(s) == multiset(t)
    ensures Ranks(s) == Ranks(t)
  {
    forall k | k in Ranks(s) ensures k in Ranks(t) {
      var i := RankIndex(s, k);
      assert s[i] in multiset(t);
      var j :| 0 <= j < |t| && t[j] == s[i];
    }
    forall k | k in Ranks(t) ensures k in Ranks(s) {
      var i := RankIndex(t, k);
      assert t[i] in multiset(s);
      var j :| 0 <= j < |s| && s[j] == t[i];
    }
  }

  /** A strictly increasing sequence of ranks within `1..N` is `1, 2, ..., N`. */
  lemma {:induction false} PinnedFromBelow(s: Table, i: nat)
    requires forall k :: 0 <= k < |s| - 1 ==> s[k].rank < s[k + 1].rank
    requires RanksInRange(s)
    requires i < |s|
    ensures s[i].rank >= i + 1
    decreases i
  {
    if i > 0 {
      PinnedFromBelow(s, i - 1);
    }
  }

  lemma {:induction false} PinnedFromAbove(s: Table, i: nat)
    requires forall k :: 0 <= k < |s| - 1 ==> s[k].rank < s[k + 1].rank
    requires RanksInRange(s)
    requires i < |s|
    ensures s[i].rank <= i + 1
    decreases |s| - i
  {
    if i < |s| - 1 {
      PinnedFromAbove(s, i + 1);
    }
  }

  /** Listing a dense table in rank order puts the row of rank `i + 1` at
      position `i`. */
  lemma SortedDenseIsIndexed(t: Table)
    requires Dense(t)
    ensures forall i :: 0 <= i < |t| ==> SortByRank(t)[i].rank == i + 1
    ensures forall i :: 0 <= i < |t| ==> SortByRank(t)[i] in t
  {
    var s := SortByRank(t);
    RanksOfPermutation(s, t);
    assert Dense(s);
    DenseIff(s);
    DistinctRanksAt(s);
    forall i | 0 <= i < |t| ensures s[i].rank == i + 1 && s[i] in t {
      PinnedFromBelow(s, i);
      PinnedFromAbove(s, i);
      assert s[i] in multiset(t);
    }
  }
}
