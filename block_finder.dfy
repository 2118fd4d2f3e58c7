/** Finding blocks of `n` adjacent available seats: rows in ascending order of
    their key, each row sorted by `x`, a window of `n` seats slid from left to
    right, and a window kept when no gap between neighbours exceeds one and a
    half times the width of the row's leftmost seat. */
module BlockFinder {
  import opened Seats
  import opened Sorting
  import opened GridIndex

  function SeatX(s: Seat): real { s.x }

  function SeatId(s: Seat): nat { s.id }

  /** Row keys compare by their numeric value. */
  function RowKey(y: real): real { y }

  /** The largest gap between neighbouring seats that still counts as
      adjacent: 1.5 times the width of the row's first seat after sorting. */
  function MaxGap(row: seq<Seat>): real
    requires |row| > 0
  {
    row[0].width * 1.5
  }

  /** Every step from one seat to the next is at most `maxGap`; a gap equal
      to the limit is adjacent. */
  predicate Contiguous(block: seq<Seat>, maxGap: real) {
    forall j :: 0 <= j < |block| - 1 ==> block[j + 1].x - block[j].x <= maxGap
  }

  /** The gap loop of the seat scan: it stops at the first gap over the
      limit. */
  method IsContiguous(block: seq<Seat>, maxGap: real) returns (contiguous: bool)
    ensures contiguous <==> Contiguous(block, maxGap)
  {
    contiguous := true;
    var j := 0;
    while j < |block| - 1
      invariant 0 <= j
      invariant forall k :: 0 <= k < j && k < |block| - 1 ==> block[k + 1].x - block[k].x <= maxGap
    {
      if block[j + 1].x - block[j].x > maxGap {
        contiguous := false;
        break;
      }
      j := j + 1;
    }
  }

  /** A block offered to the user: the row it comes from, the index of its
      first seat in the sorted row, and its seats. */
  datatype Candidate = Candidate(row: real, start: nat, block: seq<Seat>)

  /** `c` is the window of `n` seats of the sorted row `row` (key `key`)
      starting at `c.start`, and that window is contiguous. */
  predicate IsRowCandidate(c: Candidate, key: real, row: seq<Seat>, n: nat) {
    && |row| > 0
    && c.row == key
    && c.start + n <= |row|
    && c.block == row[c.start..c.start + n]
    && Contiguous(c.block, MaxGap(row))
  }

  /** The contiguous windows of a sorted row whose start is below `i`, in
      ascending order of start. */
  function RowCandidatesBelow(key: real, row: seq<Seat>, n: nat, i: nat): seq<Candidate>
    requires |row| > 0 && i + n <= |row| + 1
  {
    if i == 0 then []
    else
      var w := row[i - 1..i - 1 + n];
      RowCandidatesBelow(key, row, n, i - 1) + (if Contiguous(w, MaxGap(row)) then [Candidate(key, i - 1, w)] else [])
  }

  /** The candidates of one row as the index stores it: rows shorter than
      `n` are skipped, the others are sorted by `x` and every window start
      from 0 to `|row| - n` is tried. (Rows of the index are never empty.) */
  function RowCandidates(key: real, row: seq<Seat>, n: nat): seq<Candidate> {
    if |row| == 0 || |row| < n then []
    else
      var sorted := SortBy(row, SeatX);
      RowCandidatesBelow(key, sorted, n, |sorted| - n + 1)
  }

  /** The candidates of the rows `keys`, row after row (a key with no row
      has none; the scan only visits keys of its index). */
  function CandidatesOver(keys: seq<real>, rows: map<real, seq<Seat>>, n: nat): seq<Candidate> {
    if |keys| == 0 then []
    else
      var k := keys[|keys| - 1];
      CandidatesOver(keys[..|keys| - 1], rows, n) + (if k in rows then RowCandidates(k, rows[k], n) else [])
  }

  /** The row keys of an index in the order the scan visits them. */
  function VisitOrder(idx: RowIndex): seq<real> {
    SortBy(idx.keys, RowKey)
  }

  /** Every block the scan of a canvas offers, in the order it offers them. */
  function Candidates(seats: seq<Seat>, n: nat): seq<Candidate> {
    var idx := Index(seats);
    CandidatesOver(VisitOrder(idx), idx.rows, n)
  }

  /** Rows are visited once each, in strictly ascending order of key. */
  lemma VisitOrderIsAscending(idx: RowIndex, seats: seq<Seat>)
    requires Indexes(idx, seats)
    ensures var ks := VisitOrder(idx);
      && (forall k :: k in ks <==> k in idx.rows)
      && (forall i, j :: 0 <= i < j < |ks| ==> ks[i] < ks[j])
  {
    var ks := VisitOrder(idx);
    SortByOrders(idx.keys, RowKey);
    assert InjectiveOn(idx.keys, RowKey);
    PermutationKeepsInjective(idx.keys, ks, RowKey);
    forall k ensures k in ks <==> k in idx.keys {
      assert k in ks <==> k in multiset(ks);
      assert k in idx.keys <==> k in multiset(idx.keys);
    }
    forall i, j | 0 <= i < j < |ks| ensures ks[i] < ks[j] {
      assert RowKey(ks[i]) <= RowKey(ks[j]);
      assert RowKey(ks[i]) != RowKey(ks[j]);
    }
  }

  /** What the seat scan needs from the index: the rows it visits are all
      stored and non-empty, the blocks it offers are those of its rows in
      visit order, and an empty index offers nothing. */
  lemma ScanSetup(seats: seq<Seat>, n: nat, idx: RowIndex)
    requires idx == Index(seats)
    ensures forall k :: k in VisitOrder(idx) ==> k in idx.rows && |idx.rows[k]| > 0
    ensures Candidates(seats, n) == CandidatesOver(VisitOrder(idx), idx.rows, n)
    ensures |idx.rows| == 0 ==> Candidates(seats, n) == []
  {
    IndexRows(seats);
    VisitOrderIsAscending(idx, seats);
    var ks := VisitOrder(idx);
    forall i | 0 <= i < |ks| ensures ks[i] in idx.rows {
      assert ks[i] in ks;
    }
  }

  /** Candidates are in visit order: by row key, then by start. */
  ghost predicate InVisitOrder(cs: seq<Candidate>) {
    forall a, b :: 0 <= a < b < |cs| ==>
      cs[a].row < cs[b].row || (cs[a].row == cs[b].row && cs[a].start < cs[b].start)
  }

  /** The windows of one row: exactly the contiguous ones, in ascending
      start order, each start tried once. */
  lemma RowCandidatesBelowSpec(key: real, row: seq<Seat>, n: nat, i: nat)
    requires |row| > 0 && i + n <= |row| + 1
    ensures var cs := RowCandidatesBelow(key, row, n, i);
      && (forall c :: c in cs <==> IsRowCandidate(c, key, row, n) && c.start < i)
      && (forall a, b :: 0 <= a < b < |cs| ==> cs[a].start < cs[b].start)
      && (forall a :: 0 <= a < |cs| ==> cs[a].start < i)
  {
    RowCandidatesBelowMembers(key, row, n, i);
    RowCandidatesBelowOrder(key, row, n, i);
  }

  /** The membership half of `RowCandidatesBelowSpec`. */
  lemma {:induction false} RowCandidatesBelowMembers(key: real, row: seq<Seat>, n: nat, i: nat)
    requires |row| > 0 && i + n <= |row| + 1
    ensures forall c :: c in RowCandidatesBelow(key, row, n, i) <==> IsRowCandidate(c, key, row, n) && c.start < i
  {
    if i > 0 {
      RowCandidatesBelowMembers(key, row, n, i - 1);
    }
  }

  /** The order half of `RowCandidatesBelowSpec`: all in row `key`, by
      ascending start. */
  lemma {:induction false} RowCandidatesBelowOrder(key: real, row: seq<Seat>, n: nat, i: nat)
    requires |row| > 0 && i + n <= |row| + 1
    ensures forall a, b :: 0 <= a < b < |RowCandidatesBelow(key, row, n, i)| ==>
      RowCandidatesBelow(key, row, n, i)[a].start < RowCandidatesBelow(key, row, n, i)[b].start
    ensures forall a :: 0 <= a < |RowCandidatesBelow(key, row, n, i)| ==>
      RowCandidatesBelow(key, row, n, i)[a].start < i && RowCandidatesBelow(key, row, n, i)[a].row == key
  {
    if i > 0 {
      RowCandidatesBelowOrder(key, row, n, i - 1);
    }
  }

  /** The windows of a shorter scan are the first windows of a longer one. */
  lemma {:induction false} RowCandidatesBelowPrefix(key: real, row: seq<Seat>, n: nat, i: nat, j: nat)
    requires |row| > 0 && i <= j && j + n <= |row| + 1
    ensures RowCandidatesBelow(key, row, n, i) <= RowCandidatesBelow(key, row, n, j)
    decreases j - i
  {
    if i < j {
      RowCandidatesBelowPrefix(key, row, n, i, j - 1);
    }
  }

  /** A contiguous window is the next candidate of its row: it follows the
      candidates of the earlier starts, and the row's full list continues
      with it. */
  lemma ContiguousWindow(key: real, row: seq<Seat>, n: nat, i: nat)
    requires |row| > 0 && i + n <= |row|
    requires Contiguous(row[i..i + n], MaxGap(row))
    ensures var c := Candidate(key, i, row[i..i + n]);
      var done := RowCandidatesBelow(key, row, n, i);
      var all := RowCandidatesBelow(key, row, n, |row| - n + 1);
      && RowCandidatesBelow(key, row, n, i + 1) == done + [c]
      && |done| < |all|
      && all[..|done| + 1] == done + [c]
  {
    RowCandidatesBelowPrefix(key, row, n, i + 1, |row| - n + 1);
  }

  /** A window with a gap wider than the limit adds no candidate. */
  lemma GappedWindow(key: real, row: seq<Seat>, n: nat, i: nat)
    requires |row| > 0 && i + n <= |row|
    requires !Contiguous(row[i..i + n], MaxGap(row))
    ensures RowCandidatesBelow(key, row, n, i + 1) == RowCandidatesBelow(key, row, n, i)
  {
  }

  lemma {:induction false} CandidatesOverPrefix(keys: seq<real>, rows: map<real, seq<Seat>>, n: nat, r: nat)
    requires forall k :: k in keys ==> k in rows
    requires r <= |keys|
    ensures CandidatesOver(keys[..r], rows, n) <= CandidatesOver(keys, rows, n)
    decreases |keys| - r
  {
    if r < |keys| {
      var init := keys[..|keys| - 1];
      assert keys[..r] == init[..r];
      CandidatesOverPrefix(init, rows, n, r);
    } else {
      assert keys[..r] == keys;
    }
  }

  /** The scan of the rows up to `r` continues with the windows of row `r`,
      and is a prefix of the scan of all of them. */
  lemma CandidatesOverStep(keys: seq<real>, rows: map<real, seq<Seat>>, n: nat, r: nat)
    requires forall k :: k in keys ==> k in rows
    requires r < |keys|
    ensures keys[r] in rows
    ensures CandidatesOver(keys[..r + 1], rows, n) == CandidatesOver(keys[..r], rows, n) + RowCandidates(keys[r], rows[keys[r]], n)
    ensures CandidatesOver(keys[..r + 1], rows, n) <= CandidatesOver(keys, rows, n)
  {
    assert keys[r] in keys;
    assert keys[..r + 1][..r] == keys[..r];
    CandidatesOverPrefix(keys, rows, n, r + 1);
  }

  /** Which candidates a sequence of rows yields: the contiguous windows of
      its rows that have at least `n` seats. */
  lemma {:induction false} CandidatesOverMembers(keys: seq<real>, rows: map<real, seq<Seat>>, n: nat)
    requires forall k :: k in keys ==> k in rows
    ensures forall c :: c in CandidatesOver(keys, rows, n) <==>
      c.row in keys && |rows[c.row]| >= n && IsRowCandidate(c, c.row, SortBy(rows[c.row], SeatX), n)
  {
    if |keys| > 0 {
      var init, k := keys[..|keys| - 1], keys[|keys| - 1];
      assert k in keys;
      CandidatesOverMembers(init, rows, n);
      RowCandidatesMembers(k, rows[k], n);
      var front, back := CandidatesOver(init, rows, n), RowCandidates(k, rows[k], n);
      assert CandidatesOver(keys, rows, n) == front + back;
      forall c: Candidate ensures c in front + back <==>
        c.row in keys && |rows[c.row]| >= n && IsRowCandidate(c, c.row, SortBy(rows[c.row], SeatX), n)
      {
        assert c.row in keys <==> c.row in init || c.row == k;
      }
    }
  }

  /** The candidates of one row are exactly its contiguous windows, once it
      has at least `n` seats. */
  lemma RowCandidatesMembers(k: real, row: seq<Seat>, n: nat)
    ensures forall c :: c in RowCandidates(k, row, n) <==> |row| >= n && IsRowCandidate(c, k, SortBy(row, SeatX), n)
  {
    var sorted := SortBy(row, SeatX);
    if |row| > 0 && |row| >= n {
      RowCandidatesBelowSpec(k, sorted, n, |sorted| - n + 1);
    }
  }

  /** Over rows in ascending order of key, the candidates come by row, and
      within a row by start. */
  lemma {:induction false} CandidatesOverOrdered(keys: seq<real>, rows: map<real, seq<Seat>>, n: nat)
    requires forall k :: k in keys ==> k in rows
    requires forall i, j :: 0 <= i < j < |keys| ==> keys[i] < keys[j]
    ensures InVisitOrder(CandidatesOver(keys, rows, n))
  {
    if |keys| > 0 {
      var init, k := keys[..|keys| - 1], keys[|keys| - 1];
      assert k in keys;
      CandidatesOverOrdered(init, rows, n);
      CandidatesOverMembers(init, rows, n);
      var front, back := CandidatesOver(init, rows, n), RowCandidates(k, rows[k], n);
      var sorted := SortBy(rows[k], SeatX);
      if |rows[k]| > 0 && |rows[k]| >= n {
        RowCandidatesBelowSpec(k, sorted, n, |sorted| - n + 1);
      }
      var all: seq<Candidate> := front + back;
      assert all == CandidatesOver(keys, rows, n);
      forall a, b | 0 <= a < b < |all| ensures
        all[a].row < all[b].row || (all[a].row == all[b].row && all[a].start < all[b].start)
      {
        if a < |front| && b >= |front| {
          assert front[a] in front;
          assert front[a].row in init;
          var m :| 0 <= m < |init| && init[m] == front[a].row;
          assert keys[m] < keys[|keys| - 1];
          assert back[b - |front|] in back;
        }
      }
    }
  }

  /** What the scan offers, independently of how the index is built: every
      contiguous window of `n` seats of every row that has at least `n`
      available seats, and nothing else, ordered by row key, then by start. */
  lemma CandidatesSpec(seats: seq<Seat>, n: nat)
    ensures forall c :: c in Candidates(seats, n) <==>
      |RowOf(seats, c.row)| >= n && IsRowCandidate(c, c.row, SortBy(RowOf(seats, c.row), SeatX), n)
    ensures InVisitOrder(Candidates(seats, n))
  {
    var idx := Index(seats);
    IndexRows(seats);
    VisitOrderIsAscending(idx, seats);
    CandidatesOverMembers(VisitOrder(idx), idx.rows, n);
    CandidatesOverOrdered(VisitOrder(idx), idx.rows, n);
    forall c ensures c in Candidates(seats, n) <==>
      |RowOf(seats, c.row)| >= n && IsRowCandidate(c, c.row, SortBy(RowOf(seats, c.row), SeatX), n)
    {
      if IsRowCandidate(c, c.row, SortBy(RowOf(seats, c.row), SeatX), n) {
        assert |RowOf(seats, c.row)| > 0;
      }
    }
  }

  /** A candidate's block has `n` seats, all available, all on the candidate's
      row, all from the canvas, with distinct element handles when the
      canvas has them. */
  lemma CandidateBlocks(seats: seq<Seat>, n: nat, c: Candidate)
    requires c in Candidates(seats, n)
    ensures |c.block| == n
    ensures forall s :: s in c.block ==> s in seats && IsAvailable(s.fill) && s.y == c.row
    ensures DistinctIds(seats) ==> DistinctIds(c.block)
  {
    CandidatesSpec(seats, n);
    var row := RowOf(seats, c.row);
    RowOfMembers(seats, c.row);
    if DistinctIds(seats) {
      RowOfDistinct(seats, c.row);
    }
    WindowOfRow(row, c, n);
  }

  /** A window of the sorted row holds `n` seats of the row, distinct when
      the row's are. */
  lemma WindowOfRow(row: seq<Seat>, c: Candidate, n: nat)
    requires IsRowCandidate(c, c.row, SortBy(row, SeatX), n)
    ensures |c.block| == n
    ensures forall s :: s in c.block ==> s in row
    ensures DistinctIds(row) ==> DistinctIds(c.block)
  {
    var sorted := SortBy(row, SeatX);
    SortedRowMembers(row);
    if DistinctIds(row) {
      SortedRowDistinct(row);
      SliceFits(sorted, c.start, c.start + n);
    } else {
      forall s | s in c.block ensures s in sorted {
        var m :| 0 <= m < |c.block| && c.block[m] == s;
        assert sorted[c.start + m] == s;
      }
    }
  }

  /** Every seat of the sorted row is a seat of the row. */
  lemma SortedRowMembers(row: seq<Seat>)
    ensures forall s :: s in SortBy(row, SeatX) ==> s in row
  {
    SortByOrders(row, SeatX);
    forall s | s in SortBy(row, SeatX) ensures s in row {
      assert s in multiset(SortBy(row, SeatX));
    }
  }

  /** Sorting keeps distinct elements distinct. */
  lemma SortedRowDistinct(row: seq<Seat>)
    requires DistinctIds(row)
    ensures DistinctIds(SortBy(row, SeatX))
  {
    SortByOrders(row, SeatX);
    assert InjectiveOn(row, SeatId);
    PermutationKeepsInjective(row, SortBy(row, SeatX), SeatId);
  }

  /** Sorting a row keeps its seats: every seat of the sorted row is one of
      the row's, and distinct handles stay distinct. */
  lemma SortedRowFits(row: seq<Seat>, bound: nat)
    requires forall s :: s in row ==> s.id < bound
    requires DistinctIds(row)
    ensures forall s :: s in SortBy(row, SeatX) ==> s in row
    ensures forall s :: s in SortBy(row, SeatX) ==> s.id < bound
    ensures DistinctIds(SortBy(row, SeatX))
  {
    SortedRowMembers(row);
    SortedRowDistinct(row);
  }

  /** When every seat is taken the scan offers nothing. */
  lemma NoAvailableSeatNoCandidates(seats: seq<Seat>, n: nat)
    requires forall s :: s in seats ==> !IsAvailable(s.fill)
    ensures Candidates(seats, n) == []
  {
    NoAvailableSeatNoRows(seats);
  }

  /** Seats at x = 0, 10, 20 and 100, all 10 wide (so the limit is 15), asked
      for pairs: the scan offers (0, 10) and then (10, 20), never (20, 100). */
  lemma GapExample()
    ensures var row := [Seat(0, 0.0, 5.0, 10.0, "#ABCDEF"), Seat(1, 10.0, 5.0, 10.0, "#ABCDEF"),
                        Seat(2, 20.0, 5.0, 10.0, "#ABCDEF"), Seat(3, 100.0, 5.0, 10.0, "#ABCDEF")];
      RowCandidates(5.0, row, 2) == [Candidate(5.0, 0, row[0..2]), Candidate(5.0, 1, row[1..3])]
  {
    var row := [Seat(0, 0.0, 5.0, 10.0, "#ABCDEF"), Seat(1, 10.0, 5.0, 10.0, "#ABCDEF"),
                Seat(2, 20.0, 5.0, 10.0, "#ABCDEF"), Seat(3, 100.0, 5.0, 10.0, "#ABCDEF")];
    SortBySorted(row, SeatX);
    assert !Contiguous(row[2..4], 15.0) by {
      assert row[2..4][1].x - row[2..4][0].x == 80.0;
    }
  }
}
