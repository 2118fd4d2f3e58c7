/** Bucketing the canvas rectangles into rows keyed by their `y` attribute.
    The source's `Map` remembers the order in which keys were first inserted,
    so the index is a key list in insertion order plus the map itself. */
module GridIndex {
  import opened Seats

  datatype RowIndex = RowIndex(keys: seq<real>, rows: map<real, seq<Seat>>)

  /** Appends a seat to the row of its `y`, creating the row at the end of
      the key order when it is new. */
  function Push(idx: RowIndex, s: Seat): RowIndex {
    if s.y in idx.rows then RowIndex(idx.keys, idx.rows[s.y := idx.rows[s.y] + [s]])
    else RowIndex(idx.keys + [s.y], idx.rows[s.y := [s]])
  }

  /** The index built from the seats in document order. */
  function Index(seats: seq<Seat>): RowIndex {
    if |seats| == 0 then RowIndex([], map[])
    else
      var prev := Index(seats[..|seats| - 1]);
      var s := seats[|seats| - 1];
      if IsAvailable(s.fill) then Push(prev, s) else prev
  }

  /** Independent description of one row: the available seats whose `y` is
      `y`, in document order. */
  function RowOf(seats: seq<Seat>, y: real): seq<Seat> {
    if |seats| == 0 then []
    else
      var s := seats[|seats| - 1];
      RowOf(seats[..|seats| - 1], y) + (if IsAvailable(s.fill) && s.y == y then [s] else [])
  }

  /** What the index holds: a row for exactly the `y` values that have an
      available seat, that row being RowOf; the key list enumerates the rows
      once each. */
  ghost predicate Indexes(idx: RowIndex, seats: seq<Seat>) {
    && (forall y :: y in idx.rows <==> |RowOf(seats, y)| > 0)
    && (forall y :: y in idx.rows ==> idx.rows[y] == RowOf(seats, y))
    && (forall y :: y in idx.keys <==> y in idx.rows)
    && (forall i, j :: 0 <= i < j < |idx.keys| ==> idx.keys[i] != idx.keys[j])
  }

  /** One step of RowOf: the last seat joins row `y` exactly when it is
      available and sits on that row. */
  lemma RowOfStep(seats: seq<Seat>, y: real)
    requires |seats| > 0
    ensures RowOf(seats, y) == RowOf(seats[..|seats| - 1], y) +
      (if IsAvailable(seats[|seats| - 1].fill) && seats[|seats| - 1].y == y then [seats[|seats| - 1]] else [])
  {
  }

  lemma PushIndexes(prev: RowIndex, seats: seq<Seat>)
    requires |seats| > 0 && IsAvailable(seats[|seats| - 1].fill)
    requires Indexes(prev, seats[..|seats| - 1])
    ensures Indexes(Push(prev, seats[|seats| - 1]), seats)
  {
    var s := seats[|seats| - 1];
    var idx := Push(prev, s);
    forall y ensures (y in idx.rows <==> |RowOf(seats, y)| > 0) && (y in idx.rows ==> idx.rows[y] == RowOf(seats, y)) {
      PushRow(prev, seats, y);
    }
    PushKeys(prev, s);
  }

  /** Pushing a seat keeps the key list enumerating the rows once each. */
  lemma PushKeys(prev: RowIndex, s: Seat)
    requires forall y :: y in prev.keys <==> y in prev.rows
    requires forall i, j :: 0 <= i < j < |prev.keys| ==> prev.keys[i] != prev.keys[j]
    ensures forall y :: y in Push(prev, s).keys <==> y in Push(prev, s).rows
    ensures forall i, j :: 0 <= i < j < |Push(prev, s).keys| ==> Push(prev, s).keys[i] != Push(prev, s).keys[j]
  {
    var idx := Push(prev, s);
    forall y ensures y in idx.keys <==> y in idx.rows {
      if y != s.y {
        assert y in idx.keys <==> y in prev.keys;
      }
    }
    if s.y !in prev.rows {
      assert s.y !in prev.keys;
      forall i, j | 0 <= i < j < |idx.keys| ensures idx.keys[i] != idx.keys[j] {
        if j == |prev.keys| {
          assert prev.keys[i] in prev.keys;
        }
      }
    }
  }

  /** Row `y` after pushing the last seat: the row of that seat's `y` gains
      it, every other row is left as it was. */
  lemma PushRow(prev: RowIndex, seats: seq<Seat>, y: real)
    requires |seats| > 0 && IsAvailable(seats[|seats| - 1].fill)
    requires Indexes(prev, seats[..|seats| - 1])
    ensures y in Push(prev, seats[|seats| - 1]).rows <==> |RowOf(seats, y)| > 0
    ensures y in Push(prev, seats[|seats| - 1]).rows ==> Push(prev, seats[|seats| - 1]).rows[y] == RowOf(seats, y)
  {
    var init, s := seats[..|seats| - 1], seats[|seats| - 1];
    RowOfStep(seats, y);
    if y == s.y {
      assert RowOf(seats, y) == RowOf(init, y) + [s];
      if y in prev.rows {
        assert Push(prev, s).rows[y] == prev.rows[y] + [s];
      } else {
        assert RowOf(init, y) == [];
        assert Push(prev, s).rows[y] == [s];
      }
    } else {
      assert RowOf(seats, y) == RowOf(init, y);
      assert y in Push(prev, s).rows <==> y in prev.rows;
    }
  }

  lemma {:induction false} IndexRows(seats: seq<Seat>)
    ensures Indexes(Index(seats), seats)
  {
    if |seats| > 0 {
      var init, s := seats[..|seats| - 1], seats[|seats| - 1];
      IndexRows(init);
      if IsAvailable(s.fill) {
        PushIndexes(Index(init), seats);
      } else {
        forall y ensures RowOf(seats, y) == RowOf(init, y) {
          RowOfStep(seats, y);
        }
      }
    }
  }

  /** A seat of a row is available and carries the row's `y`. */
  lemma {:induction false} RowOfMembers(seats: seq<Seat>, y: real)
    ensures forall s :: s in RowOf(seats, y) ==> s in seats && IsAvailable(s.fill) && s.y == y
  {
    if |seats| > 0 {
      var init := seats[..|seats| - 1];
      RowOfMembers(init, y);
      assert forall s :: s in init ==> s in seats;
    }
  }

  /** A row keeps the distinct element handles of the canvas distinct. */
  lemma {:induction false} RowOfDistinct(seats: seq<Seat>, y: real)
    requires DistinctIds(seats)
    ensures DistinctIds(RowOf(seats, y))
  {
    if |seats| > 0 {
      var init, s := seats[..|seats| - 1], seats[|seats| - 1];
      RowOfDistinct(init, y);
      RowOfMembers(init, y);
      var r := RowOf(init, y);
      forall t | t in r ensures t.id != s.id {
        var k :| 0 <= k < |init| && init[k] == t;
      }
    }
  }

  /** When no seat is available the index is empty. */
  lemma {:induction false} NoAvailableSeatNoRows(seats: seq<Seat>)
    requires forall s :: s in seats ==> !IsAvailable(s.fill)
    ensures Index(seats) == RowIndex([], map[])
  {
    if |seats| > 0 {
      var init := seats[..|seats| - 1];
      assert forall s :: s in init ==> s in seats;
      NoAvailableSeatNoRows(init);
    }
  }

  /** A row of the index is never empty, holds seats of the canvas only,
      and has distinct element handles when the canvas does. */
  lemma IndexRowFits(seats: seq<Seat>, y: real)
    requires y in Index(seats).rows
    ensures |Index(seats).rows[y]| > 0
    ensures forall s :: s in Index(seats).rows[y] ==> s in seats
    ensures DistinctIds(seats) ==> DistinctIds(Index(seats).rows[y])
  {
    IndexRows(seats);
    RowOfMembers(seats, y);
    if DistinctIds(seats) {
      RowOfDistinct(seats, y);
    }
  }

  /** The indexing loop of the seat scan: each available seat is pushed onto
      its row, creating the row on first use. */
  method IndexSeats(seats: seq<Seat>) returns (idx: RowIndex)
    ensures idx == Index(seats)
  {
    var keys: seq<real> := [];
    var rows: map<real, seq<Seat>> := map[];
    for i := 0 to |seats|
      invariant RowIndex(keys, rows) == Index(seats[..i])
    {
      var seat := seats[i];
      assert seats[..i + 1][..i] == seats[..i];
      if IsAvailable(seat.fill) {
        var y := seat.y;
        ghost var before := RowIndex(keys, rows);
        if y !in rows {
          keys := keys + [y];
          rows := rows[y := []];
        }
        rows := rows[y := rows[y] + [seat]];
        assert rows == Push(before, seat).rows by {
          if y !in before.rows {
            var expected := before.rows[y := [seat]];
            assert rows.Keys == expected.Keys;
            forall k | k in rows ensures rows[k] == expected[k] {
              if k == y {
                assert rows[k] == [] + [seat];
              }
            }
          }
        }
      }
    }
    assert seats[..|seats|] == seats;
    idx := RowIndex(keys, rows);
  }
}
