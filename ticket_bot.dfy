/** The bot itself: the page it drives and the four steps of a search —
    resolving the section list, clicking an area, scanning its canvas for a
    block of adjacent seats and asking the user to confirm each block. */
module Bot {
  import opened Seats
  import opened Sorting
  import opened GridIndex
  import opened BlockFinder
  import opened Confirmation
  import opened Sections
  import opened SearchRun

  /** The two inline style properties the bot touches on a seat element. */
  datatype Style = Style(stroke: string, strokeWidth: string)

  /** How the scan of one row ends: on to the next row, or the whole scan
      stops, with or without an accepted block. */
  datatype RowScan = NextRow | Stop(accepted: bool)

  /** The outline a block gets while the user is asked about it. */
  const Highlight: Style := Style("red", "10")

  /** Every seat of a canvas is a distinct element of the page. */
  predicate GridFits(seats: seq<Seat>, bound: nat) {
    DistinctIds(seats) && forall s :: s in seats ==> s.id < bound
  }

  /** The seat-map frame as the bot sees it. The area titles, the canvas each
      area shows when clicked, and the user's answers are fixed for the run;
      the styles of the seat elements (indexed by element handle), the
      canvas on display and the logs of clicks and prompts change. */
  class Page {
    const titles: seq<AreaTitle>
    /** `gridOf[t]`: the canvas shown after clicking title `t`; `None` when
        it never appears. */
    const gridOf: seq<Option<seq<Seat>>>
    /** `user(k)`: what the k-th confirmation prompt returns. */
    const user: nat -> Reply
    /** `styles[e]`: the outline of seat element `e`. */
    var styles: seq<Style>
    var grid: Option<seq<Seat>>
    var areaClicks: seq<nat>
    var prompts: seq<Prompt>
    var clicks: seq<nat>

    ghost predicate Valid()
      reads this`grid, this`styles
    {
      && |gridOf| == |titles|
      && (grid.Some? ==> GridFits(grid.value, |styles|))
      && forall t :: 0 <= t < |gridOf| && gridOf[t].Some? ==> GridFits(gridOf[t].value, |styles|)
    }

    constructor(titles: seq<AreaTitle>, gridOf: seq<Option<seq<Seat>>>, user: nat -> Reply,
                styles: seq<Style>, grid: Option<seq<Seat>>)
      requires |gridOf| == |titles|
      requires grid.Some? ==> GridFits(grid.value, |styles|)
      requires forall t :: 0 <= t < |gridOf| && gridOf[t].Some? ==> GridFits(gridOf[t].value, |styles|)
      ensures Valid()
      ensures this.titles == titles && this.gridOf == gridOf && this.user == user
      ensures this.styles == styles && this.grid == grid
      ensures areaClicks == [] && prompts == [] && clicks == []
    {
      this.titles, this.gridOf, this.user, this.styles, this.grid := titles, gridOf, user, styles, grid;
      areaClicks, prompts, clicks := [], [], [];
    }
  }

  class TicketBot {
    const doc: Page

    constructor(doc: Page)
      ensures this.doc == doc
    {
      this.doc := doc;
    }

    /** Outlines the elements `ids` in red, in order, and returns the
        outline each had before. */
    method HighlightBlock(ids: seq<nat>) returns (originals: seq<Style>)
      requires forall a, b :: 0 <= a < b < |ids| ==> ids[a] != ids[b]
      requires forall m :: 0 <= m < |ids| ==> ids[m] < |doc.styles|
      modifies doc`styles
      ensures |originals| == |ids| && |doc.styles| == |old(doc.styles)|
      ensures forall m :: 0 <= m < |ids| ==> originals[m] == old(doc.styles)[ids[m]]
      ensures forall e :: 0 <= e < |doc.styles| ==> doc.styles[e] == if e in ids then Highlight else old(doc.styles)[e]
    {
      originals := [];
      for k := 0 to |ids|
        invariant |originals| == k && |doc.styles| == |old(doc.styles)|
        invariant forall m :: 0 <= m < k ==> originals[m] == old(doc.styles)[ids[m]]
        invariant forall e :: 0 <= e < |doc.styles| ==> doc.styles[e] == if e in ids[..k] then Highlight else old(doc.styles)[e]
      {
        assert ids[k] !in ids[..k] by {
          forall m | 0 <= m < k ensures ids[m] != ids[k] {
            assert ids[m] != ids[k];
          }
        }
        originals := originals + [doc.styles[ids[k]]];
        doc.styles := doc.styles[ids[k] := Highlight];
        assert ids[..k + 1] == ids[..k] + [ids[k]];
      }
      assert ids[..|ids|] == ids;
    }

    /** Puts back the saved outline of each element of `ids`, in order: the
        outlines are then exactly those of `saved`, the styles before the
        block was highlighted. */
    method RestoreBlock(ids: seq<nat>, originals: seq<Style>, ghost saved: seq<Style>)
      requires forall a, b :: 0 <= a < b < |ids| ==> ids[a] != ids[b]
      requires |originals| == |ids| && |doc.styles| == |saved|
      requires forall m :: 0 <= m < |ids| ==> ids[m] < |saved| && originals[m] == saved[ids[m]]
      requires forall e :: 0 <= e < |saved| ==> doc.styles[e] == if e in ids then Highlight else saved[e]
      modifies doc`styles
      ensures doc.styles == saved
    {
      for k := 0 to |ids|
        invariant |doc.styles| == |saved|
        invariant forall e :: 0 <= e < |saved| ==> doc.styles[e] == if e in ids[k..] then Highlight else saved[e]
      {
        assert ids[k..] == [ids[k]] + ids[k + 1..];
        assert ids[k] !in ids[k + 1..] by {
          forall m | k + 1 <= m < |ids| ensures ids[m] != ids[k] {
            assert ids[k] != ids[m];
          }
        }
        doc.styles := doc.styles[ids[k] := originals[k]];
      }
      assert doc.styles == saved;
    }

    /** Highlights the block, asks the user about it, and restores every
        outline it changed whatever the answer (also when the prompt throws,
        which the caller sees as `Throw`). `during` is the styles while the
        prompt is up: the block highlighted, every other element untouched. */
    method ConfirmSeatSelection(block: seq<Seat>, sectionName: string) returns (answer: Reply, ghost during: seq<Style>)
      requires forall s :: s in block ==> s.id < |doc.styles|
      requires DistinctIds(block)
      modifies doc`styles, doc`prompts
      ensures doc.styles == old(doc.styles)
      ensures doc.prompts == old(doc.prompts) + [Prompt(Ids(block), sectionName)]
      ensures answer == doc.user(|old(doc.prompts)|)
      ensures |during| == |doc.styles|
      ensures forall e :: 0 <= e < |during| ==> during[e] == if e in Ids(block) then Highlight else old(doc.styles)[e]
    {
      var ids := Ids(block);
      forall m | 0 <= m < |ids| ensures ids[m] < |doc.styles| {
        assert block[m] in block;
      }
      ghost var saved := doc.styles;
      var originalStyles := HighlightBlock(ids);
      during := doc.styles;
      answer := doc.user(|doc.prompts|);
      doc.prompts := doc.prompts + [Prompt(ids, sectionName)];
      RestoreBlock(ids, originalStyles, saved);
    }

    /** Dispatches a click on every seat of the block, in order. */
    method ClickSeats(block: seq<Seat>)
      modifies doc`clicks
      ensures doc.clicks == old(doc.clicks) + Ids(block)
    {
      for k := 0 to |block|
        invariant doc.clicks == old(doc.clicks) + Ids(block[..k])
      {
        doc.clicks := doc.clicks + [block[k].id];
        assert Ids(block[..k + 1]) == Ids(block[..k]) + [block[k].id];
      }
      assert block[..|block|] == block;
    }

    /** Offers one block: the user is asked about it and, on OK, its seats
        are clicked. The answer is that of the next prompt of the session. */
    method OfferCandidate(c: Candidate, sectionName: string) returns (answer: Reply)
      requires forall s :: s in c.block ==> s.id < |doc.styles|
      requires DistinctIds(c.block)
      modifies doc`styles, doc`prompts, doc`clicks
      ensures answer == doc.user(|old(doc.prompts)|)
      ensures doc.prompts == old(doc.prompts) + [Prompt(Ids(c.block), sectionName)]
      ensures doc.clicks == old(doc.clicks) + (if answer == Accept then Ids(c.block) else [])
      ensures doc.styles == old(doc.styles)
    {
      ghost var during;
      answer, during := ConfirmSeatSelection(c.block, sectionName);
      if answer == Accept {
        ClickSeats(c.block);
      }
    }

    /** The window loop of the row scan over the row sorted by `x`: each
        contiguous window of `n` seats is offered in turn, until one is
        accepted (its seats are clicked) or a prompt throws. It behaves as
        `Present` over the row's candidates, from the next prompt. */
    method ScanWindows(yKey: real, sorted: seq<Seat>, n: nat, sectionName: string) returns (next: RowScan)
      requires 0 < |sorted| && n <= |sorted|
      requires forall s :: s in sorted ==> s.id < |doc.styles|
      requires DistinctIds(sorted)
      modifies doc`styles, doc`prompts, doc`clicks
      ensures var offers := RowCandidatesBelow(yKey, sorted, n, |sorted| - n + 1);
        var pres := Present(offers, doc.user, |old(doc.prompts)|);
        && next == (if pres.decision.Exhausted? then NextRow else Stop(pres.decision.Accepted?))
        && doc.prompts == old(doc.prompts) + PromptsFor(offers[..pres.shown], sectionName)
        && doc.clicks == old(doc.clicks) + (if pres.decision.Accepted? then Ids(pres.decision.choice.block) else [])
      ensures doc.styles == old(doc.styles)
    {
      var maxAllowedGap := sorted[0].width * 1.5;
      assert maxAllowedGap == MaxGap(sorted);
      ghost var offers := RowCandidatesBelow(yKey, sorted, n, |sorted| - n + 1);
      ghost var p0 := |doc.prompts|;
      assert p0 == |old(doc.prompts)|;
      ghost var done: seq<Candidate> := [];
      for i := 0 to |sorted| - n + 1
        invariant done == RowCandidatesBelow(yKey, sorted, n, i)
        invariant forall q :: p0 <= q < p0 + |done| ==> doc.user(q) == Reject
        invariant doc.prompts == old(doc.prompts) + PromptsFor(done, sectionName)
        invariant doc.clicks == old(doc.clicks)
        invariant doc.styles == old(doc.styles)
      {
        var potentialBlock := sorted[i..i + n];
        var isContiguous := IsContiguous(potentialBlock, maxAllowedGap);
        if isContiguous {
          var c := Candidate(yKey, i, potentialBlock);
          ContiguousWindow(yKey, sorted, n, i);
          SliceFits(sorted, i, i + n);
          ghost var promptNo := |doc.prompts|;
          assert promptNo == p0 + |done|;
          var answer := OfferCandidate(c, sectionName);
          OfferAnswered(offers, done, c, doc.user, p0, promptNo, answer, old(doc.prompts), sectionName);
          if answer != Reject {
            return Stop(answer == Accept);
          }
          done := done + [c];
        } else {
          GappedWindow(yKey, sorted, n, i);
        }
      }
      PresentAllRejected(offers, doc.user, p0, sectionName);
      return NextRow;
    }

    /** The scan of one row (the body of the row loop): a row shorter than
        `n` is skipped; otherwise it is sorted by `x` and its windows are
        scanned. It behaves as `Present` over the row's candidates, from the
        next prompt. */
    method ScanRow(yKey: real, rowSeats: seq<Seat>, n: nat, sectionName: string) returns (next: RowScan)
      requires |rowSeats| > 0
      requires forall s :: s in rowSeats ==> s.id < |doc.styles|
      requires DistinctIds(rowSeats)
      modifies doc`styles, doc`prompts, doc`clicks
      ensures var offers := RowCandidates(yKey, rowSeats, n);
        var pres := Present(offers, doc.user, |old(doc.prompts)|);
        && next == (if pres.decision.Exhausted? then NextRow else Stop(pres.decision.Accepted?))
        && doc.prompts == old(doc.prompts) + PromptsFor(offers[..pres.shown], sectionName)
        && doc.clicks == old(doc.clicks) + (if pres.decision.Accepted? then Ids(pres.decision.choice.block) else [])
      ensures doc.styles == old(doc.styles)
    {
      if |rowSeats| < n {
        assert RowCandidates(yKey, rowSeats, n) == [];
        return NextRow;
      }
      var sorted := SortBy(rowSeats, SeatX);
      assert RowCandidates(yKey, rowSeats, n) == RowCandidatesBelow(yKey, sorted, n, |sorted| - n + 1);
      SortedRowFits(rowSeats, |doc.styles|);
      next := ScanWindows(yKey, sorted, n, sectionName);
    }

    /** The row loop of the seat scan: the rows `keys` in order, each
        scanned by `ScanRow`, until a block is accepted or a prompt throws.
        It behaves as `Present` over the candidates of all those rows. */
    method ScanRows(keys: seq<real>, rows: map<real, seq<Seat>>, n: nat, sectionName: string) returns (accepted: bool)
      requires forall k :: k in keys ==> k in rows && |rows[k]| > 0 && GridFits(rows[k], |doc.styles|)
      modifies doc`styles, doc`prompts, doc`clicks
      ensures var offers := CandidatesOver(keys, rows, n);
        var pres := Present(offers, doc.user, |old(doc.prompts)|);
        && accepted == pres.decision.Accepted?
        && doc.prompts == old(doc.prompts) + PromptsFor(offers[..pres.shown], sectionName)
        && doc.clicks == old(doc.clicks) + (if pres.decision.Accepted? then Ids(pres.decision.choice.block) else [])
      ensures doc.styles == old(doc.styles)
    {
      ghost var offers := CandidatesOver(keys, rows, n);
      ghost var p0 := |doc.prompts|;
      assert p0 == |old(doc.prompts)|;
      ghost var done: seq<Candidate> := [];
      for r := 0 to |keys|
        invariant done == CandidatesOver(keys[..r], rows, n)
        invariant forall q :: p0 <= q < p0 + |done| ==> doc.user(q) == Reject
        invariant doc.prompts == old(doc.prompts) + PromptsFor(done, sectionName)
        invariant doc.clicks == old(doc.clicks)
        invariant doc.styles == old(doc.styles)
      {
        var yKey := keys[r];
        var rowSeats := rows[yKey];
        assert yKey in keys;
        CandidatesOverStep(keys, rows, n, r);
        ghost var rowOffers := RowCandidates(yKey, rowSeats, n);
        ghost var promptNo := |doc.prompts|;
        assert promptNo == p0 + |done|;
        ghost var log := old(doc.prompts);
        var next := ScanRow(yKey, rowSeats, n, sectionName);
        if next.Stop? {
          PresentStopsWithin(offers, done, rowOffers, doc.user, p0, promptNo, log, sectionName);
          return next.accepted;
        }
        PresentRejectsPart(done, rowOffers, doc.user, p0, promptNo, log, sectionName);
        done := done + rowOffers;
      }
      assert keys[..|keys|] == keys;
      PresentStopsAtFirstAnswer(offers, doc.user, p0, p0 + |offers|);
      assert offers[..Present(offers, doc.user, p0).shown] == offers;
      return false;
    }

    /** The seat scan of the canvas on display: nothing to do without a
        canvas or without seats; otherwise the seats are indexed by row and
        the rows scanned in ascending order of key. It does exactly what
        `ScanSection` says, and leaves every outline as it found it. */
    method FindAndClickSeat(n: nat, sectionName: string) returns (accepted: bool)
      requires doc.grid.Some? ==> GridFits(doc.grid.value, |doc.styles|)
      modifies doc`styles, doc`prompts, doc`clicks
      ensures var scan := ScanSection(doc.grid, n, sectionName, doc.user, |old(doc.prompts)|);
        && accepted == scan.accepted
        && doc.prompts == old(doc.prompts) + scan.prompts
        && doc.clicks == old(doc.clicks) + scan.clicks
      ensures doc.styles == old(doc.styles)
    {
      if doc.grid.None? {
        return false;
      }
      var seats := doc.grid.value;
      if |seats| == 0 {
        return false;
      }
      var seatRows := IndexSeats(seats);
      ScanSetup(seats, n, seatRows);
      if |seatRows.rows| == 0 {
        return false;
      }
      var sortedRowKeys := SortBy(seatRows.keys, RowKey);
      forall k | k in sortedRowKeys
        ensures k in seatRows.rows && |seatRows.rows[k]| > 0 && GridFits(seatRows.rows[k], |doc.styles|)
      {
        IndexRowFits(seats, k);
      }
      accepted := ScanRows(sortedRowKeys, seatRows.rows, n, sectionName);
    }
  
    /** Clicks the area of the first title, in document order, whose markup
        ends with `areaName`, which brings up that area's canvas; reports
        whether there was one. With no title at all the wait for one fails,
        and nothing is clicked. */
    method ClickOnArea(areaName: string) returns (clicked: bool)
      requires doc.Valid()
      modifies doc`grid, doc`areaClicks
      ensures doc.Valid()
      ensures var m := FirstMatch(doc.titles, areaName);
        && clicked == m.Some?
        && doc.areaClicks == old(doc.areaClicks) + (if m.Some? then [m.value] else [])
        && doc.grid == if m.Some? then doc.gridOf[m.value] else old(doc.grid)
    {
      var areaTitles := doc.titles;
      if |areaTitles| == 0 {
        return false;
      }
      for i := 0 to |areaTitles|
        invariant forall t :: 0 <= t < i ==> !EndsWith(areaTitles[t].html, areaName)
      {
        if EndsWith(areaTitles[i].html, areaName) {
          doc.areaClicks := doc.areaClicks + [i];
          doc.grid := doc.gridOf[i];
          return true;
        }
      }
      return false;
    }

    /** The section names found on the page: the text of every area title,
        trimmed, in document order (none when the page shows no title). */
    method GetSectionList() returns (sections: seq<string>)
      ensures |sections| == |doc.titles|
      ensures forall i :: 0 <= i < |doc.titles| ==> sections[i] == Trim(doc.titles[i].text)
    {
      var areaTitles := doc.titles;
      if |areaTitles| == 0 {
        return [];
      }
      sections := [];
      for i := 0 to |areaTitles|
        invariant |sections| == i
        invariant forall j :: 0 <= j < i ==> sections[j] == Trim(areaTitles[j].text)
      {
        sections := sections + [Trim(areaTitles[i].text)];
      }
    }

    /** One pass of the search loop: click the section's area, and scan
        its canvas when the click succeeded. It does exactly what `Attempt`
        says. */
    method TrySection(sectionName: string, numSeats: nat) returns (accepted: bool)
      requires doc.Valid()
      modifies doc`styles, doc`grid, doc`areaClicks, doc`prompts, doc`clicks
      ensures doc.Valid()
      ensures var a := Attempt(doc.titles, OffersOf(doc.gridOf, numSeats), doc.user, sectionName, |old(doc.prompts)|);
        && accepted == a.outcome.SeatsSelected?
        && doc.areaClicks == old(doc.areaClicks) + a.areaClicks
        && doc.prompts == old(doc.prompts) + a.prompts
        && doc.clicks == old(doc.clicks) + a.clicks
        && doc.grid == CanvasAfter(doc.gridOf, old(doc.grid), a.areaClicks)
      ensures doc.styles == old(doc.styles)
    {
      var didClick := ClickOnArea(sectionName);
      if !didClick {
        return false;
      }
      ghost var t := FirstMatch(doc.titles, sectionName).value;
      assert OffersOf(doc.gridOf, numSeats)[t] == Offers(doc.grid, numSeats);
      accepted := FindAndClickSeat(numSeats, sectionName);
    }

    /** The section loop of a search: the sections `names` are tried in
        order, a section whose area cannot be clicked is skipped, and the
        loop stops at the first block the user accepts. It does exactly what
        `RunFrom` says, given the blocks each area offers. */
    method SearchSections(names: seq<string>, numSeats: nat) returns (outcome: SearchOutcome)
      requires doc.Valid()
      modifies doc`styles, doc`grid, doc`areaClicks, doc`prompts, doc`clicks
      ensures doc.Valid()
      ensures var tr := RunFrom(doc.titles, OffersOf(doc.gridOf, numSeats), doc.user, names, |old(doc.prompts)|);
        && outcome == tr.outcome
        && doc.areaClicks == old(doc.areaClicks) + tr.areaClicks
        && doc.prompts == old(doc.prompts) + tr.prompts
        && doc.clicks == old(doc.clicks) + tr.clicks
        && doc.grid == CanvasAfter(doc.gridOf, old(doc.grid), tr.areaClicks)
      ensures doc.styles == old(doc.styles)
    {
      ghost var offersOf := OffersOf(doc.gridOf, numSeats);
      ghost var whole := RunFrom(doc.titles, offersOf, doc.user, names, |doc.prompts|);
      for i := 0 to |names|
        invariant doc.Valid()
        invariant doc.styles == old(doc.styles)
        invariant var rest := RunFrom(doc.titles, offersOf, doc.user, names[i..], |doc.prompts|);
          && rest.outcome == whole.outcome
          && old(doc.areaClicks) + whole.areaClicks == doc.areaClicks + rest.areaClicks
          && old(doc.prompts) + whole.prompts == doc.prompts + rest.prompts
          && old(doc.clicks) + whole.clicks == doc.clicks + rest.clicks
          && CanvasAfter(doc.gridOf, old(doc.grid), whole.areaClicks) == CanvasAfter(doc.gridOf, doc.grid, rest.areaClicks)
      {
        var sectionName := names[i];
        ghost var left := names[i..];
        assert left[0] == sectionName && left[1..] == names[i + 1..];
        ghost var a := Attempt(doc.titles, offersOf, doc.user, sectionName, |doc.prompts|);
        ghost var rest := RunFrom(doc.titles, offersOf, doc.user, left, |doc.prompts|);
        ghost var areaClicks0, prompts0, clicks0, grid0 := doc.areaClicks, doc.prompts, doc.clicks, doc.grid;
        var accepted := TrySection(sectionName, numSeats);
        if accepted {
          RunFromStops(doc.titles, offersOf, doc.user, left, |prompts0|, a);
          return SeatsSelected(sectionName);
        }
        ghost var next := RunFrom(doc.titles, offersOf, doc.user, left[1..], |doc.prompts|);
        RunFromStep(doc.titles, offersOf, doc.user, left, a, rest, next,
                    areaClicks0, prompts0, clicks0, doc.areaClicks, doc.prompts, doc.clicks);
        CanvasAfterAppend(doc.gridOf, grid0, a.areaClicks, next.areaClicks);
      }
      assert names[|names|..] == [];
      return NothingAccepted;
    }

    /** A search for `numSeats` adjacent seats: the requested sections, or
        all those on the page when none was requested, are tried in order
        (nothing happens when there are none). It does exactly what `Run`
        says, and leaves every outline as it found it. */
    method Search(requested: seq<string>, numSeats: nat) returns (outcome: SearchOutcome)
      requires doc.Valid()
      modifies doc`styles, doc`grid, doc`areaClicks, doc`prompts, doc`clicks
      ensures doc.Valid()
      ensures var tr := Run(doc.titles, doc.gridOf, doc.user, requested, numSeats, |old(doc.prompts)|);
        && outcome == tr.outcome
        && doc.areaClicks == old(doc.areaClicks) + tr.areaClicks
        && doc.prompts == old(doc.prompts) + tr.prompts
        && doc.clicks == old(doc.clicks) + tr.clicks
        && doc.grid == CanvasAfter(doc.gridOf, old(doc.grid), tr.areaClicks)
      ensures doc.styles == old(doc.styles)
    {
      var sectionsToSearch := requested;
      if |sectionsToSearch| == 0 {
        sectionsToSearch := GetSectionList();
      }
      assert sectionsToSearch == ResolveSections(requested, doc.titles);
      if |sectionsToSearch| == 0 {
        return NoSectionsToSearch;
      }
      outcome := SearchSections(sectionsToSearch, numSeats);
    }
  }
}
