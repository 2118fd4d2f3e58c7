/** What a search does, as a function of the page: which areas it clicks,
    which prompts it shows, which seats it clicks, and how it ends. The
    `TicketBot` methods are proved to produce exactly this. */
module SearchRun {
  import opened Seats
  import opened BlockFinder
  import opened Confirmation
  import opened Sections

  /** How a search returns: no section to try, every section tried without
      an accepted block, or a block accepted in the named section. */
  datatype SearchOutcome = NoSectionsToSearch | NothingAccepted | SeatsSelected(section: string)

  /** What one seat scan of a section leaves behind. */
  datatype SeatScan = SeatScan(prompts: seq<Prompt>, clicks: seq<nat>, accepted: bool)

  /** What a whole search leaves behind. */
  datatype Trace = Trace(areaClicks: seq<nat>, prompts: seq<Prompt>, clicks: seq<nat>, outcome: SearchOutcome)

  /** The blocks offered for the displayed canvas; none when the canvas
      never appears (the wait for it fails and the error is caught). */
  function Offers(grid: Option<seq<Seat>>, n: nat): seq<Candidate> {
    match grid
    case None => []
    case Some(seats) => Candidates(seats, n)
  }

  /** Offering the candidates `offers` in order from prompt number `p`, and
      clicking the seats of the block the user accepts. */
  function ScanOffers(offers: seq<Candidate>, section: string, user: nat -> Reply, p: nat): SeatScan {
    var pres := Present(offers, user, p);
    SeatScan(PromptsFor(offers[..pres.shown], section),
             if pres.decision.Accepted? then Ids(pres.decision.choice.block) else [],
             pres.decision.Accepted?)
  }

  /** One seat scan of the displayed canvas. */
  function ScanSection(grid: Option<seq<Seat>>, n: nat, section: string, user: nat -> Reply, p: nat): SeatScan {
    ScanOffers(Offers(grid, n), section, user, p)
  }

  /** Among the prompts of a section's scan, an OK can only be the answer to
      the last one; the scan accepts exactly then, and the seats it clicks
      are those of that last prompt's block. */
  lemma ScanOffersAnswers(offers: seq<Candidate>, section: string, user: nat -> Reply, p: nat)
    ensures var scan := ScanOffers(offers, section, user, p);
      forall q :: p <= q < p + |scan.prompts| && user(q) == Accept ==> scan.accepted && q == p + |scan.prompts| - 1
    ensures var scan := ScanOffers(offers, section, user, p);
      scan.accepted ==> && |scan.prompts| > 0 && user(p + |scan.prompts| - 1) == Accept
                        && scan.prompts[|scan.prompts| - 1] == Prompt(scan.clicks, section)
    ensures var scan := ScanOffers(offers, section, user, p);
      !scan.accepted ==> scan.clicks == []
  {
    var pres := Present(offers, user, p);
    PresentAnswers(offers, user, p);
    if pres.decision.Accepted? {
      var shown := offers[..pres.shown];
      assert shown[|shown| - 1] == pres.decision.choice;
      assert PromptsFor(shown, section)[|shown| - 1] == Prompt(Ids(pres.decision.choice.block), section);
    }
  }

  /** The scan of a section accepts exactly when the first prompt that is
      not rejected, number `stop`, is accepted; it shows the candidates up to
      that one and no later, and clicks exactly the seats of the accepted
      block. */
  lemma ScanSectionStops(grid: Option<seq<Seat>>, n: nat, section: string, user: nat -> Reply, p: nat, stop: nat)
    requires p <= stop <= p + |Offers(grid, n)|
    requires forall q :: p <= q < stop ==> user(q) == Reject
    requires stop < p + |Offers(grid, n)| ==> user(stop) != Reject
    ensures var offers, scan := Offers(grid, n), ScanSection(grid, n, section, user, p);
      && (scan.accepted <==> stop < p + |offers| && user(stop) == Accept)
      && (stop < p + |offers| ==> scan.prompts == PromptsFor(offers[..stop - p + 1], section))
      && (stop == p + |offers| ==> scan.prompts == PromptsFor(offers, section))
      && scan.clicks == if scan.accepted then Ids(offers[stop - p].block) else []
  {
    var offers := Offers(grid, n);
    PresentStopsAtFirstAnswer(offers, user, p, stop);
    assert offers[..|offers|] == offers;
  }

  /** When every block offered is rejected, the scan shows them all, clicks
      nothing and reports no block. */
  lemma ScanRejectedAll(grid: Option<seq<Seat>>, n: nat, section: string, user: nat -> Reply, p: nat)
    requires forall q :: p <= q < p + |Offers(grid, n)| ==> user(q) == Reject
    ensures ScanSection(grid, n, section, user, p) == SeatScan(PromptsFor(Offers(grid, n), section), [], false)
  {
    var offers := Offers(grid, n);
    PresentStopsAtFirstAnswer(offers, user, p, p + |offers|);
    assert offers[..|offers|] == offers;
  }

  /** No canvas, or a canvas whose seats are all taken: nothing is offered,
      nothing is clicked, and the scan reports no block. */
  lemma ScanWithoutSeats(grid: Option<seq<Seat>>, n: nat, section: string, user: nat -> Reply, p: nat)
    requires grid.Some? ==> forall s :: s in grid.value ==> !IsAvailable(s.fill)
    ensures ScanSection(grid, n, section, user, p) == SeatScan([], [], false)
  {
    if grid.Some? {
      NoAvailableSeatNoCandidates(grid.value, n);
    }
  }

  /** The areas a list of section names clicks when every one of them is
      tried: the first matching title of each name that has one. */
  function Clickable(titles: seq<AreaTitle>, names: seq<string>): seq<nat> {
    if |names| == 0 then []
    else
      (match FirstMatch(titles, names[0]) case None => [] case Some(t) => [t])
      + Clickable(titles, names[1..])
  }

  /** The canvas on display after the areas `areaClicks` were clicked in
      turn, `shown` before: that of the last area clicked, or still `shown`
      when none was (a handle past the titles shows none). */
  function CanvasAfter(gridOf: seq<Option<seq<Seat>>>, shown: Option<seq<Seat>>, areaClicks: seq<nat>): Option<seq<Seat>> {
    if |areaClicks| == 0 then shown
    else
      var t := areaClicks[|areaClicks| - 1];
      if t < |gridOf| then gridOf[t] else None
  }

  /** Clicking `x` and then `y` leaves on display what clicking `y` leaves
      after what `x` left. */
  lemma CanvasAfterAppend(gridOf: seq<Option<seq<Seat>>>, shown: Option<seq<Seat>>, x: seq<nat>, y: seq<nat>)
    ensures CanvasAfter(gridOf, shown, x + y) == CanvasAfter(gridOf, CanvasAfter(gridOf, shown, x), y)
  {
    if |y| > 0 {
      assert (x + y)[|x + y| - 1] == y[|y| - 1];
    } else {
      assert x + y == x;
    }
  }

  /** The blocks each area offers: `OffersOf(gridOf, n)[t]` for the canvas
      of title `t`. */
  function OffersOf(gridOf: seq<Option<seq<Seat>>>, n: nat): seq<seq<Candidate>> {
    seq(|gridOf|, t requires 0 <= t < |gridOf| => Offers(gridOf[t], n))
  }

  /** Trying one section from prompt number `p`, given the blocks each area
      offers: nothing when no title matches its name; otherwise its area is
      clicked and its blocks offered, and the outcome says whether one was
      accepted. */
  function Attempt(titles: seq<AreaTitle>, offersOf: seq<seq<Candidate>>, user: nat -> Reply,
                   name: string, p: nat): Trace
    requires |offersOf| == |titles|
  {
    match FirstMatch(titles, name)
    case None => Trace([], [], [], NothingAccepted)
    case Some(t) =>
      var scan := ScanOffers(offersOf[t], name, user, p);
      Trace([t], scan.prompts, scan.clicks, if scan.accepted then SeatsSelected(name) else NothingAccepted)
  }

  /** Trying `names` in order from prompt number `p`: each name is
      attempted in turn, from the prompt after those already shown, and the
      search stops at the first attempt that accepts a block. */
  function RunFrom(titles: seq<AreaTitle>, offersOf: seq<seq<Candidate>>, user: nat -> Reply,
                   names: seq<string>, p: nat): Trace
    requires |offersOf| == |titles|
    decreases |names|
  {
    if |names| == 0 then Trace([], [], [], NothingAccepted)
    else
      var a := Attempt(titles, offersOf, user, names[0], p);
      if a.outcome.SeatsSelected? then a
      else
        var rest := RunFrom(titles, offersOf, user, names[1..], p + |a.prompts|);
        Trace(a.areaClicks + rest.areaClicks, a.prompts + rest.prompts, a.clicks + rest.clicks, rest.outcome)
  }

  /** One step of the search: when the attempt `a` at the first name
      accepts a block, the search is that attempt alone. */
  lemma RunFromStops(titles: seq<AreaTitle>, offersOf: seq<seq<Candidate>>, user: nat -> Reply, names: seq<string>, p: nat,
                     a: Trace)
    requires |offersOf| == |titles| && |names| > 0
    requires a == Attempt(titles, offersOf, user, names[0], p) && a.outcome.SeatsSelected?
    ensures RunFrom(titles, offersOf, user, names, p) == a
  {
  }

  /** One step of the search: when the attempt `a` at the first name does
      not accept a block, the search is that attempt followed by the search
      `next` over the remaining names, from the prompt after the attempt's. */
  lemma RunFromContinues(titles: seq<AreaTitle>, offersOf: seq<seq<Candidate>>, user: nat -> Reply, names: seq<string>,
                         p: nat, a: Trace, pNext: nat, next: Trace)
    requires |offersOf| == |titles| && |names| > 0
    requires a == Attempt(titles, offersOf, user, names[0], p) && !a.outcome.SeatsSelected?
    requires pNext == p + |a.prompts| && next == RunFrom(titles, offersOf, user, names[1..], pNext)
    ensures RunFrom(titles, offersOf, user, names, p) ==
      Trace(a.areaClicks + next.areaClicks, a.prompts + next.prompts, a.clicks + next.clicks, next.outcome)
  {
  }

  /** `RunFromContinues` read on logs: logs that had `a` appended to them
      (`areaClicks0` became `areaClicks`, and so on) hold, with `next` still
      to come, what they would hold with the whole search still to come. */
  lemma RunFromStep(titles: seq<AreaTitle>, offersOf: seq<seq<Candidate>>, user: nat -> Reply, names: seq<string>,
                    a: Trace, rest: Trace, next: Trace,
                    areaClicks0: seq<nat>, prompts0: seq<Prompt>, clicks0: seq<nat>,
                    areaClicks: seq<nat>, prompts: seq<Prompt>, clicks: seq<nat>)
    requires |offersOf| == |titles| && |names| > 0
    requires a == Attempt(titles, offersOf, user, names[0], |prompts0|) && !a.outcome.SeatsSelected?
    requires areaClicks == areaClicks0 + a.areaClicks && prompts == prompts0 + a.prompts && clicks == clicks0 + a.clicks
    requires rest == RunFrom(titles, offersOf, user, names, |prompts0|)
    requires next == RunFrom(titles, offersOf, user, names[1..], |prompts|)
    ensures rest.outcome == next.outcome && rest.areaClicks == a.areaClicks + next.areaClicks
    ensures areaClicks0 + rest.areaClicks == areaClicks + next.areaClicks
    ensures prompts0 + rest.prompts == prompts + next.prompts
    ensures clicks0 + rest.clicks == clicks + next.clicks
  {
    RunFromContinues(titles, offersOf, user, names, |prompts0|, a, |prompts|, next);
    AppendAssoc(areaClicks0, a.areaClicks, next.areaClicks);
    AppendAssoc(prompts0, a.prompts, next.prompts);
    AppendAssoc(clicks0, a.clicks, next.clicks);
  }

  lemma AppendAssoc<T>(x: seq<T>, y: seq<T>, z: seq<T>)
    ensures x + (y + z) == x + y + z
  {
  }

  /** An attempt clicks the first matching title of the name, if any, and
      shows no prompt without one; with one, it shows the prompts of the
      blocks that area's scan offered, accepts exactly when that scan
      accepts a block, and then clicks the seats of exactly that block;
      otherwise it clicks no seat. */
  lemma AttemptSpec(titles: seq<AreaTitle>, offersOf: seq<seq<Candidate>>, user: nat -> Reply, name: string, p: nat)
    requires |offersOf| == |titles|
    ensures var a, m := Attempt(titles, offersOf, user, name, p), FirstMatch(titles, name);
      && a.areaClicks == (if m.Some? then [m.value] else [])
      && (m.None? ==> a.prompts == [])
      && (m.Some? ==> var pres := Present(offersOf[m.value], user, p);
            && a.prompts == PromptsFor(offersOf[m.value][..pres.shown], name)
            && (a.outcome.SeatsSelected? <==> pres.decision.Accepted?)
            && (a.outcome.SeatsSelected? ==> pres.decision.choice in offersOf[m.value] && a.clicks == Ids(pres.decision.choice.block)))
      && (a.outcome.SeatsSelected? ==> m.Some? && a.outcome == SeatsSelected(name))
      && (!a.outcome.SeatsSelected? ==> a.outcome == NothingAccepted && a.clicks == [])
  {
    match FirstMatch(titles, name)
    case None =>
    case Some(t) =>
      var pres := Present(offersOf[t], user, p);
      if pres.decision.Accepted? {
        assert pres.decision.choice in offersOf[t];
      }
  }

  /** The part of `AttemptSpec` the section loop's lemmas need: the area
      clicked, and which outcome goes with which seat clicks. */
  lemma AttemptShape(titles: seq<AreaTitle>, offersOf: seq<seq<Candidate>>, user: nat -> Reply, name: string, p: nat)
    requires |offersOf| == |titles|
    ensures var a, m := Attempt(titles, offersOf, user, name, p), FirstMatch(titles, name);
      && a.areaClicks == (if m.Some? then [m.value] else [])
      && (a.outcome.SeatsSelected? ==>
            && m.Some? && a.outcome == SeatsSelected(name)
            && exists c :: c in offersOf[m.value] && a.clicks == Ids(c.block))
      && (!a.outcome.SeatsSelected? ==> a.outcome == NothingAccepted && a.clicks == [])
  {
    AttemptSpec(titles, offersOf, user, name, p);
  }

  /** What a search, or part of one, promises about the user's answers to
      its prompts, numbered from `p`: only the last prompt can have been
      answered OK, and it was exactly when a block was selected; the seats
      then clicked are that prompt's block, in the section it names;
      otherwise no seat was clicked. */
  ghost predicate StopsAtFirstAccept(user: nat -> Reply, p: nat, tr: Trace) {
    && (forall q :: p <= q < p + |tr.prompts| && user(q) == Accept ==>
          tr.outcome.SeatsSelected? && q == p + |tr.prompts| - 1)
    && (tr.outcome.SeatsSelected? ==>
          && |tr.prompts| > 0 && user(p + |tr.prompts| - 1) == Accept
          && tr.prompts[|tr.prompts| - 1] == Prompt(tr.clicks, tr.outcome.section))
    && (!tr.outcome.SeatsSelected? ==> tr.clicks == [])
  }

  /** One section stops at its first accepted block. */
  lemma AttemptAnswers(titles: seq<AreaTitle>, offersOf: seq<seq<Candidate>>, user: nat -> Reply, name: string, p: nat)
    requires |offersOf| == |titles|
    ensures StopsAtFirstAccept(user, p, Attempt(titles, offersOf, user, name, p))
  {
    match FirstMatch(titles, name)
    case None =>
    case Some(t) =>
      ScanOffersAnswers(offersOf[t], name, user, p);
  }

  /** A section `a` that accepted nothing, followed by the search `next`
      from the prompt after its own, stops at the first accepted block when
      `next` does. */
  lemma StopsAtFirstAcceptStep(user: nat -> Reply, p: nat, a: Trace, next: Trace, tr: Trace)
    requires !a.outcome.SeatsSelected? && StopsAtFirstAccept(user, p, a)
    requires StopsAtFirstAccept(user, p + |a.prompts|, next)
    requires tr == Trace(a.areaClicks + next.areaClicks, a.prompts + next.prompts, a.clicks + next.clicks, next.outcome)
    ensures StopsAtFirstAccept(user, p, tr)
  {
    assert a.clicks == [] && tr.clicks == next.clicks;
    forall q | p <= q < p + |tr.prompts| && user(q) == Accept
      ensures tr.outcome.SeatsSelected? && q == p + |tr.prompts| - 1
    {
      if q < p + |a.prompts| {
        assert false;
      }
    }
    if tr.outcome.SeatsSelected? {
      assert tr.prompts[|tr.prompts| - 1] == next.prompts[|next.prompts| - 1];
    }
  }

  /** The whole section loop stops at the first block the user accepts: no
      earlier prompt, in any section, was answered OK. */
  lemma {:induction false} RunFromAnswers(titles: seq<AreaTitle>, offersOf: seq<seq<Candidate>>, user: nat -> Reply,
                                          names: seq<string>, p: nat)
    requires |offersOf| == |titles|
    ensures StopsAtFirstAccept(user, p, RunFrom(titles, offersOf, user, names, p))
    decreases |names|
  {
    if |names| > 0 {
      var a := Attempt(titles, offersOf, user, names[0], p);
      AttemptAnswers(titles, offersOf, user, names[0], p);
      if !a.outcome.SeatsSelected? {
        var next := RunFrom(titles, offersOf, user, names[1..], p + |a.prompts|);
        RunFromAnswers(titles, offersOf, user, names[1..], p + |a.prompts|);
        RunFromContinues(titles, offersOf, user, names, p, a, p + |a.prompts|, next);
        StopsAtFirstAcceptStep(user, p, a, next, RunFrom(titles, offersOf, user, names, p));
      }
    }
  }

  /** A whole search: resolve the section list, give up at once when it is
      empty, otherwise try the sections in order. */
  function Run(titles: seq<AreaTitle>, gridOf: seq<Option<seq<Seat>>>, user: nat -> Reply,
               requested: seq<string>, n: nat, p: nat): Trace
    requires |gridOf| == |titles|
  {
    var names := ResolveSections(requested, titles);
    if |names| == 0 then Trace([], [], [], NoSectionsToSearch) else RunFrom(titles, OffersOf(gridOf, n), user, names, p)
  }

  /** A whole search stops at the first block the user accepts. */
  lemma RunAnswers(titles: seq<AreaTitle>, gridOf: seq<Option<seq<Seat>>>, user: nat -> Reply,
                   requested: seq<string>, n: nat, p: nat)
    requires |gridOf| == |titles|
    ensures StopsAtFirstAccept(user, p, Run(titles, gridOf, user, requested, n, p))
  {
    var names := ResolveSections(requested, titles);
    if |names| > 0 {
      RunFromAnswers(titles, OffersOf(gridOf, n), user, names, p);
    }
  }

  /** The search stopped at section `i`: that name has a matching title, the
      areas clicked are those of the earlier names that had one and then that
      one, and the seats clicked are those of a block offered there. */
  ghost predicate SelectedAt(titles: seq<AreaTitle>, offersOf: seq<seq<Candidate>>, names: seq<string>, i: nat, tr: Trace)
    requires |offersOf| == |titles|
  {
    && i < |names|
    && tr.outcome == SeatsSelected(names[i])
    && FirstMatch(titles, names[i]).Some?
    && tr.areaClicks == Clickable(titles, names[..i]) + [FirstMatch(titles, names[i]).value]
    && exists c :: c in offersOf[FirstMatch(titles, names[i]).value] && tr.clicks == Ids(c.block)
  }

  /** The areas the first name of a list clicks when it is tried. */
  function HeadClick(titles: seq<AreaTitle>, names: seq<string>): seq<nat>
    requires |names| > 0
  {
    match FirstMatch(titles, names[0]) case None => [] case Some(t) => [t]
  }

  /** A stop at section `i` of the rest of the list is a stop at section
      `i + 1` of the whole list, once the first name's click is put in front. */
  lemma SelectedShift(titles: seq<AreaTitle>, offersOf: seq<seq<Candidate>>, names: seq<string>,
                      i: nat, rest: Trace, tr: Trace)
    requires |offersOf| == |titles| && |names| > 0
    requires SelectedAt(titles, offersOf, names[1..], i, rest)
    requires tr.outcome == rest.outcome && tr.clicks == rest.clicks
    requires tr.areaClicks == HeadClick(titles, names) + rest.areaClicks
    ensures SelectedAt(titles, offersOf, names, i + 1, tr)
  {
    assert names[..i + 1][1..] == names[1..][..i];
    assert Clickable(titles, names[..i + 1]) == HeadClick(titles, names) + Clickable(titles, names[1..][..i]);
  }

  /** When no section accepts a block, every clickable section was clicked,
      in list order, and no seat was clicked. */
  lemma {:induction false} RunFromNothing(titles: seq<AreaTitle>, offersOf: seq<seq<Candidate>>, user: nat -> Reply,
                                          names: seq<string>, p: nat)
    requires |offersOf| == |titles|
    ensures var tr := RunFrom(titles, offersOf, user, names, p);
      && tr.outcome != NoSectionsToSearch
      && (tr.outcome == NothingAccepted ==> tr.areaClicks == Clickable(titles, names) && tr.clicks == [])
    decreases |names|
  {
    if |names| > 0 {
      var a := Attempt(titles, offersOf, user, names[0], p);
      AttemptShape(titles, offersOf, user, names[0], p);
      if a.outcome.SeatsSelected? {
        RunFromStops(titles, offersOf, user, names, p, a);
      } else {
        var rest := RunFrom(titles, offersOf, user, names[1..], p + |a.prompts|);
        RunFromNothing(titles, offersOf, user, names[1..], p + |a.prompts|);
        RunFromContinues(titles, offersOf, user, names, p, a, p + |a.prompts|, rest);
        NothingStep(titles, names, a, rest, RunFrom(titles, offersOf, user, names, p));
      }
    }
  }

  /** A first section that accepted nothing, followed by a search of the
      rest that clicked every clickable section of it, clicked every
      clickable section of the whole list. */
  lemma NothingStep(titles: seq<AreaTitle>, names: seq<string>, a: Trace, rest: Trace, tr: Trace)
    requires |names| > 0
    requires a.areaClicks == HeadClick(titles, names) && a.clicks == []
    requires tr == Trace(a.areaClicks + rest.areaClicks, a.prompts + rest.prompts, a.clicks + rest.clicks, rest.outcome)
    requires rest.outcome != NoSectionsToSearch
    requires rest.outcome == NothingAccepted ==> rest.areaClicks == Clickable(titles, names[1..]) && rest.clicks == []
    ensures tr.outcome != NoSectionsToSearch
    ensures tr.outcome == NothingAccepted ==> tr.areaClicks == Clickable(titles, names) && tr.clicks == []
  {
    assert a.clicks + rest.clicks == rest.clicks;
  }

  /** The section a successful search stopped at. */
  lemma {:induction false} SelectedIndex(titles: seq<AreaTitle>, offersOf: seq<seq<Candidate>>, user: nat -> Reply,
                                         names: seq<string>, p: nat) returns (i: nat)
    requires |offersOf| == |titles|
    requires RunFrom(titles, offersOf, user, names, p).outcome.SeatsSelected?
    ensures SelectedAt(titles, offersOf, names, i, RunFrom(titles, offersOf, user, names, p))
    decreases |names|
  {
    var tr := RunFrom(titles, offersOf, user, names, p);
    var a := Attempt(titles, offersOf, user, names[0], p);
    AttemptShape(titles, offersOf, user, names[0], p);
    if a.outcome.SeatsSelected? {
      assert names[..0] == [];
      i := 0;
    } else {
      var rest := RunFrom(titles, offersOf, user, names[1..], p + |a.prompts|);
      assert tr == Trace(a.areaClicks + rest.areaClicks, a.prompts + rest.prompts, a.clicks + rest.clicks, rest.outcome);
      assert a.clicks + rest.clicks == rest.clicks;
      i := SelectedIndex(titles, offersOf, user, names[1..], p + |a.prompts|);
      SelectedShift(titles, offersOf, names, i, rest, tr);
      i := i + 1;
    }
  }

  /** Sections are tried in list order, those without a matching title are
      skipped, and the search stops after the first section where a block is
      accepted: the areas clicked are those of the earlier clickable
      sections and then that one, the last prompt shown is the only one
      answered OK, and the seats clicked are exactly its block, one offered
      in that section. */
  lemma RunFromSelected(titles: seq<AreaTitle>, offersOf: seq<seq<Candidate>>, user: nat -> Reply,
                        names: seq<string>, p: nat)
    requires |offersOf| == |titles|
    ensures var tr := RunFrom(titles, offersOf, user, names, p);
      tr.outcome.SeatsSelected? ==> exists i :: SelectedAt(titles, offersOf, names, i, tr)
    ensures StopsAtFirstAccept(user, p, RunFrom(titles, offersOf, user, names, p))
  {
    RunFromAnswers(titles, offersOf, user, names, p);
    if RunFrom(titles, offersOf, user, names, p).outcome.SeatsSelected? {
      var i := SelectedIndex(titles, offersOf, user, names, p);
    }
  }

  /** The search gives up before clicking anything exactly when no section
      was requested and the page shows no area title. */
  lemma SearchWithoutSections(titles: seq<AreaTitle>, gridOf: seq<Option<seq<Seat>>>, user: nat -> Reply,
                              requested: seq<string>, n: nat, p: nat)
    requires |gridOf| == |titles|
    ensures var tr := Run(titles, gridOf, user, requested, n, p);
      && (tr.outcome == NoSectionsToSearch <==> |requested| == 0 && |titles| == 0)
      && (tr.outcome == NoSectionsToSearch ==> tr.areaClicks == [] && tr.prompts == [] && tr.clicks == [])
  {
    ResolveSectionsSpec(requested, titles);
    var names := ResolveSections(requested, titles);
    if |names| > 0 {
      RunFromNothing(titles, OffersOf(gridOf, n), user, names, p);
    }
  }
}
