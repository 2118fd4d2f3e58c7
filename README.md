# Seat search of the Melon Ticket bot, modelled in Dafny

This project models the seat-search engine of the `TicketBot` user script
(`scripts/melonticket/seat.js`) and proves what it does. Given a seat-map
frame, the bot works out a list of sections and clicks each section's area
in turn. On each area's canvas it looks for a block of `n` adjacent
available seats and asks the user to confirm each block it finds. It stops
at the first block the user accepts, and clicks that block's seats.

The model has eight modules:

- `Seats` holds the seat rectangle and the availability test on its
  `fill`.
- `Sorting` holds the engine's stable sort with a numeric comparator. It is
  written as an insertion sort and proved ordered, a permutation and
  stable.
- `GridIndex` holds the row map. It is keyed by `y` and keeps the map's
  key insertion order.
- `BlockFinder` holds the row order, the window slide and the gap test,
  and the list of blocks a canvas offers, in offer order.
- `Confirmation` covers offering blocks one at a time to a user oracle: the
  answer to prompt number `k` is `Accept`, `Reject` or `Throw`.
- `Sections` holds area-title discovery (`trim`) and the suffix match used
  to find an area.
- `SearchRun` describes a whole search as a value: the areas clicked, the
  prompts shown, the seats clicked and the outcome.
- `Bot` holds the page (`Page`, whose seat outlines, displayed canvas and
  event logs change) and the `TicketBot` methods. These have the loops of
  the source, and each is proved to do exactly what the functions above
  describe. Every outline changed while a prompt is up is restored.

The page is static: a wait for an element succeeds exactly when the
element is there. The user's answers are a parameter of the page. So is
the canvas each area shows when clicked (`None` when the canvas never
appears, so the wait for it fails and the error is caught).

## Model

| member | source | states |
|---|---|---|
| Seats.UnavailableFills | scripts/melonticket/seat.js:132-133 | a seat is skipped exactly when its fill is missing or empty, is exactly "none", or is "#DDDDDD" in any mix of letter case |
| GridIndex.IndexSeats | scripts/melonticket/seat.js:130-139 | the indexing loop builds exactly the row index `Index(seats)` |
| GridIndex.IndexRows | scripts/melonticket/seat.js:130-139 | the index has a row for exactly the `y` values that carry an available seat; that row is the available seats with that `y` in document order; the key list names each row once |
| GridIndex.NoAvailableSeatNoRows | scripts/melonticket/seat.js:130-140 | with no available seat the row map is empty |
| GridIndex.IndexRowFits | scripts/melonticket/seat.js:136-137 | a stored row is never empty, holds only canvas seats, and keeps distinct elements distinct |
| GridIndex.RowOfMembers | scripts/melonticket/seat.js:131-138 | every seat of a row is an available canvas seat with the row's `y` |
| Sorting.SortByOrders | scripts/melonticket/seat.js:142 | the sort returns its input ordered by key, as a permutation of it |
| Sorting.SortByStable | scripts/melonticket/seat.js:146 | elements with equal keys keep their relative order |
| Sorting.SortBySorted | scripts/melonticket/seat.js:146 | sorting a list already in key order changes nothing |
| Sorting.PermutationKeepsInjective | scripts/melonticket/seat.js:142 | reordering keeps distinct keys (and distinct elements) distinct |
| BlockFinder.IsContiguous | scripts/melonticket/seat.js:153-159 | the gap loop answers true exactly when no step between neighbours exceeds the limit; a gap equal to the limit is adjacent |
| BlockFinder.VisitOrderIsAscending | scripts/melonticket/seat.js:142-143 | rows are visited once each, in strictly ascending numeric order of key |
| BlockFinder.ScanSetup | scripts/melonticket/seat.js:140-144 | every key visited has a stored non-empty row; the blocks offered are those of the rows in visit order; an empty map offers nothing |
| BlockFinder.RowCandidatesBelowSpec | scripts/melonticket/seat.js:151-161 | the windows offered in a sorted row are exactly its contiguous windows of `n` seats, in ascending start order, each start tried once |
| BlockFinder.CandidatesOverMembers | scripts/melonticket/seat.js:143-161 | the blocks of a row sequence are exactly the contiguous windows of its rows having at least `n` seats |
| BlockFinder.CandidatesOverOrdered | scripts/melonticket/seat.js:143-172 | over ascending keys, blocks come by row key and, within a row, by start |
| BlockFinder.CandidatesSpec | scripts/melonticket/seat.js:130-172 | a canvas offers every contiguous window of `n` seats of every row with at least `n` available seats, sorted by `x`, and nothing else, ordered by row key then start |
| BlockFinder.CandidateBlocks | scripts/melonticket/seat.js:146-152 | an offered block has `n` seats, all available canvas seats of its row, distinct when the canvas's are |
| BlockFinder.NoAvailableSeatNoCandidates | scripts/melonticket/seat.js:140 | with every seat taken, nothing is offered |
| BlockFinder.GapExample | scripts/melonticket/seat.js:148-171 | seats at x = 0, 10, 20, 100, width 10, pairs: (0,10) then (10,20) are offered, never (20,100) |
| BlockFinder.SortedRowFits | scripts/melonticket/seat.js:146 | every seat of the sorted row is a seat of the row, with its element handle in range, and distinct element handles stay distinct |
| Confirmation.Present | scripts/melonticket/seat.js:161-171 | no more prompts than blocks; an accepted block is the last one shown; running out means every block was shown |
| Confirmation.PresentStopsAtFirstAnswer | scripts/melonticket/seat.js:161-171 | the scan stops at the first prompt not cancelled: OK accepts exactly that block, a throw ends with none; the scan runs off the end, having shown every block, exactly when all are cancelled |
| Confirmation.PresentAnswers | scripts/melonticket/seat.js:161-171 | among the prompts a scan shows, an OK can only answer the last one, and then exactly that block is accepted |
| Confirmation.PresentExhausted | scripts/melonticket/seat.js:151-172 | the scan runs off the end exactly when every prompt it shows is cancelled |
| Confirmation.PresentAfterRejected | scripts/melonticket/seat.js:168-170 | after cancelled blocks, the scan goes on as a scan of the rest from the next prompt |
| Confirmation.PresentDecidedPrefix | scripts/melonticket/seat.js:162-167 | once the scan decides, later blocks are never offered |
| Confirmation.PromptsForAppend | scripts/melonticket/seat.js:162 | the prompts of two block lists shown in turn are the prompts of their concatenation |
| Sections.TrimStartSpec | scripts/melonticket/seat.js:244 | trimming the start removes a run of leading white space and stops at the first other character |
| Sections.TrimEndSpec | scripts/melonticket/seat.js:244 | trimming the end removes a run of trailing white space and stops at the last other character |
| Sections.TrimSpec | scripts/melonticket/seat.js:244 | a title text is white space, then its trimmed text, then white space; the trimmed text neither starts nor ends with white space |
| Sections.TrimIdempotent | scripts/melonticket/seat.js:244 | trimming twice is trimming once |
| Sections.FirstMatch | scripts/melonticket/seat.js:225-232 | the title chosen ends with the name and no earlier title does; none is chosen only when no title ends with it |
| Sections.ResolveSectionsSpec | scripts/melonticket/seat.js:187-194 | the requested list is used when non-empty, else one trimmed name per title; the result is empty exactly when both are |
| SearchRun.ScanSectionStops | scripts/melonticket/seat.js:161-178 | a section's scan accepts exactly when the first uncancelled prompt is answered OK; it shows the blocks up to that one, and clicks exactly that block's seats |
| SearchRun.ScanOffersAnswers | scripts/melonticket/seat.js:161-167 | in a section's scan only the last prompt can have been answered OK; the scan accepts exactly then and clicks exactly that prompt's block |
| SearchRun.ScanRejectedAll | scripts/melonticket/seat.js:151-174 | when every block is cancelled, all are shown, nothing is clicked and the scan reports false |
| SearchRun.ScanWithoutSeats | scripts/melonticket/seat.js:126-140 | without a canvas, or with every seat taken, nothing is shown or clicked and the scan reports false |
| SearchRun.AttemptSpec | scripts/melonticket/seat.js:196-215 | a section clicks its first matching title, if any, and shows no prompt without one; with one, it shows the prompts of the blocks that area's scan offered, accepts exactly when that scan accepts a block, and then clicks exactly the accepted block's seats; otherwise no seat is clicked |
| SearchRun.AttemptAnswers | scripts/melonticket/seat.js:197-212 | in one section only the last prompt can have been answered OK; the section is selected exactly then, with that prompt's block clicked |
| SearchRun.RunFromAnswers | scripts/melonticket/seat.js:196-217 | over the whole section loop, no prompt but the last was answered OK; a successful search ends on a prompt answered OK, and the seats clicked are exactly that prompt's block, in the section selected; a failed one clicks no seat |
| SearchRun.RunAnswers | scripts/melonticket/seat.js:181-217 | the same for a whole search, section list resolution included |
| SearchRun.RunFromNothing | scripts/melonticket/seat.js:196-217 | a search that accepts nothing clicked every clickable section, in list order, and no seat |
| SearchRun.SelectedIndex | scripts/melonticket/seat.js:196-212 | a successful search stopped at some section `i`, one with a matching title: the areas clicked are those of the earlier clickable sections and then section `i`'s, and the seats clicked are a block offered there (which block, and that it is the first answered OK, is `RunFromSelected`) |
| SearchRun.RunFromSelected | scripts/melonticket/seat.js:196-212 | sections are tried in order, unclickable ones are skipped, and the search stops after the first block answered OK, whose seats, and no others, are clicked |
| SearchRun.SearchWithoutSections | scripts/melonticket/seat.js:187-194 | the search gives up, with nothing clicked or shown, exactly when no section was requested and the page has no area title |
| Bot.TicketBot.HighlightBlock | scripts/melonticket/seat.js:97-103 | returns each element's previous outline; the block's elements are outlined red and all others are untouched |
| Bot.TicketBot.RestoreBlock | scripts/melonticket/seat.js:111-119 | putting the saved outlines back restores every outline to its value before highlighting |
| Bot.TicketBot.ConfirmSeatSelection | scripts/melonticket/seat.js:96-121 | the answer is the user's answer to this prompt; the block is red while it is up; afterwards every outline is as before, whatever the answer (also on a throw) |
| Bot.TicketBot.ClickSeats | scripts/melonticket/seat.js:165 | the block's seats are clicked once each, in block order |
| Bot.TicketBot.OfferCandidate | scripts/melonticket/seat.js:161-171 | one prompt for the block; its seats are clicked exactly when the answer is OK; outlines unchanged |
| Bot.TicketBot.ScanWindows | scripts/melonticket/seat.js:148-172 | the window loop of a row behaves as `Present` over the row's contiguous windows: same prompts, same clicks, same stop |
| Bot.TicketBot.ScanRow | scripts/melonticket/seat.js:144-172 | a row shorter than `n` is skipped; otherwise it is sorted by `x` and behaves as `Present` over its windows |
| Bot.TicketBot.ScanRows | scripts/melonticket/seat.js:143-174 | the row loop behaves as `Present` over the blocks of all rows in visit order, and reports whether one was accepted |
| Bot.TicketBot.FindAndClickSeat | scripts/melonticket/seat.js:123-179 | the seat scan does exactly what `ScanSection` says (true iff a block was accepted; exactly its seats clicked; no prompt after it), and leaves every outline as it was |
| Bot.TicketBot.ClickOnArea | scripts/melonticket/seat.js:220-239 | clicks the first title whose markup ends with the name, brings up its canvas and reports true; otherwise clicks nothing, leaves the display as it was and reports false |
| Bot.TicketBot.GetSectionList | scripts/melonticket/seat.js:240-248 | one trimmed title text per area title, in document order; none when there is no title |
| Bot.TicketBot.TrySection | scripts/melonticket/seat.js:197-205 | one pass of the search loop does exactly what `Attempt` says, and leaves on display the canvas of the area it clicked, if any |
| Bot.TicketBot.SearchSections | scripts/melonticket/seat.js:196-217 | the section loop does exactly what `RunFrom` says, and leaves on display the canvas of the last area clicked, if any |
| Bot.TicketBot.Search | scripts/melonticket/seat.js:181-218 | the whole search does exactly what `Run` says, leaves on display the canvas of the last area clicked, if any, and leaves every outline as it was |

## Left out

- The captcha task (`solveCaptcha`: a network `fetch`, JSON parsing and a DOM fill) and its start-then-await concurrency with the search. An accepted block ends the model's search without awaiting it.
- `openEverySection`, the `sleep` delays and the polling in `waitForElement` and `initialize`. The page is static, so a wait fails exactly when the element is absent.
- The `CONFIG.NEXT_BUTTON_ID` lookup after an accepted block. The constant is undefined, so the selector is `#undefined`: it finds nothing unless the page has an element whose id is "undefined", which would then be clicked.
- `load_global_settings`, the entry point and the stored settings.
- Console logging.
- Regular-expression metacharacters in section names. The area match is a plain ends-with test on the title markup.
- `parseFloat` corner cases and floating-point rounding. Coordinates and widths are exact reals, and NaN is not modelled.
- Row keys "10" and "10.0" would be two rows in the source. Row keys here are numbers, so they are one row.
- Letter case: only ASCII letters are lower-cased by the fill test, since no other character can make a fill equal "#dddddd" after lower-casing.
- A missing `fill` attribute is modelled as the empty fill. Both are rejected alike.
- `data.section` values other than a list of names. A missing list is modelled as the empty list.
- The in-place `rowSeats.sort`. The model sorts a copy, and the unsorted row is never read again.
- Bot.TicketBot.FindAndClickSeat: requires the canvas's seats to be distinct elements with a known outline slot. DOM rectangles are distinct objects, which the source takes for granted. The same holds for Bot.TicketBot.HighlightBlock, Bot.TicketBot.ConfirmSeatSelection and the methods between them.
- Bot.Page.Valid: the page invariant asks the same of every canvas an area click can show: each entry of `gridOf`, like the current `grid`, has distinct elements with known outline slots. Bot.TicketBot.ClickOnArea, Bot.TicketBot.TrySection, Bot.TicketBot.SearchSections and Bot.TicketBot.Search require it, as does every method that reads the canvas.
- Bot.Page: the outlines are a sequence indexed by element handle, reassigned as a whole, rather than style fields updated in place on shared DOM objects.
- BlockFinder.CandidatesOver: it gives no blocks for a key that has no row. The scan only visits keys of its own map, so this case cannot arise.
