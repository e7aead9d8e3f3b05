# JagerMenzer core, modelled in Dafny

JagerMenzer is a single script, `main.py`. It watches the canteen listing of the Technical University of Liberec and orders the meals the operator has pinned as soon as they come back on sale. This project models the parts of that script that decide things. Fetching pages, parsing HTML and talking to the console are treated as inputs.

- **Tokens** (`tokens.dfy`, module `Tokens`): the per-line parse of the token file in `load_tokens`, the dictionary it builds, and the start-up check in `main` that both tokens are set.
- **Meals** (`meals.dfy`, module `Meals`):
  - the record `parse_meals` builds from one listing entry: availability and order id from `data-menu-id`, the number, the name with its portion size removed, and the price;
  - the monitor's identity test (`Matches`);
  - the canteen slug and the listing and order addresses.
- **Orders** (`orders.dfy`, module `Orders`): the `order_meal` guard, the form it posts (an empty `ORDER`, the order id as `JID` and the canteen number as `CANTEEN`), and HTTP 200 as the only success.
- **Selection** (`selection.dfy`, module `Selection`): the 1-based numbering of `display_meals`, and the `select_meals` prompt loop. The prompt loop is modelled twice: as written, and as evidently intended (see Findings).
- **Monitoring** (`monitoring.dfy`, module `Monitoring`): `monitor_and_order`, as the class `Monitor`.
  - It holds the pinned targets with their `ordered` flags, the log of every order post made, and the seconds slept.
  - `Tick` is one pass of the `while True` body. `Run` is the whole loop over a sequence of snapshots.
  - Both methods are proved equal to the functions `TickSpec` and `RunSpec`, and the lemmas state the loop's properties about those functions.
- **Session** (`session.dfy`, module `Session`): selection followed by monitoring. A session never reports that everything was ordered, both with `select_meals` as written and with the intended selection.
- **Shared modules**:
  - `optional.dfy` (module `Optional`): the `Option` type;
  - `text.dfy` (module `Text`): the Python string operations the script relies on, namely `strip`, `split`, `int()` and `str()`.

How the environment is modelled:

- **Snapshots.** One tick's fetch is an `Option<seq<MealRecord>>`. `None` stands for a failed fetch or an empty page.
- **Order responses.** The server is a function `server: nat -> Response`, indexed by how many order posts the run has made so far. `Status(200)` is a success; any other status and `TransportError` are failures.
- **`sys.exit(0)` after a successful order** is the terminal outcome `OrderPlaced(i)` / `Exited(i)`.
- **The operator's Ctrl+C** is the sequence of snapshots running out (`Cancelled`).
- **Sleeping** is a counter that grows by the check interval (3 s) after every tick that fetched a page and did not finish.
- **The console** is the sequence of lines the operator types.

Where the code and its documentation disagree, this model follows the code:

- `available` is the truthiness of `data-menu-id`. An entry whose attribute is present but empty is unavailable, and its order id is `""` (main.py:147-149).
- The start-up check detects only the template placeholder `"-"`. A missing token reads as `""` and passes (main.py:35-36, 413).
- The matcher compares the target with every record of the snapshot; there is no first-match `break` (main.py:371-374).
- The first successful order ends the whole program, even when other pinned meals are still unordered (main.py:383-387).

## Model

| member | source | states |
|---|---|---|
| Tokens.ParseLineIgnores | main.py:19-22 | a line contributes nothing exactly when it is blank after stripping, starts with `#`, or has no `=` |
| Tokens.ParseLineClean | main.py:23-26 | a parsed key contains no `=` (split at the first `=`) and is stripped; the value is already stripped of `"` |
| Tokens.ParseTemplateLine | main.py:11-13 | the documented line `KEY = "value"` parses to exactly that key and that value, without the quotes |
| Tokens.LoadTokens | main.py:15-28 | the loop that fills the dictionary line by line yields the fold of the parsed lines, later lines overwriting earlier ones |
| Tokens.TokensKeys | main.py:18-27 | a key is in the dictionary exactly when some line assigns it |
| Tokens.TokensLastWins | main.py:27 | a key holds the value of the last line that assigns it (a later duplicate overwrites an earlier one) |
| Tokens.TemplateTokenRejected | main.py:412-416 | a file whose last `MENZA_K8_TOKEN` line is still the template's `"-"` fails the start-up check |
| Tokens.MissingTokensPass | main.py:35-36 | a file assigning neither token passes the start-up check, since `tokens.get(key, "")` gives `""`, not `"-"` |
| Meals.BuildRecord | main.py:144-194 | every built record has `available` equal to the truthiness of the menu id, order id equal to the menu id, menu and canteen ids copied from the attributes, a non-empty number, and a price that is "N/A" or digits-dot-digits |
| Meals.CleanNumberStable | main.py:161-162 | the meal number is never blank ("N/A" replaces a blank cell), and cleaning it again changes nothing |
| Meals.PortionRemoved | main.py:169-171 | a heading whose stripped text ends in digits followed by `g` loses exactly that portion size, whatever whitespace surrounds it, and the rest is stripped |
| Meals.NoPortionKept | main.py:169-171 | a name not ending in digit-then-`g` is only stripped |
| Meals.SearchDecimalFindsFirst | main.py:188 | the leftmost-match search for `\d+,\d+` equals an independent description: the whole digit runs around the first comma that has a digit on each side |
| Meals.PriceCases | main.py:183-194 | the price is "N/A" exactly when the span is missing or has no digit-comma-digit; otherwise it is digits, one dot, digits |
| Meals.PriceDigitsAround | main.py:186-190 | a price found is the whole digit run before the first comma with a digit on each side, a dot, and the whole digit run after it |
| Meals.ReplaceChar | main.py:190 | same length, each comma replaced by a dot, every other character kept |
| Meals.SoldOutMatchesOnlySoldOut | main.py:372-374 | a record that matches a target without a menu id is itself unavailable and has no order id |
| Meals.PageUrlsDistinct | main.py:72-80 | canteens 1, 2 and 3 have three different listing addresses |
| Meals.OrderUrlIsHarcov | main.py:244 | the order address equals the listing address exactly when the canteen is neither 2 nor 3 (orders always go to Harcov) |
| Orders.OrderRequest | main.py:239-272 | a request is made exactly when the order id is truthy; it posts that order id as `JID`, with an empty `ORDER` field, to the Harcov address |
| Orders.OrderRequestCanteen | main.py:268-272 | the canteen number in the request is text that parses back to the number |
| Orders.RequestIffAvailable | main.py:239-242 | for a built record, a request is made exactly when the record is available |
| Text.StripCharsKeeps | main.py:19-22 | stripping never removes a character outside the stripped set, so `=` is in the stripped line exactly when it is in the raw line |
| Text.StripCharsIdempotent | main.py:24-26 | stripping twice is stripping once |
| Text.SplitJoin | main.py:324 | splitting at commas a comma-free list of parts joined by commas gives those parts back |
| Text.JoinSplit | main.py:324 | joining the parts of a split line with the separator rebuilds the line |
| Text.ParseIntToString | main.py:271 | `int(str(i)) == i` for every integer |
| Text.ParseIntCanonical | main.py:324 | converse of `int(str(i)) == i`: a string that `int()` accepts, with no `+`, no leading zero and not `-0`, is `str()` of the value it parses to |
| Selection.DisplayMeals | main.py:201-232 | no mapping for an empty list; otherwise the keys are exactly 1..n and key i holds the i-th meal in list order |
| Selection.ParseAllParts | main.py:324 | the list comprehension succeeds exactly when every comma-separated part, once stripped, is an integer, and keeps them in order |
| Selection.ParseIndicesRender | main.py:314 | numbers entered joined by commas read back as exactly those numbers |
| Selection.Lookup | main.py:325-331 | all or nothing: a result exactly when every number is listed, and then the listed meals in input order with duplicates kept |
| Selection.ApplyLine | main.py:325-331 | the index loop appends the named meals to the selection so far, or clears it on the first unlisted number |
| Selection.SelectMeals | main.py:309-341 | the prompt loop's outcome is the as-written session `SelectFrom` over the lines entered |
| Selection.BlankLineEnds | main.py:319-322 | a blank or all-whitespace line ends the session, whatever was selected before |
| Selection.FirstLineSelects | main.py:324-338 | a first line naming only listed meals, one with a price, returns exactly those meals in order, duplicates kept |
| Selection.InvalidIndexDiscards | main.py:325-331 | a line naming an unlisted number discards the whole selection, carried meals included, and asks again |
| Selection.SelectFromPriced | main.py:333-338 | as written, a returned selection is never empty and holds at least one meal with a price |
| Selection.UnreadableLineIgnored | main.py:340-341 | a line that is not all integers asks again and changes nothing |
| Selection.StaleSelectionKept | main.py:325-341 | as written: meal 1 without a price, then meal 2, returns both meals although the second line named only meal 2 |
| Selection.SelectIntendedFromOneLine | main.py:317-338 | as intended: a session that selects returns exactly one line's meals, non-empty, and every earlier line was neither blank nor fully listed |
| Selection.AsWrittenWhenPriced | main.py:325-338 | when every listed meal has a price, the as-written loop and the intended one agree on every input |
| Monitoring.Pinned | main.py:364-365 | every selected meal becomes a target, in order, not yet ordered |
| Monitoring.CandidatesMembers | main.py:364-377 | a record is tried for a target exactly when the target is unordered, the record is in the snapshot, matches on menu id, section and number, and is available |
| Monitoring.CandidatesOrderFree | main.py:371-374 | which records are tried for which targets does not depend on the snapshot's order |
| Monitoring.SoldOutNeverTried | main.py:372-377 | a target pinned without a menu id is never tried |
| Monitoring.SubmitPosts | main.py:377-382 | the posts made are, in order, a prefix of the guarded requests of the tried records, and the k-th gets the server's k-th response |
| Monitoring.SubmitWinner | main.py:383-389 | with no winner every request was posted and refused; with a winner the last post was accepted, is for the winner, and all earlier posts were refused |
| Monitoring.Monitor.TryTarget | main.py:371-389 | the inner loop posts for one target exactly the attempts of its matches, stops at the first acceptance, and then marks only that target ordered |
| Monitoring.Monitor.Sweep | main.py:364-389 | the nested loops post exactly the attempts over all candidates; a winner is marked ordered; otherwise `all_ordered` holds exactly when every target was already ordered |
| Monitoring.Monitor.Tick | main.py:351-398 | one pass of the loop body leaves the outcome, targets and post log that `TickSpec` gives |
| Monitoring.Monitor.Run | main.py:349-404 | the whole loop leaves the outcome, targets, post log and sleep total that `RunSpec` gives |
| Monitoring.TickKeepsLog | main.py:351-398 | a tick only appends to the post log |
| Monitoring.TickNeverResubmits | main.py:364-382 | every post of a tick is for a target unordered before it, and comes from an available record in the snapshot that matches it |
| Monitoring.TickOrderPlaced | main.py:383-387 | an order placed for target i: i was unordered, only i becomes ordered, the last post was accepted and every earlier post of the tick was refused |
| Monitoring.TickNoOrder | main.py:388-389 | without an accepted order no target changes, so each stays pending for the next tick, and every post of the tick was refused |
| Monitoring.TickTriesEveryMatch | main.py:371-382 | in a tick without an accepted order, every available matching record of every unordered target was posted, since there is no `break` |
| Monitoring.TickFinishedIff | main.py:352-398 | a tick fails exactly when the fetch failed, and finishes exactly when the fetch succeeded and every target was already ordered |
| Monitoring.TickSoldOut | main.py:372-387 | a tick never posts for, orders or changes a target pinned without a menu id |
| Monitoring.TickNewPosts | main.py:364-382 | a tick's new posts are all for unordered targets and carry the server's responses in order |
| Monitoring.RunNeverResubmits | main.py:364-366 | over a whole run, no post is made for a target that was ordered when the run started |
| Monitoring.RunExited | main.py:383-387 | a run that exits for target i has placed exactly one accepted order, the last post, and marks only i ordered |
| Monitoring.RunNoOrder | main.py:349-404 | a run that does not exit leaves every target unchanged, and all its posts were refused |
| Monitoring.RunCompletedIff | main.py:352-398 | the loop reports completion exactly when every target was ordered at the start and some fetch succeeded |
| Monitoring.PinnedNeverCompletes | main.py:364-398 | a run over freshly pinned meals never reports completion |
| Monitoring.RunCancelledSleeps | main.py:355-401 | an interrupted run has slept 3 seconds per successful fetch and none after a failed fetch |
| Monitoring.RunSkipsFailedFetch | main.py:355-359 | a failed fetch changes nothing: removing it from the snapshots gives the same run |
| Monitoring.RunSoldOut | main.py:372-387 | a whole run never posts for, orders or changes a target pinned without a menu id |
| Session.SessionNeverCompletes | main.py:447-450 | with `select_meals` as written, a selection followed by monitoring picks at least one meal and never reports that everything was ordered |
| Session.IntendedSessionNeverCompletes | main.py:447-450 | the same for the intended selection of the Findings table |

## Left out

- HTTP requests, cookies and headers (main.py:99-106, 274-286) are not modelled. A fetch is an optional snapshot, and a post's result is the `server` function's response. `requests` exceptions are `TransportError`.
- HTML traversal in `parse_meals` and `check_login_status` is not modelled. The entry's attributes and cell texts arrive as an `Article`. Soups, the skipped soup entries, the `len(cells) >= 5` test and the `rating`, `notes` and `ingredients` fields are left out. A listing entry without a detail row lacks `number`, and the script's `KeyError` on it is not modelled either.
- Console output (`print`) is left out. Console input is the sequence of lines entered. Running out of lines is the outcome `NoMoreInput` where the script would raise `EOFError`.
- `get_current_date` (date validation via `datetime`) and `select_canteen` are library and console plumbing. The date is an opaque string, and the canteen is any integer.
- `time.sleep` is the `slept` counter. `KeyboardInterrupt` is the snapshots running out, so an interrupt can only arrive between ticks.
- `sys.exit` is a terminal outcome, not a process exit. The exit from the blank-line branch of `select_meals` is `Ended`.
- Reading the token file and `FileNotFoundError` are left out. The reader is given the file's lines.
- Selection.LineStep: the `float()` maximum of the prices is modelled only as whether some selected meal has a price. The maximum is printed and never used.
- Selection.Read: `int()` is modelled for ASCII digits with an optional sign. Underscores between digits and non-ASCII digits, which Python's `int()` also accepts, are not. In the same way, `\d` in the name and price expressions is ASCII only.
- `display_meals` returns `None` for an empty list, and the script then passes that to `select_meals`. There, any line of integers raises an uncaught `TypeError` at `idx in meal_mapping` (main.py:326) and ends the program. In the model, `DisplayMeals` returns `None` and the selection functions take a mapping, so an empty listing behaves as an empty mapping: every number is unlisted and the prompt asks again.
- The selected meals are the mapping's own dictionaries, so a duplicate selection shares one dictionary. Setting `ordered` on one therefore sets it on the other too. The model gives each selection its own target, so this aliasing is not captured. It matters only after an order, and the program exits then.

## Findings

| source | as written | input that shows it | evidently intended | confidence | as-written member | corrected member |
|---|---|---|---|---|---|---|
| main.py:325-341 | `max([])` raises `ValueError` when no selected meal has a price. The handler asks again without clearing `selected_meals`, so the next line is appended to the stale selection. | meal 1 priced "N/A", meal 2 priced; the operator enters "1", then "2"; the result is meals 1 and 2 | each prompt starts from an empty selection, and a line naming only listed meals is returned | not executed | Selection.StaleSelectionKept | Selection.SelectIntendedFromOneLine |
