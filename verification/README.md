# Mock trip booking service — a Dafny model

This project models the in-memory core of a mock trip booking web service.
The service keeps two dictionaries:
- `OPENINGS_DB`, the inventory of bookable openings keyed by opening identifier;
- `RESERVATIONS_DB`, the reservations keyed by reservation identifier.

On top of them it offers these operations:
- **Openings search.** An unknown country exits early. Otherwise the optional predicates are applied one after another: country, start-date lower bound, end-date upper bound and maximum day rate. When a stay length `days_count` is given (default 2), each surviving row gets a stay-length proximity score, written in place into the shared inventory row, and the rows are then stably sorted in descending order of `ranking_score or -1`; with `days_count` None they stay in inventory order with the scores they already carry. The rows are finally truncated by `limit` with Python slice semantics.
- **Pop-then-book executor**, behind the plain booking endpoint and the competitive one. The competitive endpoint first draws a random number and rejects the booking when the draw is above 0.3.
- **Opening count.**
- **Per-country counts.**
- **Reservation listing**, whose status polarity is inverted.

The model has six modules:
- `Wrappers`: the `Option` and `Result` datatypes.
- `Enums`: the hotel companies, the lodging classes and their rate ranges, and the 30 countries with their string values.
- `Schemas`: the records (`Opening`, `UserProfile`, `BookingRequest`, `Reservation`, the responses). It also holds reservation validation, a model of `TripReservation.model_validate` over a loosely typed payload.
- `Search`: the search as functions on sequences, with the sort as a stable insertion sort.
- `Booking`: the reservation payload the executor builds, as written and as intended.
- `App`: the stores as a class `Store`.
  - The dictionary's insertion order is a key sequence `order` beside the map `openings`.
  - `Search` and its scoring loop `ScoreRows` write every new score back into `openings`.
  - `PopAndBook`, `Book` and `CompetitiveBook` update both maps.
  - Each is specified against a value-level function or predicate (`SearchResult`, `WriteBack`/`Rescored`, `BookingStep`) whose properties are proved as lemmas.

Datetimes are whole seconds from a fixed epoch. `(end - start).days` is floor division by 86400. Scores and day rates are exact reals.

The scoring loop raises `ZeroDivisionError` when the larger of the target and a row's stay length is 0, since `max(...)` is the divisor. The model keeps this as an outcome: the scores written before the failing row stay written. It is not treated as a precondition.

## Model

| member | source | states |
|---|---|---|
| Enums.RateRange | webservice/data_generator/enums.py:27-35 | every lodging class has a rate range, and its low is positive and below its high |
| Enums.RateRangesIncrease | webservice/data_generator/enums.py:27-35 | in declaration order from studio to luxury, both the lows and the highs strictly increase |
| Enums.LodgingClassesEnumerated | webservice/data_generator/enums.py:17-24 | there are exactly 7 lodging classes, each listed once |
| Enums.FindCountry | webservice/data_generator/enums.py:38-68 | the lookup returns a listed member whose value is the string, or none exactly when no listed member has that value |
| Enums.ParseCountry | webservice/app.py:117 | a string is a Country value exactly when the lookup succeeds, and then the member's value is that string |
| Enums.CountriesListed | webservice/data_generator/enums.py:38-68 | every member is in the list of countries |
| Enums.SignatureIdentifies | webservice/data_generator/enums.py:38-68 | the length and first two characters of a member's value determine the member |
| Enums.ValueInjective | webservice/data_generator/enums.py:38-68 | two members with the same string value are the same member |
| Enums.OrdinalOfListed | webservice/data_generator/enums.py:38-68 | the i-th listed country is the i-th declared member |
| Enums.CountriesEnumerated | webservice/data_generator/enums.py:38-68 | Country has exactly 30 members, each listed once |
| Enums.CountryValuesDistinct | webservice/data_generator/enums.py:38-68 | the 30 members have 30 distinct string values |
| Schemas.DaysCountFloors | webservice/schemas.py:28-30 | the stay length is the whole number of days from start to end, rounded down, and is non-negative exactly when the end is not before the start |
| Schemas.FreshOpeningUnranked | webservice/schemas.py:26 | a fresh opening has ranking score -1 |
| Schemas.StatusValuesDistinct | webservice/schemas.py:44-49 | the five response statuses have five distinct values |
| Schemas.ValidateReservation | webservice/schemas.py:33-41 | validation succeeds exactly when every reservation field is accepted; a missing reservation_id gets the fresh identifier; each field is copied from the payload, and the dates are day numbers of whole-day datetimes; on failure it reports exactly the rejected fields |
| Search.Filter | webservice/app.py:126 | a list comprehension never yields more rows than it reads |
| Search.FilterMembers | webservice/app.py:126 | a list comprehension keeps exactly the rows satisfying its condition, and all rows when every row passes |
| Search.FilterAppend | webservice/app.py:126 | filtering a concatenation is the concatenation of the filtered parts, so kept rows stay in their original order |
| Search.FilterOne | webservice/app.py:126 | a single row is kept exactly when it passes; with FilterAppend this fixes the whole result |
| Search.FilterTwice | webservice/app.py:126-130 | two comprehensions in succession keep the same rows, in the same order, as one comprehension by both conditions |
| Search.Filtered | webservice/app.py:116-138 | the four predicates never add rows |
| Search.FilteredInOrder | webservice/app.py:116-138 | the four successive predicates leave exactly the rows a single in-order filter by all supplied predicates leaves, so the survivors keep their inventory order |
| Search.FilteredMembers | webservice/app.py:116-138 | the rows left by the four predicates are exactly the inventory rows matching every supplied predicate, and all of them when every row matches |
| Search.SearchParams | webservice/app.py:115-141 | the echoed parameters have a key exactly for each supplied argument, with the rate under "rate", each holding the supplied value |
| Search.ScoreInUnitInterval | webservice/app.py:144 | for a target and a stay of at least one day the score is defined, lies in [0, 1), and is 0 exactly when they are equal |
| Search.Rescore | webservice/app.py:143-145 | scoring keeps the rows and their order, and each row carries its own score |
| Search.FirstZeroDivision | webservice/app.py:143-144 | the scoring loop stops at the first row whose score divides by zero; every earlier score is defined |
| Search.InsertPermutes | webservice/app.py:147 | inserting a row into a ranking adds exactly that row |
| Search.RankedPermutes | webservice/app.py:147 | the sorted rows are a permutation of the scored rows |
| Search.InsertDescending | webservice/app.py:147 | inserting into a descending sequence keeps it descending by key |
| Search.RankedDescending | webservice/app.py:147 | the sorted rows are in non-increasing order of `ranking_score or -1` |
| Search.InsertStable | webservice/app.py:147 | inserting a row before a descending sequence keeps the relative order of the rows of every key |
| Search.RankedStable | webservice/app.py:147 | the sort is stable: for every key, the rows with that key keep their original relative order |
| Search.Truncate | webservice/app.py:149-150 | the result is a prefix of the rows: all of them when the limit is None or 0, min(limit, n) when it is positive, and n + limit (at least 0) when it is negative |
| Search.SearchResult | webservice/app.py:103-158 | an unknown country answers NOT_AVAILABLE with no results and only the country echoed; otherwise the answer is FOUND with the supplied parameters echoed; the count is the number of results; a ZeroDivisionError is raised exactly when a stay length is given and some filtered row's score divides by zero |
| Search.RescoredRowsMatch | webservice/app.py:140-145 | every row whose score a search writes is an inventory row, up to its score, that matches every supplied predicate |
| Search.SearchResultsMatch | webservice/app.py:125-138 | every returned row satisfies every supplied predicate and is an inventory row up to its score |
| Search.SearchRanksThenTruncates | webservice/app.py:140-150 | when all scores are defined, the results are the first rows of a stable descending permutation of the scored matches: all of them with no limit or limit 0, the first min(limit, n) with a positive limit |
| Search.NoZeroDivision | webservice/app.py:144 | a target of at least one day, or stays of at least one day, rule out the division by zero |
| Search.ScoresDefinedForDayLongStays | webservice/app.py:144 | no score divides by zero when the target is at least one day, or when every stay is, whatever the target (0 and negative targets included) |
| Search.UnfilteredSearchCount | webservice/app.py:149-152 | a search with no predicates and a positive limit, when no score divides by zero, returns min(inventory size, limit) rows |
| Search.ScoresOfThreeDayTarget | webservice/app.py:144 | against a 3-day target, a 3-day stay scores 0 and a 10-day stay 7/10 |
| Search.WorstMatchFirst | webservice/app.py:140-158 | two Japanese openings of 3 and 10 days, searched for a 3-day stay in Japan: both are returned, the 10-day one first, and the exact match carries score 0 |
| Booking.AsWrittenNeverValidates | webservice/app.py:178-188 | the payload as written always fails validation, with both trip_opening and user rejected |
| Booking.IntendedValidates | webservice/schemas.py:33-41 | the intended payload validates exactly when both dates are whole days, and the reservation then carries the fresh identifier, the opening and the request's user, people count, dates, home country and phone |
| App.Values | webservice/app.py:112 | the inventory rows are the stored openings in key-insertion order |
| App.Without | webservice/app.py:171 | popping a key removes exactly that key from the insertion order and keeps the keys distinct; popping an absent key leaves the order unchanged |
| App.WithoutAt | webservice/app.py:171 | popping the key at position i of a distinct key order removes exactly that position; the other keys keep their order |
| App.WriteBackChangesOnlyScores | webservice/app.py:143-145 | writing back rescored inventory rows keeps every key, changes nothing but scores, and changes only openings that match the query |
| App.OverwriteKeepsInvariant | webservice/app.py:145 | overwriting a listed opening under its own identifier keeps the keys and the store invariant |
| App.WriteBackKeepsInvariant | webservice/app.py:143-145 | writing back rows stored under listed identifiers keeps the keys and the store invariant |
| App.ScoredPrefixKeepsInvariant | webservice/app.py:143-145 | writing back the scored first rows of a list of listed rows keeps the store invariant |
| App.RowsListed | webservice/app.py:112 | every inventory row's identifier is an inventory key |
| App.ListedRow | webservice/app.py:112 | an inventory row is the opening stored under its own identifier |
| App.SearchWritesOnlyScores | webservice/app.py:140-145 | what a search writes adds and removes no inventory key, keeps the store invariant, changes nothing but ranking scores, and changes only openings that satisfy every supplied predicate |
| App.BookingKeepsInvariant | webservice/app.py:170-190 | a booking step keeps the store invariant |
| App.BookingNeverAnswersNotFound | webservice/app.py:171-176 | a booking answer is always CONFIRMED with details; a missing opening raises KeyError and leaves the inventory size unchanged |
| App.BookedOpeningLeavesInventory | webservice/app.py:171 | after booking a listed opening, its identifier is no inventory key and no inventory row carries it |
| App.AsWrittenBookingLosesOpening | webservice/app.py:171-188 | with the payload as written, booking a listed opening removes it from the inventory, stores no reservation, and raises a validation error |
| App.IntendedBookingConfirms | webservice/app.py:178-190 | with the intended payload and whole-day dates, booking confirms, the opening leaves the inventory, and the reservation stored under the fresh identifier carries the opening and the request's people count, dates, home country and phone |
| App.OccurrencesAddUp | webservice/app.py:79-86 | every row is in exactly one country, so the per-country counts add up to the number of rows |
| App.SumCountsMatches | webservice/app.py:79-85 | summing a count map that agrees with the occurrences gives the summed occurrences |
| App.DistinctKeysCount | webservice/app.py:74 | a list of distinct keys is as long as its set of keys, so the dictionary's size is its number of rows |
| App.Store.constructor | webservice/app.py:64 | the start-up inventory stores each generated opening under its identifier (later duplicates overwrite), the key order is the identifiers' order of first occurrence, the store invariant holds, and there are no reservations |
| App.Store.Count | webservice/app.py:72-74 | the count is the number of inventory rows |
| App.Store.CountriesCount | webservice/app.py:77-87 | status FOUND; a country has an entry exactly when some opening is in it, and the entry is its number of openings; the total equals the opening count and the sum of the per-country counts |
| App.Store.ReservationsFor | webservice/app.py:161-167 | NOT_FOUND with an empty listing exactly when a reservation is stored under the key; otherwise FOUND with no listing |
| App.Store.ScoreRows | webservice/app.py:140-145 | the loop completes exactly when every score is defined, and then returns the scored rows; the inventory afterwards holds the scores of the rows before the first zero division, and the store invariant is kept |
| App.Store.Search | webservice/app.py:103-158 | the answer is SearchResult over the inventory rows in insertion order; the inventory afterwards is the old one with the rescored rows written back; the store invariant is kept |
| App.Store.PopAndBook | webservice/app.py:170-190 | the stores change and the answer is as BookingStep says: KeyError and nothing changed for a missing opening, otherwise the opening popped, then either the construction error or the reservation stored under its identifier and CONFIRMED |
| App.Store.Book | webservice/app.py:193-200 | the plain endpoint is exactly the executor |
| App.Store.CompetitiveBook | webservice/app.py:203-219 | a draw above 0.3 answers NOT_AVAILABLE with no details and leaves both stores unchanged; otherwise it is exactly the executor |

## Left out

- FastAPI and uvicorn: routing, query parsing, `response_model` coercion of the returned dicts, and the health check are not modelled. For example, the listing's `reservations: None` would be rejected by its response model.
- Pydantic's lax coercions are not modelled. Validation is reduced to the field checks the executor's payloads reach: presence, kind, a whole-day datetime for a date, and a country member or value.
- `round(score, 5)` and floating-point arithmetic are not modelled: scores and rates are exact reals, so rounding's extra ties are not captured.
- Datetimes are whole seconds; time zones and sub-second parts are not modelled.
- `np.random.RandomState(1337)` becomes the `draw` parameter of `CompetitiveBook`, and `uuid4()` becomes the `freshId` parameter of reservation construction.
- Inventory generation (`generate_vacation_openings`) is not part of this model: `Store.constructor` takes the generated openings as its argument. `generate_openings` is left out too, since it depends on the generator and reads an attribute openings do not have.
- `USERS_DB`, logging and the `TripQuery` record are not part of this model. The LLM parsing agents are left out: they are prompts and network calls.
- Concurrency is not modelled; each request runs to completion.
- App.Store.Search: it says that the key order and the reservations are unchanged only through its frame, which lets it modify only `openings`. It does not state this as a postcondition.
- Search.Filtered: the four list comprehensions are modelled as successive `Filter` passes. The search method calls `Filtered` once instead of reassigning the row list four times.
- Rows are values: the in-place write of `ranking_score` into rows shared with the inventory is modelled as a write-back of each scored row under its own identifier.
- Where the code differs from the service's described behaviour, this model follows the code:
  - Competitive booking rejects when the draw is above 0.3, so about 70% of the time, not 30%.
  - Booking a missing identifier raises `KeyError`; it does not answer NOT_FOUND.
  - The reservation listing answers FOUND with no listing, not an empty one, when nothing is stored under the key.

## Findings

| source | as written | input that shows it | evidently intended | confidence | as-written member | corrected member |
|---|---|---|---|---|---|---|
| webservice/app.py:178-188 | the reservation payload names the opening `vacation_opening` and passes the whole user profile as `user`, so `TripReservation` validation always fails after the opening was popped, and the opening is lost | any booking of a listed opening, e.g. any request whose `opening_id` is an inventory key | the payload uses the field name `trip_opening` and the user's identifier as `user`, so a booking with whole-day dates is confirmed and stored | high, not executed | App.AsWrittenBookingLosesOpening | App.IntendedBookingConfirms |
