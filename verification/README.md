# Kanban board: calendar grid, card projections and card endpoints

A Dafny model of the logic inside a small kanban application. The app is a Flask server
(`app.py`) over a Supabase cards table, a main page (`static/js/app.js`) with a column board and
a month calendar, and an archive page (`static/js/archive.js`). Three parts are modelled.

- **Month calendar.** `renderCalendar` lays out 42 day cells from a (year, month). The cells
  are the previous month's trailing days, every day of the month, then the next month's leading
  days. Each cell has a day number, an other-month flag, a today mark and a `data-date` key.
  Cards are then placed into the cell whose key equals the part of `due_date` before `T`.
- **Card projections.** These cover the due-date urgency class of a board card, the bucketing of
  fetched cards into column containers, and the archive page's filter and empty state. They also
  cover the pages' request logic: confirm guards, the restore body, reload-on-ok, the comment
  input check and the new-card form body.
- **Server card rules.** `create_card` whitelists keys and applies defaults. The get, update,
  delete, archive and restore endpoints act on an abstract store. The store is a
  `map<int, Row>` from card id to row, and a row is a JSON object. Comments are listed and added
  over a sequence kept in creation order.

Dates are abstract `(year, month, day)` values with a 1-based month (JavaScript's `getMonth` is
0-based). They use the proleptic Gregorian calendar, and `DayNumber` counts days from
1 January of year 1. A JavaScript comparison of two local-midnight timestamps is modelled as a
comparison of day numbers. "Today" is an input, and so is the page's set of column containers.

Modules: `Wrappers` (Option), `Seqs` (order-preserving filter, first match), `Dates`, `IsoKeys`
(`YYYY-MM-DD` keys and `split('T')[0]`), `Calendar`, `Cards`, `Placement`, `Board`, `Api`
(JSON values, requests), `Server`, `ArchivePage`, `Forms`, `Interplay` (client requests meeting
server handlers), `Findings`.

A card has one `due_date`. The main page's `loadCards` renders every fetched card, archived
ones included. The archive page restores a card with a PATCH of `column_name: 'done'`, not
through the restore endpoint; `Interplay.RestoreThroughPatch` shows the two have the same effect.

## Model

| member | source | states |
|---|---|---|
| Dates.DaysInMonth | static/js/app.js:117-124 | a month has 28 to 31 days, and 29 exactly for February of a leap year |
| Dates.PrevMonth | static/js/app.js:123-124 | the month before (y, m) is one month index lower, wrapping January to December of the previous year |
| Dates.NextMonth | static/js/app.js:151-156 | the month after (y, m) is one month index higher, wrapping December to January of the next year |
| Dates.NextDay | static/js/app.js:141-157 | the day after a valid date is a valid date |
| Dates.PrevDay | static/js/app.js:177 | the day before a valid date is valid, and `NextDay` undoes it |
| Dates.PrevNextDay | static/js/app.js:177 | `PrevDay` undoes `NextDay` |
| Dates.NextDayNumber | static/js/app.js:141-157 | stepping to the next calendar day advances the timestamp by one day and the weekday by one, mod 7 |
| Dates.DayNumberMonotone | static/js/app.js:260 | an earlier calendar date has an earlier midnight timestamp |
| Dates.DayNumberOrder | static/js/app.js:164 | two local midnights have equal timestamps iff the dates are equal, and the earlier timestamp belongs to the earlier date |
| Dates.WeekdayAnchor | static/js/app.js:119 | weekdays follow `getDay` (0 = Sunday): 1 January 2024 is a Monday, 1 January 1970 a Thursday |
| IsoKeys.FormatKey | static/js/app.js:177 | a cell key is ten characters `YYYY-MM-DD` with no `T` |
| IsoKeys.ParseFormatKey | static/js/app.js:177 | every date's key reads back as that date |
| IsoKeys.FormatParseKey | static/js/app.js:196 | every string that reads as a date is exactly that date's key |
| IsoKeys.FormatKeyInjective | static/js/app.js:197 | different dates have different keys, so a key selects one day |
| IsoKeys.BeforeT | static/js/app.js:196 | `split('T')[0]` is the longest prefix without `T`, the whole string when there is none |
| IsoKeys.BeforeTOfTimestamp | static/js/app.js:196 | a due date written as a key, or a key plus a time part, is cut back to the key |
| Calendar.StartingDayOfWeek | static/js/app.js:117-119 | the number of leading previous-month cells is the 1st's weekday, in 0..6 |
| Calendar.RenderCalendar | static/js/app.js:117-154 | every grid date is built with `new Date(year, ...)`, so an anchor year of 0..99 lays out the month of 1900 + year, and any later year its own month; each day of that month sits at the 1st's weekday plus its day minus one |
| Calendar.TwoDigitYear | static/js/app.js:117-119 | the (50, January) grid is January 1950, whose 1st is a Sunday and takes the first cell, although 1 January of year 50 was a Saturday |
| Calendar.BuildMonthGrid | static/js/app.js:129-181 | for the year the `Date` constructor works in, the counter-driven loop yields 42 cells. The first `startingDayOfWeek` are previous-month days `prevMonthLength - start + 1 ..` flagged other-month. Days 1..monthLength follow in order, unflagged. The rest are next-month days 1, 2, .. flagged, at least five of them. A cell is marked today iff its date is today |
| Calendar.GridLayout | static/js/app.js:141-157 | the three segments of the grid: their months, day numbers and other-month flags, and at least five trailing cells |
| Calendar.GridDayNumber | static/js/app.js:141-157 | cell i is the day i days after the grid's first day |
| Calendar.GridConsecutive | static/js/app.js:141-157 | each cell's date is the day after the previous cell's date: no day is skipped or repeated |
| Calendar.GridWeekdays | static/js/app.js:117-133 | cell i falls on weekday i mod 7, so each column is one weekday and the grid starts on a Sunday |
| Calendar.GridWindow | static/js/app.js:132-157 | a date is shown iff it lies in the 42 days from the grid's first Sunday, and then only in the cell at its offset |
| Calendar.GridShowsMonthOnce | static/js/app.js:146-150 | each day of the month appears in exactly one cell, at position startingDayOfWeek + day - 1 |
| Calendar.GridKeysDistinct | static/js/app.js:177 | no two cells carry the same `data-date` key |
| Calendar.GridTodayMark | static/js/app.js:126-127 | a cell is marked today iff its date is today. At most one cell is marked, and one is iff today lies in the grid's window |
| Cards.ClassifyMeaning | static/js/app.js:253-264 | comparing midnights gives `overdue` iff the due day is before today, `today` iff it is today, and no class iff it is after |
| Cards.DueIndicator | static/js/app.js:251-271 | there is no date line iff `due_date` is falsy. An unreadable date gets no urgency class. Otherwise the class is `overdue`/`today` exactly as the due day compares with today |
| Cards.DueIndicatorOfKey | static/js/app.js:252-264 | a due date written as a key, with or without a time part, is classified by that key's date |
| Seqs.FirstIndexOf | static/js/app.js:197 | a lookup by key returns the first matching position, and nothing iff no element matches |
| Seqs.FilterCount | static/js/archive.js:31 | filtering keeps each accepted element as often as it occurs, and nothing else |
| Seqs.FilterKeepsOrder | static/js/archive.js:31 | filtering keeps the relative order of the kept elements |
| Placement.PlaceCards | static/js/app.js:188-219 | containers start empty. Each container gets, in card-list order, exactly the cards with a truthy due date whose key first matches that container |
| Placement.ShownAtMostOnce | static/js/app.js:193-199 | a card is in at most one container. It is in none without a due date or when no container has its key. The container it is in carries its key |
| Placement.PlacementOnGrid | static/js/app.js:177-199 | on a month grid, a card due on a date the grid shows is in that date's cell and in no other |
| Board.BucketCards | static/js/app.js:228-235 | buckets start empty. Each container gets the cards of its column, in fetched order, each as often as fetched. Rendering stops at the first card whose column has no container, and every card is rendered when all columns exist |
| ArchivePage.ArchiveView | static/js/archive.js:22-47 | the empty state shows iff no fetched card is archived. Otherwise exactly the archived cards are shown, none dropped, none extra, in fetched order |
| ArchivePage.LoadArchived | static/js/archive.js:22-51 | a failed fetch leaves the grid as it was. A successful one rebuilds it from the list |
| ArchivePage.ReloadAfter | static/js/archive.js:157-161 | the list reloads only after a request was sent and answered with a 2xx status |
| ArchivePage.Restore | static/js/archive.js:143-166 | no request unless confirmed. Otherwise a PATCH of that card whose only field is `column_name: 'done'`. Reload iff confirmed and the answer is ok |
| ArchivePage.Delete | static/js/archive.js:169-188 | no request unless confirmed. Otherwise a DELETE of that card. Reload iff confirmed and the answer is ok |
| Forms.FormBody | static/js/app.js:392-401 | the new-card form posts its eight fields as strings. `due_date` is null exactly when the field is blank |
| Forms.CommentRequest | static/js/app.js:369-382 | nothing is sent iff the name or the text is empty. Otherwise both are posted unchanged for that card |
| Forms.DeleteFromBoard | static/js/app.js:416-426 | no request unless confirmed. The board reloads iff confirmed and the DELETE completed, whatever its status |
| Server.Status | app.py:53-56 | a response is ok (2xx) iff it is neither the 404 not-found answer nor a 500 |
| Server.CreateRecord | app.py:63-78 | the stored row has exactly the nine whitelisted keys, plus `label` iff the body has it. Present keys are copied unchanged, absent ones take their defaults, and other keys are dropped |
| Server.CreateRecordIdempotent | app.py:64-78 | whitelisting a stored row again gives the same row |
| Server.CreateCard | app.py:59-81 | inserts the row under a fresh id without touching other cards, and answers 201 with it |
| Server.GetCard | app.py:46-56 | answers the card iff the id is in the store, otherwise 404 |
| Server.UpdateCard | app.py:84-95 | for an existing id, overwrites exactly the body's fields, keeps the rest and answers the updated card. Other cards are untouched. An unknown id gives 404 and an unchanged store |
| Server.UpdateIdempotent | app.py:86-90 | applying the same update twice equals applying it once |
| Server.DeleteCard | app.py:98-101 | removes the card if present, keeps every other card and answers 200 success either way |
| Server.DeleteThenGet | app.py:98-101 | after a delete the card reads as 404, and a second delete changes nothing |
| Server.WriteThenGet | app.py:59-95 | a created card reads back as its inserted row, and an updated card as its old row overwritten by the body |
| Server.ArchiveCard | app.py:104-115 | the card's column becomes `archive`. No other field or card changes. An unknown id gives 404 and an unchanged store |
| Server.RestoreCard | app.py:118-129 | the card's column becomes `done`. No other field or card changes. An unknown id gives 404 and an unchanged store |
| Server.ArchiveRestoreRoundTrip | app.py:104-129 | archiving a `done` card and restoring it gives back the original store |
| Server.GetComments | app.py:132-139 | returns exactly that card's comments, each as often as stored, in stored order |
| Server.AddComment | app.py:142-150 | with `author` and `content` in the body, appends the comment and answers 201. Without either, 500 and nothing is stored |
| Server.AddThenGetComments | app.py:132-150 | an added comment comes last in its card's thread, and other threads are unchanged |
| Interplay.ToCard | app.py:37-43 | the page reads a row's id and its string `column_name` unchanged |
| Interplay.Listing | app.py:37-43 | the listing has every stored row exactly once, read as a card, in the database's order |
| Interplay.ListingHasEachCardOnce | app.py:37-43 | each stored card is in the listing, and in one position only |
| Interplay.RestoreThroughPatch | static/js/archive.js:149-161 | the archive page's PATCH has exactly the effect of the restore endpoint, and the page reloads iff the card existed |
| Interplay.DeleteAlwaysReloads | static/js/archive.js:175-183 | a confirmed delete always gets an ok answer, so the page reloads, and the card is gone |
| Interplay.CreateFromForm | static/js/app.js:389-407 | a card created from the form stores each field as typed, with null `due_date` iff blank, `position` 0 and no `label` |
| Interplay.CreatedCardListed | app.py:59-81 | a card created from the form is listed with its title, column and due date (none iff blank) |
| Interplay.CommentAccepted | app.py:142-150 | every comment the page sends is accepted with 201, storing the typed name and text |
| Interplay.ArchivedCardOnPage | app.py:104-115 | an archived card is shown on the archive page's next load |
| Interplay.RestoredCardOffPage | app.py:118-129 | a restored card is not on the archive page's next load |
| Findings.KeyAsWrittenShifted | static/js/app.js:177 | east of UTC, the as-written key of every cell is the previous day's key, never its own |
| Findings.KeyAsWrittenMatch | static/js/app.js:177 | east of UTC, a cell's as-written key is day d's key iff the cell is the day after d |
| Findings.CardShiftedEastOfUtc | static/js/app.js:193-199 | with the as-written keys east of UTC, a card due on d goes into the cell of the day after d, not d's cell |
| Findings.SeoulExample | static/js/app.js:177-199 | in Seoul (UTC+9) in January 2024, a card due 2024-01-05 lands in the 6 January cell as written, and in the 5 January cell once corrected |
| Findings.SetMonthAsWritten | static/js/app.js:51-59 | moving the anchor date a month forward or back gives a valid date |
| Findings.SetMonthSkips | static/js/app.js:51-59 | from 31 January 2024 "next" lands on 2 March, and from 31 March 2024 "previous" lands on 2 March |
| Findings.NavigationRoundTrip | static/js/app.js:51-59 | with the anchor kept as a (year, month) pair, "next" and "previous" undo each other |

## Left out

- DOM construction, HTML templates, icons, modals, notifications and CSS animation are not modelled. They are presentation only.
- `fetch`, `confirm` and `alert` are not modelled. Confirmation is a boolean input, and a response is a status or a thrown error.
- Sortable drag-and-drop wiring (static/js/app.js:291-311) is not modelled. It is a third-party widget.
- The card detail view (`showCardDetail`) and the comment thread's rendering are not modelled. They are rendering only; the comment input check is modelled.
- `editCard` only shows an alert in this revision, so there is nothing to model.
- Flask routing, CORS, environment loading and the Supabase client are not modelled. The store is an abstract map.
- Database-side behaviour is not modelled. This includes column-type or unknown-column errors, NOT NULL constraints, and a non-JSON request body.
- The order of `get_cards` and `get_comments` by `created_at` is done by the database. It is an input (`order`) or the sequence order, and is not proved.
- Server.CreateCard: the new id comes from the database. It is a parameter the caller guarantees unused.
- Server.UpdateCard: a body that sets the `id` column itself would re-key the row in the database. The model keeps such an `id` as an ordinary field of the row under the old key.
- Calendar.RenderCalendar: anchor years below 0 or above 9998 are not modelled. In 0..9998 every cell's key has a four-digit year; `toISOString` writes other years with a sign and six digits.
- JavaScript `Date` parsing of `due_date` is replaced by reading its `YYYY-MM-DD` part. Time-zone shifts of date-only strings are not modelled.
- Daylight-saving transitions are not modelled. Every local midnight is taken to exist once.
- The main page's `loadCards` stops at the first card whose column has no container. The calendar render after it is then skipped, which is modelled only through `rendered`.
- The column containers present on the page (index.html) are not part of this model. They are the `columns` parameter.
- Placement.PlaceCards: the `querySelector` lookup is modelled as string equality on the date part. The two agree for due dates without `"`, `\` or a line break, which covers every `YYYY-MM-DD` date the database stores. With such a character the selector may be invalid, which throws and stops placing the remaining cards, or CSS may unescape it and match another cell's key. Neither is modelled.

## Findings

| source | as written | input that shows it | evidently intended | confidence | as-written member | corrected member |
|---|---|---|---|---|---|---|
| static/js/app.js:177 | a cell's key is `toISOString()` of local midnight, i.e. the UTC date, which east of UTC is the previous day | Asia/Seoul (UTC+9), January 2024, a card due `2024-01-05`: the 6 January cell carries key `2024-01-05` and gets the card | the key names the cell's own local date | high (not executed) | Findings.CardShiftedEastOfUtc | Placement.PlacementOnGrid |
| static/js/app.js:51-59 | month navigation calls `setMonth(getMonth() ± 1)` on the full anchor date, so a day the target month lacks overflows | anchor 31 January 2024, "next": 31 February becomes 2 March, so that step skips February; anchor 31 March, "previous": 2 March, so the view does not move | move the displayed (year, month) by exactly one month | high (not executed) | Findings.SetMonthSkips | Findings.NavigationRoundTrip |
