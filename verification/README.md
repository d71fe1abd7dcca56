# Harvest service: a verified model

beebase-harvest-service keeps harvest records (honey, pollen, propolis, wax) for
hives whose ownership another service decides. Each single operation is simple;
this project proves the places where a loop, an order, a cursor or a two-step
protocol has to agree with a simple statement about an unbounded table.

- `Domain.dfy`, `Calendar.dfy` - the entity, and civil dates with Go's
  normalising date arithmetic and the full-date text form of section 5.6 of RFC 3339.
- `Ordering.dfy`, `Paging.dfy` - what ORDER BY, LIMIT and OFFSET mean, and what
  re-assembling a listing from pages gives while the listing changes.
- `Query.dfy`, `Repository.dfy`, `Listings.dfy` - the list query compiled to
  numbered conditions and arguments, the statements of the repository, and laws
  of whole listings.
- `Totals.dfy`, `Report.dfy`, `ReportLaw.dfy` - the internal report, and exactly
  what it holds when the table changes while it is made.
- `HiveClient.dfy`, `Service.dfy`, `ServiceRuns.dfy` - the use cases as steps over
  the table, and every run of them.
- `Wire.dfy`, `ServiceLaws.dfy`, `RequestLaws.dfy` - the same use cases, filters and
  parameters on the fields of records and the texts of the interface.
- `Interleaving.dfy`, `Cascade.dfy`, `Concurrency.dfy` - use cases of several
  statements with other calls in between: listings, the hive delete cascade, and
  any number of calls interleaved statement by statement.
- `Backfill.dfy`, `BackfillRuns.dfy`, `BackfillReplies.dfy` - the owner backfill: one
  run, any sequence of runs, and what each reply to a lookup leads to.
- `LiveBackfill.dfy`, `LiveRun.dfy`, `LiveRunLaws.dfy`, `LiveReplies.dfy` - the backfill
  while the service stays live: visits of any runs among calls, a whole run with
  calls let in at every step, what such a run counts and records, reply by reply,
  and when it ends.
- `Requests.dfy`, `Migration.dfy` - validation and query parameters, and the
  change of `harvested_at` from a timestamp to a date.

Conventions. A UUID is the number its bytes spell, so byte order is `<`. A table
is a map from id to row. Amounts are finite values; addition is an arbitrary
function in the report results, so those hold of floating-point sums, and is real
addition only where a lemma says so. Days are counted from 1970-01-01. Answers of
other services, fresh ids, the clock and number parsing are inputs.

Six results say where the code does less than one might expect, each with the
exact condition. A report made while the table changes lists a record once for
every fetch that catches it, so it misses the record if and only if none does and
repeats it if several do (`ReportedTimes`, with all three ways this shows). When
its counts agree with its listings, its loop ends if and only if at some fetch the
rows in range fit on the pages asked for by then, which need never happen while
records are created (`EndsIffCaughtUp`, `EndlessCreates`). The
timestamp-to-date migration keeps the default listing order if and only if times
of one day follow ids (`DefaultOrderAcrossMigration`). A row that backfills visited
and left ownerless has a failure record if and only if not all its visits ended in
a failed owner write (`OwnerlessRowRecorded`). Of the ids a hive deletion removes,
exactly those created after its listing were not listed for cleaning
(`UncleanedWereCreatedSince`). Query parameters the service accepts are still
refused by the database if and only if a bound it sends lies in year 0
(`ParseListFilter`, `YearZeroIsRefused`, `GetInternalReportData`).

The source comment that rows carry no `user_id`
(internal/repository/postgres/harvest_repository.go:16-21) and the matching
sentence of the service's README are outdated; the model follows the code, which
stores one.

## Model

| member | source | states |
|---|---|---|
| Calendar.YearsAbut | internal/transport/http/harvest/report.go:94 | years tile the day numbers: consecutive year starts are 365 or 366 days apart by the 4/100/400 rule |
| Calendar.EarlierMeansSmaller | internal/transport/http/harvest/report.go:90 | comparing dates as year, month, day is comparing their day numbers, both ways |
| Calendar.DayNumberBijection | migrations/000004_change_harvested_at_to_date.up.sql:3-5 | civil dates and day numbers are in bijection across leap years and centuries |
| Calendar.AddOneDay | internal/application/harvest/service.go:167 | `AddDate(0,0,1)` is the next calendar day, one day number later, across month and year ends |
| Calendar.AddTwelveMonths | internal/transport/http/harvest/report.go:94 | `AddDate(0,12,0)` is the same day next year (29 February becomes 1 March), 366 days on exactly when a leap day lies ahead, else 365 |
| Calendar.AddTwelveMonthsMonotone | internal/transport/http/harvest/report.go:94 | adding twelve months never reverses two dates |
| Calendar.SqlDateOfFormat | internal/repository/postgres/harvest_repository.go:140-148 | the text a date is sent to the query as reads there as that same date, in every year but year 0, which the server refuses |
| Calendar.FormatOfParse | internal/transport/http/harvest/handler.go:353 | every date text the parser accepts is the text its date is formatted as |
| Query.LaterArgumentsIrrelevant | internal/repository/postgres/harvest_repository.go:152-158 | appending LIMIT and OFFSET arguments never changes what earlier conditions bind to or select |
| Query.AppendedCondition | internal/repository/postgres/harvest_repository.go:120-150 | one more numbered condition with its argument narrows the selection by exactly that condition |
| Query.CompileFilterMeaning | internal/repository/postgres/harvest_repository.go:110-150 | for every choice of filters the compiled conditions are in step with the arguments, bind exactly when the filter is well formed (known amount operator, no bound in year 0), and then select exactly the conjunction of the filters |
| Query.BuildList | internal/repository/postgres/harvest_repository.go:111-158 | count and row conditions agree, condition i uses argument i, LIMIT and OFFSET are the last two placeholders, the server accepts both statements exactly when the amount operator is known and no bound lies in year 0, and both then select exactly the wanted rows |
| Query.OrderIsTotal | internal/repository/postgres/harvest_repository.go:64-73 | each of the three orders is strict and total on rows of one table, because the id breaks ties |
| Query.CreatedOrdersMirror | internal/repository/postgres/harvest_repository.go:68-72 | listing any rows by creation descending is the reverse of listing them ascending |
| Repository.FullListingLists | internal/repository/postgres/harvest_repository.go:155-157 | a full listing holds exactly the stored rows that meet every filter, in strict order |
| Repository.SortRows | internal/repository/postgres/harvest_repository.go:155-157 | ORDER BY yields the one sequence that lists the rows in the requested order |
| Repository.ListAcross | internal/repository/postgres/harvest_repository.go:110-184 | with the count and the rows read from two states of the table: the requested page of the later full listing and the number of wanted rows in the earlier state; it fails exactly on an unknown amount operator or a bound in year 0 |
| Repository.List | internal/repository/postgres/harvest_repository.go:110-184 | while nothing else writes: the requested page of the full listing and the size of the full listing; it fails exactly when `ListAcross` does |
| Repository.ListByHive | internal/repository/postgres/harvest_repository.go:191-193 | a single hive's listing is that of the set with only this hive |
| Repository.HarvestRepository.Update | internal/repository/postgres/harvest_repository.go:195-211 | only the five editable columns of the row under its hive change; a missing row and a violated CHECK constraint are told apart |
| Repository.HarvestRepository.ListIDsByHive | internal/repository/postgres/harvest_repository.go:244-259 | exactly the ids under the hive, each once, in no promised order |
| Repository.HarvestRepository.DeleteByHive | internal/repository/postgres/harvest_repository.go:227-242 | removes and returns exactly the rows under the hive |
| Repository.HarvestRepository.ListLegacy | internal/repository/postgres/harvest_repository.go:28-43 | the first ownerless rows above the cursor in id order, with their hives |
| Repository.HarvestRepository.SetUserID | internal/repository/postgres/harvest_repository.go:44-47 | no row comes or goes; only an ownerless row of that id changes, and only its owner and update time |
| Repository.HarvestRepository.RecordBackfillFailure | internal/repository/postgres/harvest_repository.go:48-51 | attempts are one higher than before (none counting as zero), the first recorded hive stays, the reason is the latest, and records of other rows stay |
| Listings.CreatedListingsMirror | internal/repository/postgres/harvest_repository.go:64-73 | for every table and filter the desc listing is the reverse of the asc listing |
| Listings.CreatedPagesMirror | internal/transport/http/harvest/handler.go:316-329 | each desc page is the reversed slice at the other end of the asc listing |
| Listings.ListingOrder | internal/repository/postgres/harvest_repository.go:58-73 | earlier rows of a listing have later harvest days by default, earlier or later creation times on request, and ids decide ties in the same direction |
| Listings.HiveGroupsMerge | internal/repository/postgres/harvest_repository.go:110-184 | listing two disjoint groups of hives is the ordered merge of their listings, and totals add |
| Listings.CrossHiveListing | internal/application/harvest/service.go:143-160 | the cross-hive listing is the merge of the per-hive listings and its total their sum, for every list of ids with any order and repetition |
| Listings.CrossHiveOrderIrrelevant | internal/application/harvest/service.go:146-160 | id lists with the same members give the same listing and total |
| Listings.PagesCoverListing | internal/application/harvest/service.go:125-141 | walking all pages gives each matching record exactly once |
| Paging.EarlierPagesAreFull | internal/application/harvest/service.go:169-178 | when each count is that of the rows it pages, every page was full as long as the loop goes on, whatever happened between fetches |
| Paging.EndsExactly | internal/application/harvest/service.go:169-178 | exact law of the end, when each count is that of the rows it pages: whatever happens between fetches, the loop ends with the first fetch whose listing lies on the pages asked for by then |
| Paging.UnchangingView | internal/application/harvest/service.go:169-178 | over an unchanging listing the loop returns it exactly, after max(1, ceil(n/limit)) fetches |
| Paging.CollectedTimes | internal/application/harvest/service.go:169-178 | exact law: however the listing changes between fetches, a row is collected as often as there are fetches that found it at a position they asked for; it is missed if and only if there was none |
| Paging.NeverMissed | internal/application/harvest/service.go:169-178 | consequence: a row present at every fetch that never moves to an earlier position is collected, whatever else is created, changed or deleted meanwhile, as long as the last fetch's count covers its rows |
| Paging.AdditionsNeverHide | internal/application/harvest/service.go:169-178 | when rows are only added between fetches and the last count covers its rows, nothing present at the start is missed |
| Paging.NothingInvented | internal/application/harvest/service.go:174 | everything collected was present at some fetch |
| Report.RangeQueryIsInclusive | internal/application/harvest/service.go:167-170 | the half-open query up to the day after `to` selects exactly the inclusive range |
| Report.CollectPages | internal/application/harvest/service.go:166-178 | watched for any number of fetches, over a table that may change at every one: the loop returns at the first fetch that meets its test, with everything fetched until then; before that it is still fetching and has everything so far; it fails exactly when a bound it sends lies in year 0 |
| Report.GetInternalReportData | internal/application/harvest/service.go:166-196 | the report is what the loop collected, with the totals of exactly those records, each of the items with its product and unit; it fails exactly when a bound it sends lies in year 0, and is pending while no fetch has met the test |
| Report.EndsWhenCaughtUp | internal/application/harvest/service.go:169-178 | when each count agrees with its listing, the loop ends with exactly the first fetch k at which at most k pages of rows are in range, whatever is created, changed and deleted |
| Report.EndsIffCaughtUp | internal/application/harvest/service.go:169-178 | and so it ends at all if and only if there is such a fetch |
| Report.EndsWhenTableStands | internal/application/harvest/service.go:169-178 | once the table stands still the loop ends, at the latest after as many further fetches as there are rows in range |
| Report.ReportOfUnchangingTable | internal/application/harvest/service.go:162-178 | on an unchanging table the report is exactly the hive's records with from <= day <= to, newest first, after exactly the fetches they need, for every page size |
| Report.CreatesNeverHide | internal/application/harvest/service.go:169-178 | if rows are only created between fetches, and none in range between the two statements of the last fetch, every record in range at the first fetch is reported |
| Report.ReportIsSound | internal/application/harvest/service.go:169-178 | every reported record was in range in some state the loop listed |
| ReportLaw.ReportedTimes | internal/application/harvest/service.go:166-178 | exact law: over any states of the table, a version of a record is reported once for every fetch at which it is in range and as many rows precede it as that fetch skips or up to a page more; it is missed if and only if no fetch catches it |
| ReportLaw.RecordReportedTimes | internal/application/harvest/service.go:166-178 | the same for a record by id through all its edits: it is listed once for every fetch that catches it as it is then |
| ReportLaw.CreateRepeats | internal/application/harvest/service.go:169-178 | for every table with a second page: a create between the first two fetches, in front of the last row of the first page, makes the finished report list that row at least twice, whatever comes after |
| ReportLaw.DeleteHides | internal/application/harvest/service.go:169-178 | for every table with a second page: deleting, after the first fetch, a row in front of the second page makes the report miss the first row of that page, which is in range throughout |
| ReportLaw.CreateBehindCountHides | internal/repository/postgres/harvest_repository.go:160-184 | for every table with exactly one page of rows: a create between the count and the rows of the first fetch, in front of the last row, ends the loop at once and the report misses that row |
| ReportLaw.ChangesCanShow | internal/application/harvest/service.go:169-178 | all three happen for every page size and every range of days |
| ReportLaw.EndlessCreates | internal/application/harvest/service.go:169-178 | that need not happen, for any page size and any range of days: over tables that start with a page and a row and to which records are only added, a page of them between any two fetches, the loop never ends |
| Totals.TotalOrder | internal/application/harvest/service.go:189-194 | product-then-unit string order is strict and total on totals with distinct keys |
| Totals.TotalsUnique | internal/application/harvest/service.go:185-194 | any two outputs for the same items are equal, so map iteration order cannot show |
| Totals.FoldByKey | internal/application/harvest/service.go:180-184 | the map has exactly the keys present, each with the left fold of addition from zero over its items in list order |
| Totals.EmitTotals | internal/application/harvest/service.go:185-188 | one total for each key, in arbitrary order |
| Totals.SortTotals | internal/application/harvest/service.go:189-194 | the same totals, strictly increasing |
| Totals.TotalsOnFields | internal/application/harvest/service.go:180-195 | any output that is right for the code's map is, on the fields of the items, one total for each product and unit some item has, with the fold of exactly those items' amounts |
| Totals.ReportTotals | internal/application/harvest/service.go:180-195 | a total for a product and a unit is there if and only if some item has both, and its amount is the fold of the given addition from zero over the amounts of exactly those items in list order; the totals ascend by the text of the product, then of the unit |
| Totals.TotalsConserve | internal/application/harvest/service.go:180-195 | over the reals the totals sum to the sum of all amounts |
| Totals.SumForPermutes | internal/application/harvest/service.go:181-184 | over the reals a key's total depends only on which items there are, not on their order |
| Backfill.SelectionIsRestOfAgenda | cmd/backfill-owners/main.go:35-47 | although visits take rows out of the selection, what is selected above the cursor is always exactly the part of the initial agenda still to do |
| Backfill.TableAfterRows | cmd/backfill-owners/main.go:45-73 | row by row, a visit sets an absent owner that resolves and changes nothing else |
| Backfill.VisitRow | cmd/backfill-owners/main.go:45-73 | one iteration, also on a row that is gone by then: an ownerless row of that id gets the owner if and only if the reply has status 200 and an id other than the nil id and the write is not lost, with the update time; every other reply leaves the table and, where the upsert works, one more attempt with its reason text; `resolved` counts the first kind when its write succeeds, `failed` no response, `unresolved` the rest; the run goes on unless a known owner is not written |
| Backfill.BackfillOwners | cmd/backfill-owners/main.go:32-76 | every run visits a prefix of the agenda (all of it when it finishes), with the tables and counters those visits give; it panics on the first page that does not come or the first known owner whose write fails, and goes past none; with c pages of b rows it has visited min(c * b, all) rows at a lost page, is within its last page at a lost write, and finishes after exactly ceil(all / b) + 1 pages |
| BackfillRuns.FinishedRunVisitsAll | cmd/backfill-owners/main.go:34-47 | a finished run visits exactly the initially ownerless rows, each once, with a strictly increasing cursor |
| BackfillRuns.CountersAddUp | cmd/backfill-owners/main.go:32-72 | scanned is the number of visits and the sum of the other counters, except for the one row a failed owner write leaves uncounted |
| BackfillRuns.ResolvedIsGained | cmd/backfill-owners/main.go:67-71 | `resolved` is the number of rows that gained an owner, except that a panic may hide one write that did reach the table |
| BackfillRuns.OwnersAreWrittenOnce | internal/repository/postgres/harvest_repository.go:44-47 | over any sequence of runs no row appears or disappears, no other column but the update time changes, and an owned row never changes |
| BackfillRuns.RunsAreConfluent | cmd/backfill-owners/main.go:34-75 | any runs, each cut short anywhere and possibly failing lookups, then one complete run, give the owner column of a single uninterrupted run |
| BackfillRuns.AccountDeletionAfterBackfill | internal/domain/harvest/harvest.go:26-28 | after a complete run, deleting an account removes exactly the rows it owned and the legacy rows whose lookup named it |
| BackfillRuns.CompleteRunIsStable | cmd/backfill-owners/main.go:34-75 | a second complete run changes no owner |
| BackfillRuns.AttemptsOverRuns | internal/repository/postgres/harvest_repository.go:48-51 | over any number of runs a row's attempts count exactly the recorded visits that did not resolve it, and it has a record exactly when there was one |
| BackfillRuns.VisitsOfOwnerlessRow | cmd/backfill-owners/main.go:45-71 | with working upserts, each visit of a row still ownerless at the end either counts as an attempt or found the owner and failed to write it before the table was reached |
| BackfillRuns.OwnerlessRowRecorded | cmd/backfill-owners/main.go:49-70 | such a row has a failure record if and only if not all of its visits failed in that write |
| BackfillRuns.LostWriteLeavesNoRecord | cmd/backfill-owners/main.go:68-70 | a visited row can stay ownerless without a record: its owner was found but the write failed |
| BackfillReplies.FinalOwnerOnFields | cmd/backfill-owners/main.go:64-68 | the owner a row is due is the one it has, or for an ownerless row the id other than the nil id that a reply of status 200 carries |
| BackfillReplies.OwnersOfRun | cmd/backfill-owners/main.go:45-73 | after any run, cut short or not, a row has gained an owner if and only if it was visited, the reply was of status 200 with an id other than the nil id, and the write was not lost; it is that id, only the update time changes with it, and every other row is as it was |
| BackfillReplies.FinishedRunOwners | cmd/backfill-owners/main.go:34-73 | after a finished run an initially ownerless row has an owner exactly when its reply named that one |
| BackfillReplies.PanicOfRun | cmd/backfill-owners/main.go:68-70 | a visit is the one the run panics in if and only if its reply named an owner whose write did not succeed; it is then the last |
| BackfillReplies.RecordsOfRun | cmd/backfill-owners/main.go:49-66 | exactly the visits whose reply named no owner are recorded, where recording works, each with its reason text, one more attempt and the first hive; all other records are as they were |
| BackfillReplies.CountersOfRun | cmd/backfill-owners/main.go:32-72 | `resolved`, `unresolved` and `failed` are the numbers of visits with an owner named and written, with any other response, and with none |
| LiveBackfill.RunIsItsVisits | cmd/backfill-owners/main.go:45-73 | the table a run leaves, cut short or not, is what its visits leave one after another |
| LiveBackfill.RowAmongEvents | internal/repository/postgres/harvest_repository.go:44-47 | through any visits of any runs and any service calls in between, a surviving row keeps its id, hive and creation time, never loses or changes an owner, and stays due the same one |
| LiveBackfill.ConfluentAmongCalls | cmd/backfill-owners/main.go:34-75 | after visits of any runs and any calls in between, one complete run gives each surviving row the owner one uninterrupted run at the start would have given it |
| LiveBackfill.OneVisitSuffices | cmd/backfill-owners/main.go:45-71 | a row visited once by a run with the right answer and a write that is not lost has its final owner from then on, whatever comes before and after |
| LiveBackfill.UpdateAmongEvents | internal/application/harvest/service.go:210-225 | whatever calls and backfill visits fall between the read and the write of an update, it acts as if it ran at the write, and answers so but for the owner, which responses do not carry |
| LiveRun.BackfillAmong | cmd/backfill-owners/main.go:32-76 | watched for any number of pages, with any calls let in before every page and every visit, the program goes through exactly the states of the step function: both tables, counters, cursor, pages and outcome |
| LiveRun.VisitedWereSelected | cmd/backfill-owners/main.go:35-47 | every row visited was found by an earlier page that came: ownerless, above the cursor, and under the hive that is asked about |
| LiveRun.VisitsAscend | cmd/backfill-owners/main.go:45-47 | two visits of a run are of two rows, in id order, whatever calls fall in between |
| LiveRun.PagesOfRun | cmd/backfill-owners/main.go:35-44 | the run panics on the first page that does not come, and ends otherwise only after a page that came |
| LiveRun.FinishedRunSettles | cmd/backfill-owners/main.go:34-75 | whatever calls fall into the run: a row of the starting table that is still there stays due the same owner at every step, and has it when the run finishes |
| LiveRun.UndisturbedRun | cmd/backfill-owners/main.go:32-76 | with no calls in between, the steps are those of the run that has the table to itself, to the same tables, counters and outcome |
| LiveRunLaws.LiveCountersAddUp | cmd/backfill-owners/main.go:32-72 | whatever calls fall in, at every step scanned is the number of visits and the sum of the other counters, but for a visit that panicked |
| LiveRunLaws.LiveAttempts | internal/repository/postgres/harvest_repository.go:48-51 | whatever calls fall in, a row's attempts grow by one exactly when some visit of the run did not resolve it and was recorded, and it has a record exactly when it had one or there was such a visit |
| LiveRunLaws.FinishedRunRecords | cmd/backfill-owners/main.go:49-66 | when a run finishes, every row that is then still there without an owner has a failure record, if recording it works |
| LiveRunLaws.LiveRunEnds | cmd/backfill-owners/main.go:34-75 | when every create carries an owner the run ends however many calls fall in, after at most two steps for every row ownerless at its start and one more |
| LiveReplies.VisitOnFields | cmd/backfill-owners/main.go:45-73 | among service calls: a visit sets the owner its reply names on the row as it is by then, if that is ownerless and the write is not lost; every other row stays, and the run ends exactly when a named owner is not written |
| LiveReplies.LiveOwners | cmd/backfill-owners/main.go:34-75 | whatever calls fall in, a row ownerless at the start never has an owner but the one the reply about it names, and has that one when the run finishes |
| LiveReplies.LiveCountersByReply | cmd/backfill-owners/main.go:32-72 | whatever calls fall in, at every step each counter is the number of visits whose reply was of its kind |
| LiveReplies.LiveRecords | cmd/backfill-owners/main.go:49-66 | whatever calls fall in, if a visit of a row was answered with no owner and recorded, its record has the reason text and one more attempt at every later step, and if none was it is as it was |
| HiveClient.ListOwned | internal/platform/hiveclient/client.go:92-121 | watched for any number of requests, the loop has returned if and only if there was a final reply, the first that is a failure, has no items or reports no more pages than were asked for: with the items of all pages in order, or the failure and nothing else; otherwise it is still asking, with every item so far |
| HiveClient.FixedTotalBoundsRequests | internal/platform/hiveclient/client.go:117 | on a server that always reports T pages the client returns, after at most max(1, T) requests |
| HiveClient.ServedListIsComplete | internal/platform/hiveclient/client.go:90-121 | on a server that pages a fixed list the client returns, with exactly that list in order, after as many requests as it has pages |
| Service.CleanAll | internal/application/harvest/service.go:105-111 | cleaning stops at the first failure and leaves a cleaned prefix |
| Service.Service.Create | internal/application/harvest/service.go:55-83 | performs exactly the create step: refusals change nothing, read-only hives are refused |
| Service.Service.List | internal/application/harvest/service.go:125-141 | answers with the page and total of the hive's full listing once ownership is granted |
| Service.Service.ListAll | internal/application/harvest/service.go:143-160 | answers with the page and total of the listing over the set of owned hives |
| Service.Service.Update | internal/application/harvest/service.go:198-226 | performs exactly the update step: editable fields replaced, everything else kept |
| Service.Service.Delete | internal/application/harvest/service.go:228-239 | performs exactly the delete step, which needs ownership but not a writable hive |
| Service.Service.DeleteByHive | internal/application/harvest/service.go:95-113 | deletes the hive's records exactly when every one of them was cleaned, else nothing |
| Service.Service.Serve | internal/application/harvest/service.go:55-239 | every call performed by the code is one specification step: same table, same answer |
| ServiceLaws.RefusedCall | internal/application/harvest/service.go:55-113 | without ownership a call changes nothing and is told the hive is not found, or of an internal error when ownership could not be verified; a read-only hive refuses creates and updates |
| ServiceLaws.ContentOnText | internal/domain/harvest/unit.go:23-40 | what a validated request may store is one of the six pairs, spelled out, with an amount >= 0 |
| ServiceLaws.CreateStores | internal/application/harvest/service.go:67-83 | a granted create under a free id stores exactly the record it answers, field by field, if and only if product, amount and unit meet the constraints; else nothing |
| ServiceLaws.GetReads | internal/application/harvest/service.go:115-123 | a granted read answers the record stored under that hive, or that there is none |
| ServiceLaws.UpdateReplaces | internal/application/harvest/service.go:198-226 | a granted update replaces product, amount, unit, day and update time of the record stored under that hive and keeps the rest; it is refused, with no change, when there is none or a constraint is violated |
| ServiceLaws.DeleteRemoves | internal/application/harvest/service.go:228-239 | after a granted delete of a record stored under that hive its id is not in the table, every other record is equal and the answer is done; otherwise the table is equal and the record is not found |
| ServiceLaws.DeleteByHiveRemoves | internal/application/harvest/service.go:95-113 | a granted cascade removes and names exactly the hive's records if and only if each of them can be cleaned, or no reminder service is configured |
| ServiceLaws.DeleteAllByUserRemoves | internal/application/harvest/service.go:85-93 | account deletion removes exactly the records with that owner |
| ServiceLaws.ListAnswers | internal/application/harvest/service.go:125-160 | a granted listing answers the rows number (page - 1) * limit + 1 to page * limit of the full listing, as far as there are, and its size |
| ServiceLaws.ListRefused | internal/application/harvest/service.go:125-160 | a listing fails when the owned hives cannot be had or the server does not take the filter |
| ServiceLaws.ObserverIsTold | internal/application/harvest/ports.go:11-24 | who the observers of `NonInterference` are: those whose grants lie within the hives, and they are told every answer of their calls |
| ServiceLaws.DeletedStaysDeleted | internal/application/harvest/service.go:228-239 | over runs: a deleted id stays absent, and granted reads do not find it, until a call creates it again |
| ServiceLaws.WrittenIsReadBack | internal/application/harvest/service.go:67-83 | over runs: what a create or an update answered is what every granted read answers, until a call edits or removes the record |
| ServiceLaws.ValidatedCreateSucceeds | internal/domain/harvest/unit.go:23-40 | a create with an allowed pair of product and unit and an amount >= 0 violates no constraint of the table |
| ServiceLaws.ValidatedUpdateSucceeds | internal/domain/harvest/unit.go:23-40 | nor does such an update of a stored record |
| ServiceLaws.RecordsStayAllowed | internal/transport/http/harvest/requests.go:83-130 | over runs of validated requests every record has one of the six allowed pairs, spelled out, and an amount >= 0 |
| ServiceRuns.StepSeesOnlyView | internal/application/harvest/ports.go:11-24 | a call on two tables that agree on the granted hives gives equal answers and leaves them agreeing |
| ServiceRuns.StepKeepsOthers | internal/application/harvest/service.go:67-113 | a call changes nothing under hives it was not granted |
| ServiceRuns.NonInterference | internal/application/harvest/errors.go:5-11 | over every run, what an observer of some hives is told equals what it would be told with all other callers' calls removed and over any other table that agrees on those hives |
| ServiceRuns.RunsKeepContentValid | internal/transport/http/harvest/requests.go:83-130 | every table reachable by validated requests holds only allowed product/unit pairs and amounts >= 0 |
| ServiceRuns.RunProvenance | internal/application/harvest/service.go:67-113 | over every run a record keeps id, hive, owner and creation time; what it holds is what it held before or what its create or a granted writable update wrote; it goes only by a granted delete or its owner's account deletion, and comes only from a granted writable create |
| ServiceRuns.UpdateIsAtomicAtItsWrite | internal/application/harvest/service.go:210-225 | whatever calls run between the read and the write of an update, it acts and answers as if it ran at the write, also when a constraint rejects the write |
| Interleaving.ServeAll | internal/application/harvest/service.go:55-239 | performing calls one after another is the run of their steps |
| Interleaving.ListAmong | internal/application/harvest/service.go:125-141 | with any calls between its two statements a listing answers with the total of the earlier table and the page of the later one |
| Interleaving.ListAllAmong | internal/application/harvest/service.go:143-160 | the same of the cross-hive listing |
| Interleaving.SplitListOnFields | internal/repository/postgres/harvest_repository.go:160-184 | that answer, spelled out: the total is the size of the earlier table's listing, the items are rows number (page - 1) * limit + 1 to page * limit of the later one's |
| Interleaving.UndisturbedListing | internal/repository/postgres/harvest_repository.go:160-184 | calls in between that do not write under the listed hives leave the answer that of a single step |
| Cascade.DeleteByHiveAmong | internal/application/harvest/service.go:97-113 | with calls in between before every cleaning and before the deletion: it refuses exactly without grant or on a failed cleaning and then deletes nothing; the cleaned ids are a prefix of the listing, all of it on success; it deletes exactly what is then under the hive; and if nothing was created there meanwhile, every id deleted was cleaned first |
| Cascade.UndisturbedCascade | internal/application/harvest/service.go:97-113 | calls in between that do not write under the hive leave the answer of a single step, and with none at all it is that step |
| Cascade.UncleanedWereCreatedSince | internal/application/harvest/service.go:101-112 | of the ids deleted, exactly those created since the listing were not listed |
| Cascade.DeletedWereListed | internal/application/harvest/service.go:101-112 | with no create under the hive in between, every id deleted was listed |
| Cascade.CreateInBetweenIsDeletedUncleaned | internal/application/harvest/service.go:101-112 | a create under the hive in between is deleted without having been cleaned |
| Cascade.FailedAttemptsLeaveNoTrace | internal/application/harvest/service.go:97-113 | failed attempts leave no trace: the table of a run with them is that of the other calls alone |
| Cascade.Retries | internal/application/harvest/service.go:97-113 | with any calls between any number of failed attempts, the first successful one empties the hive and leaves of the rest what the other calls alone have made of it |
| Concurrency.Serializable | internal/application/harvest/service.go:55-239 | however the statements of any number of calls interleave, the table is that of the calls performed whole, one after another, in the order of their last statements |
| Concurrency.LoggedOnce | internal/application/harvest/service.go:55-239 | that order has no call twice, and every answered call but the cascades that stopped at a failed cleaning |
| Concurrency.AnswersAreRight | internal/application/harvest/service.go:55-239 | every answer is right for the two tables that the call's own first and own last statement found: a listing has the total of the one and the page of the other, a cascade deletes what is there last if what was there first is clean, everything else is answered as if performed whole at the last |
| Concurrency.AnswersAreSerial | internal/application/harvest/service.go:55-239 | every answer is the one the serial run gives at the call's place in the order; only the total of a listing may be of an earlier table, and only a cascade that stopped at a failed cleaning has no place |
| Concurrency.ConcurrentProvenance | internal/application/harvest/service.go:67-113 | through any interleaving a record keeps id, hive, owner and creation time, and comes, changes and goes only by calls that may do so |
| Requests.Validate | internal/transport/http/harvest/requests.go:83-130 | the error map is empty exactly for one of the six allowed pairs, an amount >= 0 and a valid date; it has an entry exactly for each wrong field, with the code for a missing, an unknown or a negative value, and the code for the combination only for a valid product and unit |
| Requests.DateTextRoundTrip | internal/transport/http/harvest/responses.go:31 | an accepted harvest date comes back as the same text |
| Requests.DateTextsAreDays | internal/transport/http/harvest/handler.go:100 | every date of a four-digit year can be sent; equal texts are equal days, and stored days keep the calendar order |
| Requests.ParseReportRange | internal/transport/http/harvest/report.go:70-99 | accepts exactly two valid dates in order no further apart than one calendar year, with the field and the code text of each refusal: missing, malformed, reversed, too long |
| Requests.AcceptedRangeLength | internal/transport/http/harvest/report.go:90-97 | accepted ranges are exactly those 0 to 365 days long, or 0 to 366 when a leap day lies ahead |
| Requests.ParsedMeaning | internal/transport/http/harvest/handler.go:155-163 | no complaint is exactly acceptable parameters; then the filter selects exactly what the parameters ask for, and the database answers it exactly when neither bound sent lies in year 0 |
| Requests.ParseListFilter | internal/transport/http/harvest/handler.go:199-329 | the error map stays empty exactly for acceptable parameters; then the filter selects exactly the records asked for, both dates inclusive, and the database answers it exactly when neither bound sent lies in year 0 |
| Requests.YearZeroIsRefused | internal/transport/http/harvest/handler.go:199-329 | the lower bound 0000-01-01 is accepted as a parameter and refused by the database |
| RequestLaws.DateOnText | internal/transport/http/harvest/handler.go:353 | a date text is accepted if and only if its characters read YYYY-MM-DD and name a day of the calendar, and then it is that day |
| RequestLaws.DaysAreCounted | internal/transport/http/harvest/handler.go:353 | stored days count from 1970-01-01 through months of their Gregorian lengths, spelled out |
| RequestLaws.ListedOnFields | internal/repository/postgres/harvest_repository.go:110-150 | a record is in the full listing if and only if it is stored under a listed hive and meets each filter, where "gt" is above, "lt" below and "eq" equal to the amount |
| RequestLaws.AnsweredFilters | internal/domain/harvest/amount_operator.go:15-39 | the server takes a filter if and only if its operator text is one of the three and no bound lies in year 0 |
| RequestLaws.AmountFilterNarrows | internal/domain/harvest/amount_operator.go:28-39 | adding operator and amount to a filter keeps exactly the listed rows above, below or at the amount |
| RequestLaws.AcceptedOnText | internal/transport/http/harvest/handler.go:199-329 | the acceptable parameters, spelled out on their texts |
| RequestLaws.ListedOnText | internal/transport/http/harvest/handler.go:199-329 | with acceptable parameters a record is listed if and only if it is what each given text asks for, dates inclusive |
| RequestLaws.OrderOnText | internal/transport/http/harvest/handler.go:316-329 | "asc" and "desc" order by creation, no parameter by harvest day, newest first, and ids decide ties |
| RequestLaws.ProductComplaintOnText | internal/transport/http/harvest/handler.go:199-216 | the product is complained about exactly when it is given and none of the four |
| RequestLaws.AmountComplaintsOnText | internal/transport/http/harvest/handler.go:222-264 | operator and amount are complained about, each by its own check, exactly when one of the two is given |
| RequestLaws.DateComplaintsOnText | internal/transport/http/harvest/handler.go:266-314 | a malformed date, and two dates out of order, are complained about under their field and code |
| RequestLaws.SortComplaintOnText | internal/transport/http/harvest/handler.go:316-329 | a sort order is complained about exactly when it is given and neither "asc" nor "desc" |
| Migration.RoundTrips | migrations/000004_change_harvested_at_to_date.down.sql:2-4 | up after down is the identity and down after up truncates to the start of the UTC day, also before the epoch |
| Migration.MigratesByTheClock | migrations/000004_change_harvested_at_to_date.up.sql:3-5 | every hour, minute, second and microsecond of a calendar date, in UTC, migrates to that date, and the date back to its midnight |
| Migration.OnlyTheDayChanges | migrations/000004_change_harvested_at_to_date.up.sql:3-5 | no row comes or goes and no other column changes |
| Migration.SelectionAcrossMigration | migrations/000004_change_harvested_at_to_date.up.sql:3-5 | every filter selects the same rows before the migration (midnight bounds on timestamps) and after it (days) |
| Migration.DefaultOrderAcrossMigration | migrations/000004_change_harvested_at_to_date.up.sql:3-5 | the default listing keeps its order across the migration if and only if, within each day, later times belong to larger ids |
| Migration.DefaultOrderCanChange | migrations/000004_change_harvested_at_to_date.up.sql:3-5 | two harvests of one day that are listed by time before and the other way round, by id, after |
| Migration.CreatedOrderAcrossMigration | migrations/000004_change_harvested_at_to_date.up.sql:3-5 | creation-order listings are untouched by the migration |

## Left out

- ServiceRuns.NonInterference: generated ids are taken to be new, as random UUIDs are; account deletions are part of every observer's run.
- LiveRun.FinishedRunSettles: a record whose id is generated anew during the run is not followed.
- LiveRunLaws.LiveRunEnds: says nothing of runs during which records without an owner are created, which the HTTP service never does.
- Concurrency.AnswersAreRight: generated ids are taken to be new, and the backfill takes no part in it; each statement is atomic, as a single SQL statement is.
- Service.Service.DeleteByHive: database failures of its statements are not modelled; in the backfill, where they decide the outcome, they are.
- Best-effort reminder cleanup after a single delete: it follows the answer and changes no record.
- Failures of the connection, of scanning rows and of the context in the other use cases: they return an error and change nothing.
- NaN and infinite amounts, and the precision PostgreSQL keeps of timestamps.
- HTTP routing, token verification, JSON, logging, configuration, dbclear and the text of error responses beyond the field they name.
- The pagination library is not part of this model; a page is at least 1, a limit at least 1, and the offset is (page - 1) * limit.
