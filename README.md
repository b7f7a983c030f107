# Campsite availability filter

A model of the availability filter of a campsite booking program
(`app.js`). A customer asks for a date window. The filter returns the
campsites, in their given order, that can take the window, given the
existing reservations and a list of gap rules. A gap rule is a number of
idle days that must not be left between two bookings of one site.

For each site the filter:
- takes the site's own reservations;
- finds the reservation before the search and the one after it (`adjacentReservations`);
- measures the idle days between the search and each of those two (`gap`);
- rejects the site if either side overlaps the search or leaves a forbidden number of idle days.

The model is written as functions over sequences, with lemmas:

- `collections.dfy` (module `Collections`) models the array operations the filter uses.
  - `Filter` stands for `Array.prototype.filter`.
  - `Find` and `FindLast` stand for lodash `_.find` and `_.findLast`.
  - `Option` stands for a lookup that may answer `undefined`.
- `availability.dfy` (module `Availability`) models `gap`, `adjacentReservations` and `availableSites`.
  - It also holds the corrected lookup (see "## Findings") and the theorem proved about it.
- `availability_tests.dfy` (module `AvailabilityTests`) holds the concrete cases of `test/test.js`, stated as lemmas.
  - It also holds the counterexample behind the finding.

Modelling decisions:
- **Dates** are integer day numbers. moment's `>` on dates becomes `>` on integers, and `diff(..., 'days')` becomes subtraction.
- **`gap`'s result** is the datatype `GapResult = NoRange | Overlap | Idle(days)`. `ToJs` maps it back to the JavaScript values `null`, `-1` and `n`.
- **The test at app.js:19** is stated on those JavaScript values:
  - `Includes` models lodash `_.includes`, which compares with SameValueZero, so `null` is in no array of numbers.
  - `LooseNotEquals` models the loose `!= -1`, for which `null` differs from every number.
  - `AdmitsIffGapsPermitted` then says what the test means in terms of `GapResult`.
- **The lookup does not sort.** The design of `adjacentReservations` is to pick the reservation with the greatest start date on or before the search's start (the comment at app.js:38, after sorting at line 40). The code does not do that: it discards the result of `_.sortBy` and looks up in input order. The model follows the code. The sorted version is modelled separately as the corrected lookup.

## Model

| member | source | states |
|---|---|---|
| Collections.FilterSpec | app.js:11-12 | `filter` keeps exactly the elements satisfying the callback, in their order (a subsequence), every occurrence of a kept element kept |
| Collections.FindSpec | app.js:43 | `_.find` answers nothing exactly when no element qualifies, and otherwise an element that qualifies with no earlier element qualifying |
| Collections.FindLastSpec | app.js:42 | `_.findLast` answers nothing exactly when no element qualifies, and otherwise an element that qualifies with no later element qualifying |
| Availability.Gap | app.js:24-36 | null exactly when a range is absent; an idle count is never negative; the JavaScript encoding is null exactly for a missing range and -1 exactly for an overlap, so the encodings never collide |
| Availability.GapOverlapIffShareDay | app.js:27-35 | for well-formed ranges the overlap sentinel is returned exactly when the two ranges have a calendar day in common, which includes nesting, partial overlap and touching on one day |
| Availability.GapCountsDaysBetween | app.js:27-32 | for well-formed ranges a number is returned exactly when they share no day, and it is the count of days between them that neither covers |
| Availability.GapSymmetric | app.js:27-32 | for well-formed ranges the argument order does not matter |
| Availability.AdjacentReservationsSpec | app.js:39-45 | `prev` is absent exactly when every reservation starts after the search's start; otherwise it is a member of the input that starts on or before it, and every later input element starts after it. `next` is the mirror image: absent exactly when none starts after the search's start, otherwise a member starting after it with every earlier element starting on or before it |
| Availability.AdjacentNearestWhenSorted | app.js:38-44 | on input sorted by start date the lookup finds the nearest reservations, as line 38's comment intends: `prev` has the greatest start date among those starting on or before the search, and `next` has the least among those starting after it |
| Availability.SiteReservationsSpec | app.js:12 | a site's reservations are exactly the reservations with its id, in input order, every occurrence kept |
| Availability.AdmitsIffGapsPermitted | app.js:14-19 | the JavaScript test on null, -1 and numbers keeps a site exactly when neither side overlaps and neither idle gap has a forbidden size; a missing neighbour matches no rule |
| Availability.AvailableSitesSpec | app.js:10-21 | the result is an order-preserving subsequence of the campsites holding exactly the sites whose own reservations' neighbours admit the search, each kept site as often as it occurs in the campsites |
| Availability.SiteWithoutReservationsKept | app.js:11-19 | a site without reservations is always kept |
| Availability.OtherSiteReservationIrrelevant | app.js:12-13 | inserting a reservation of another site anywhere in the input does not change whether a site is kept |
| Availability.InsertByStart | app.js:40 | one insertion step of the sort adds exactly the inserted reservation |
| Availability.SortByStart | app.js:40 | `_.sortBy(reservations, 'startDate')` yields a permutation of its input that is sorted by start date |
| Availability.SortByStartOfSorted | app.js:40 | sorting input that is already sorted changes nothing |
| Availability.AdjacentReservationsSorted | app.js:38-45 | the corrected lookup: whatever the input order, `prev` is absent exactly when every reservation starts after the search, and otherwise is a member starting on or before it with the greatest such start date. `next` is the mirror image with the least start date after the search |
| Availability.AvailableSitesSortedSpec | app.js:10-21 | the filter with the corrected lookup keeps, in order, exactly the sites whose sorted neighbours admit the search, each kept site as often as it occurs in the campsites |
| Availability.SortedFilterNeverDoubleBooks | app.js:18-19 | with the corrected lookup, over well-formed reservations without double bookings, a kept site has no reservation sharing a day with the search, whatever the input order |
| Availability.SortedInputAgrees | app.js:39-45 | when every site's reservations are already sorted by start date, the as-written filter and the corrected one return the same sites |
| AvailabilityTests.GapTestCases | test/test.js:157-217 | the five `gap` cases: a 2-day gap in either argument order, -1 for full and for partial overlap, null for a missing range |
| AvailabilityTests.AdjacentOrderedTestCase | test/test.js:74-103 | on the ordered input the lookup answers the second and third reservations |
| AvailabilityTests.AdjacentUnorderedTestCase | test/test.js:105-133 | on the unordered input the lookup answers the fourth and second reservations |
| AvailabilityTests.AdjacentNoNextTestCase | test/test.js:135-154 | with no reservation after the search `next` is missing |
| AvailabilityTests.ReferenceBookings1 | test/test.js:275-276 | site 1 is rejected: a 2-day gap before the search |
| AvailabilityTests.ReferenceBookings2 | test/test.js:277 | site 2 is rejected: a reservation starts inside the search |
| AvailabilityTests.ReferenceBookings3 | test/test.js:278-279 | site 3 is rejected: a 3-day gap after the search |
| AvailabilityTests.ReferenceBookings4 | test/test.js:280-281 | site 4 is rejected: a 2-day gap after the search |
| AvailabilityTests.ReferenceBookings5 | test/test.js:282-283 | site 5 is kept |
| AvailabilityTests.ReferenceBookings6 | test/test.js:284-286 | site 6 is kept |
| AvailabilityTests.ReferenceBookings7 | test/test.js:287-289 | site 7 is rejected: a reservation starts on the search's first day |
| AvailabilityTests.ReferenceBookings8 | test/test.js:290-291 | site 8 is kept |
| AvailabilityTests.ReferenceBookings9 | test/test.js:292-293 | site 9 is kept |
| AvailabilityTests.ReferenceSiteReservations | test/test.js:274-294 | the reference data set's reservations of each site are exactly that site's block in the list |
| AvailabilityTests.ReferenceScenario | test/test.js:221-299 | on the reference data set the filter keeps sites 5, 6, 8 and 9, in that order |
| AvailabilityTests.ReferenceScenarioSorted | test/test.js:221-299 | the filter with the corrected lookup passes the same test: each site's reservations in the data set are already in start-date order |
| AvailabilityTests.UnsortedInputValid | app.js:39-44 | the counterexample input is valid (well-formed, no double booking) and the search overlaps the site's first booking |
| AvailabilityTests.UnsortedLookupAdmitsDoubleBooking | app.js:40-44 | as written, the filter offers the site although the search overlaps one of its bookings |
| AvailabilityTests.UnsortedLookupDependsOnOrder | app.js:40-44 | as written, the same two bookings listed in the other order make the filter drop the site, so its answer depends on the input order |
| AvailabilityTests.SortedLookupRejectsDoubleBooking | app.js:38-44 | with the corrected lookup the same site is not offered |

## Left out

- `loadData` and the top-level script (app.js:5-7, 63-65) read a file, parse JSON and print site names. These are I/O and are not modelled.
- `datesToMoments` (app.js:48-60) parses date strings with moment and overwrites fields in place. The model takes dates already converted to day numbers. moment's parser is not part of this model.
- Not modelled from moment:
  - the millisecond comparison behind `>`;
  - time zones;
  - daylight-saving effects on `diff`.

  Dates are taken to be midnight-aligned, so day arithmetic is exact.
- Campsite fields other than `id`: `name` is used only for printing.
- JavaScript loose-equality corner cases, such as a `gapSize` that is null, a string or a non-integer. Gap sizes are integers here.
- Permutation invariance of the as-written `adjacentReservations` is not stated, because it is false. `UnsortedLookupAdmitsDoubleBooking` and `UnsortedLookupDependsOnOrder` show two orders of the same bookings that the filter answers differently.
- SortByStart: stability is not proved. Its contract states sortedness and permutation only. The corrected lookup's contract does not depend on how ties between equal start dates are broken, and the tie-break among equal start dates is left open.

## Findings

| source | as written | input that shows it | evidently intended | confidence | as-written member | corrected member |
|---|---|---|---|---|---|---|
| app.js:40 | `_.sortBy(reservations, 'startDate')` returns a new array that is discarded, so `findLast`/`find` run over the reservations in input order | site 1 with bookings June 8-11 then June 1-2 (in that order), search June 10-12, gap rules 2 and 3: `prev` is the June 1-2 booking (7 idle days), `next` is missing, so site 1 is offered although the search overlaps its June 8-11 booking | the lookup runs over the sorted copy (line 38's comment), so a kept site never has a booking overlapping the search | not executed | AvailabilityTests.UnsortedLookupAdmitsDoubleBooking | Availability.SortedFilterNeverDoubleBooks |
