/**
 The campsite availability filter: for one search window, the campsites
 that can take it, given the existing reservations and the gap rules (idle
 gap sizes between bookings that a site must not be left with).

 Calendar dates are day numbers: consecutive dates differ by one, so a
 comparison of dates is a comparison of integers and a difference in days
 is a subtraction.
 */
module Availability {
  import opened Collections

  type Day = int

  /** A date range, both ends inclusive: the search window. */
  datatype Range = Range(startDate: Day, endDate: Day)

  /** An existing booking of the site `campsiteId`. */
  datatype Reservation = Reservation(campsiteId: int, startDate: Day, endDate: Day)

  datatype Campsite = Campsite(id: int)

  /** A forbidden number of idle days between two bookings. */
  datatype GapRule = GapRule(gapSize: int)

  /** What `gap` decides: there is no range on one side, the ranges
      overlap, or they are apart with `days` idle days between them. */
  datatype GapResult = NoRange | Overlap | Idle(days: int)

  /** The JavaScript values `gap` returns: null, or a number
      (-1 standing for an overlap). */
  datatype JsValue = Null | Number(n: int)

  /** The nearest reservations before and after a search's start date. */
  datatype Adjacent = Adjacent(prev: Option<Reservation>, next: Option<Reservation>)

  function ToJs(g: GapResult): JsValue
  {
    match g
    case NoRange => Null
    case Overlap => Number(-1)
    case Idle(n) => Number(n)
  }

  predicate WellFormed(r: Range)
  {
    r.startDate <= r.endDate
  }

  predicate Contains(r: Range, d: Day)
  {
    r.startDate <= d <= r.endDate
  }

  /** Some calendar day lies in both ranges. */
  ghost predicate ShareDay(a: Range, b: Range)
  {
    exists d :: Contains(a, d) && Contains(b, d)
  }

  /** The days from the earliest start to the latest end of the two
      ranges that neither range covers. */
  ghost function DaysBetween(a: Range, b: Range): set<Day>
  {
    var first := if a.startDate <= b.startDate then a.startDate else b.startDate;
    var last := if a.endDate <= b.endDate then b.endDate else a.endDate;
    set d | first <= d <= last && !Contains(a, d) && !Contains(b, d)
  }

  /** The days strictly after `lo` and strictly before `hi`. */
  ghost function OpenInterval(lo: Day, hi: Day): (s: set<Day>)
    requires lo < hi
    ensures forall d :: d in s <==> lo < d < hi
    ensures |s| == hi - lo - 1
    decreases hi - lo
  {
    if hi == lo + 1 then {} else OpenInterval(lo, hi - 1) + {hi - 1}
  }

  function RangeOf(r: Reservation): Range
  {
    Range(r.startDate, r.endDate)
  }

  function OptionalRange(r: Option<Reservation>): Option<Range>
  {
    match r
    case None => None
    case Some(res) => Some(RangeOf(res))
  }

  // ---------------------------------------------------------------------
  // gap

  /** `gap(range1, range2)`: the idle days between two ranges, or the
      overlap sentinel when neither starts strictly after the other ends. */
  function Gap(range1: Option<Range>, range2: Option<Range>): (g: GapResult)
    ensures g.NoRange? <==> range1.None? || range2.None?
    ensures g.Idle? ==> g.days >= 0
    ensures ToJs(g) == Null <==> g.NoRange?
    ensures ToJs(g) == Number(-1) <==> g.Overlap?
  {
    if range1.None? || range2.None? then NoRange
    else if range1.value.startDate > range2.value.endDate then
      Idle(range1.value.startDate - range2.value.endDate - 1)
    else if range2.value.startDate > range1.value.endDate then
      Idle(range2.value.startDate - range1.value.endDate - 1)
    else Overlap
  }

  /** The overlap sentinel is returned exactly when the two ranges have a
      day in common: nesting, partial overlap and touching on one day. */
  lemma GapOverlapIffShareDay(a: Range, b: Range)
    requires WellFormed(a) && WellFormed(b)
    ensures Gap(Some(a), Some(b)) == Overlap <==> ShareDay(a, b)
  {
    if Gap(Some(a), Some(b)) == Overlap {
      var d := if a.startDate <= b.startDate then b.startDate else a.startDate;
      assert Contains(a, d) && Contains(b, d);
    }
    if ShareDay(a, b) {
      var d :| Contains(a, d) && Contains(b, d);
    }
  }

  /** A numeric gap counts the calendar days strictly between the ranges. */
  lemma GapCountsDaysBetween(a: Range, b: Range)
    requires WellFormed(a) && WellFormed(b)
    ensures Gap(Some(a), Some(b)).Idle? <==> !ShareDay(a, b)
    ensures Gap(Some(a), Some(b)).Idle? ==> Gap(Some(a), Some(b)).days == |DaysBetween(a, b)|
  {
    GapOverlapIffShareDay(a, b);
    if a.startDate > b.endDate {
      assert DaysBetween(a, b) == OpenInterval(b.endDate, a.startDate);
    } else if b.startDate > a.endDate {
      assert DaysBetween(a, b) == OpenInterval(a.endDate, b.startDate);
    }
  }

  /** For well-formed ranges the order of the arguments does not matter. */
  lemma GapSymmetric(range1: Option<Range>, range2: Option<Range>)
    requires range1.Some? ==> WellFormed(range1.value)
    requires range2.Some? ==> WellFormed(range2.value)
    ensures Gap(range1, range2) == Gap(range2, range1)
  {
  }

  // ---------------------------------------------------------------------
  // adjacentReservations

  /** `adjacentReservations(search, reservations)` as written: the sorted
      copy the source computes is discarded, so `prev` is the LAST
      reservation in input order starting on or before the search's start
      and `next` the FIRST one starting after it. */
  function AdjacentReservations(search: Range, reservations: seq<Reservation>): Adjacent
  {
    Adjacent(FindLast(reservations, StartsBy(search)), Find(reservations, StartsAfter(search)))
  }

  function StartsBy(search: Range): Reservation -> bool
  {
    (r: Reservation) => r.startDate <= search.startDate
  }

  function StartsAfter(search: Range): Reservation -> bool
  {
    (r: Reservation) => r.startDate > search.startDate
  }

  /** What the lookup finds, in input order: `prev` is missing exactly when
      every reservation starts after the search, and otherwise starts on or
      before it with every LATER reservation in the input starting after it;
      `next` is missing exactly when none starts after the search, and
      otherwise starts after it with every EARLIER reservation in the input
      starting on or before it. */
  lemma AdjacentReservationsSpec(search: Range, reservations: seq<Reservation>)
    ensures var a := AdjacentReservations(search, reservations);
      && (a.prev.None? <==> forall i :: 0 <= i < |reservations| ==> reservations[i].startDate > search.startDate)
      && (a.prev.Some? ==>
        exists i :: 0 <= i < |reservations| && reservations[i] == a.prev.value
          && reservations[i].startDate <= search.startDate
          && forall j :: i < j < |reservations| ==> reservations[j].startDate > search.startDate)
      && (a.next.None? <==> forall i :: 0 <= i < |reservations| ==> reservations[i].startDate <= search.startDate)
      && (a.next.Some? ==>
        exists i :: 0 <= i < |reservations| && reservations[i] == a.next.value
          && reservations[i].startDate > search.startDate
          && forall j :: 0 <= j < i ==> reservations[j].startDate <= search.startDate)
  {
    FindLastSpec(reservations, StartsBy(search));
    FindSpec(reservations, StartsAfter(search));
  }

  ghost predicate SortedByStart(rs: seq<Reservation>)
  {
    forall i, j :: 0 <= i < j < |rs| ==> rs[i].startDate <= rs[j].startDate
  }

  /** On input sorted by start date the lookup finds the nearest
      reservations: `prev` starts latest among those starting on or before
      the search, `next` earliest among those starting after it. */
  lemma AdjacentNearestWhenSorted(search: Range, rs: seq<Reservation>)
    requires SortedByStart(rs)
    ensures AdjacentReservations(search, rs).prev.Some? ==>
      forall r :: r in rs && r.startDate <= search.startDate ==>
        r.startDate <= AdjacentReservations(search, rs).prev.value.startDate
    ensures AdjacentReservations(search, rs).next.Some? ==>
      forall r :: r in rs && r.startDate > search.startDate ==>
        AdjacentReservations(search, rs).next.value.startDate <= r.startDate
  {
    var a := AdjacentReservations(search, rs);
    AdjacentReservationsSpec(search, rs);
    if a.prev.Some? {
      var i :| 0 <= i < |rs| && rs[i] == a.prev.value && rs[i].startDate <= search.startDate
        && forall j :: i < j < |rs| ==> rs[j].startDate > search.startDate;
      forall r | r in rs && r.startDate <= search.startDate
        ensures r.startDate <= a.prev.value.startDate
      {
        var k :| 0 <= k < |rs| && rs[k] == r;
        assert k <= i;
      }
    }
    if a.next.Some? {
      var i :| 0 <= i < |rs| && rs[i] == a.next.value && rs[i].startDate > search.startDate
        && forall j :: 0 <= j < i ==> rs[j].startDate <= search.startDate;
      forall r | r in rs && r.startDate > search.startDate
        ensures a.next.value.startDate <= r.startDate
      {
        var k :| 0 <= k < |rs| && rs[k] == r;
        assert i <= k;
      }
    }
  }

  // ---------------------------------------------------------------------
  // availableSites

  function GapSizes(gapRules: seq<GapRule>): seq<int>
  {
    seq(|gapRules|, i requires 0 <= i < |gapRules| => gapRules[i].gapSize)
  }

  /** `_.includes(values, v)`: lodash compares with SameValueZero, so null
      is found in no array of numbers. */
  function Includes(values: seq<int>, v: JsValue): bool
  {
    match v
    case Null => false
    case Number(n) => n in values
  }

  /** JavaScript's loose `v != n` for a number `n`: null differs from every number. */
  function LooseNotEquals(v: JsValue, n: int): bool
  {
    match v
    case Null => true
    case Number(m) => m != n
  }

  /** The reservations the filter looks at for one site. */
  function SiteReservations(reservations: seq<Reservation>, id: int): seq<Reservation>
  {
    Filter(reservations, OfSite(id))
  }

  /** A site's reservations keep their input order and are exactly the
      reservations with its id, every occurrence kept. */
  lemma SiteReservationsSpec(reservations: seq<Reservation>, id: int)
    ensures forall r :: r in SiteReservations(reservations, id) <==> r in reservations && r.campsiteId == id
    ensures IsSubsequence(SiteReservations(reservations, id), reservations)
    ensures forall r :: multiset(SiteReservations(reservations, id))[r]
                 == (if r.campsiteId == id then multiset(reservations)[r] else 0)
  {
    FilterSpec(reservations, OfSite(id));
  }

  function OfSite(id: int): Reservation -> bool
  {
    (r: Reservation) => r.campsiteId == id
  }

  /** The test the filter callback applies to one site (its return
      statement), on the JavaScript values `gap` returns. */
  function Admits(search: Range, gapSizes: seq<int>, adjacent: Adjacent): bool
  {
    var prevGap := ToJs(Gap(Some(search), OptionalRange(adjacent.prev)));
    var nextGap := ToJs(Gap(Some(search), OptionalRange(adjacent.next)));
    !Includes(gapSizes, prevGap) && !Includes(gapSizes, nextGap)
      && LooseNotEquals(prevGap, -1) && LooseNotEquals(nextGap, -1)
  }

  /** A gap the policy accepts: no range on that side, or an idle gap of a
      size no rule forbids; an overlap is never accepted. */
  predicate Permits(g: GapResult, gapSizes: seq<int>)
  {
    match g
    case NoRange => true
    case Overlap => false
    case Idle(n) => n !in gapSizes
  }

  /** The JavaScript test on null / -1 / number means: neither side
      overlaps and neither idle gap has a forbidden size; a missing
      neighbour matches no rule. */
  lemma AdmitsIffGapsPermitted(search: Range, gapSizes: seq<int>, adjacent: Adjacent)
    ensures Admits(search, gapSizes, adjacent) <==>
      Permits(Gap(Some(search), OptionalRange(adjacent.prev)), gapSizes)
      && Permits(Gap(Some(search), OptionalRange(adjacent.next)), gapSizes)
  {
  }

  /** `availableSites(search, campsites, gapRules, reservations)`: the sites,
      in their order, that admit the search given their own reservations. */
  function AvailableSites(search: Range, campsites: seq<Campsite>, gapRules: seq<GapRule>,
                          reservations: seq<Reservation>): seq<Campsite>
  {
    Filter(campsites, SiteFilter(search, gapRules, reservations))
  }

  /** The result keeps the campsites' order and holds exactly the sites
      whose own reservations' neighbours admit the search, every occurrence
      of a kept site kept. */
  lemma AvailableSitesSpec(search: Range, campsites: seq<Campsite>, gapRules: seq<GapRule>,
                           reservations: seq<Reservation>)
    ensures IsSubsequence(AvailableSites(search, campsites, gapRules, reservations), campsites)
    ensures forall c :: c in AvailableSites(search, campsites, gapRules, reservations) <==>
      c in campsites
      && Admits(search, GapSizes(gapRules), AdjacentReservations(search, SiteReservations(reservations, c.id)))
    ensures forall c :: multiset(AvailableSites(search, campsites, gapRules, reservations))[c]
                 == (if Admits(search, GapSizes(gapRules), AdjacentReservations(search, SiteReservations(reservations, c.id)))
                     then multiset(campsites)[c] else 0)
  {
    FilterSpec(campsites, SiteFilter(search, gapRules, reservations));
  }

  /** The callback `availableSites` hands to `campsites.filter`. */
  function SiteFilter(search: Range, gapRules: seq<GapRule>, reservations: seq<Reservation>): Campsite -> bool
  {
    (site: Campsite) =>
      Admits(search, GapSizes(gapRules), AdjacentReservations(search, SiteReservations(reservations, site.id)))
  }

  /** A site without reservations is always kept. */
  lemma SiteWithoutReservationsKept(search: Range, campsites: seq<Campsite>, gapRules: seq<GapRule>,
                                    reservations: seq<Reservation>, c: Campsite)
    requires c in campsites
    requires forall r :: r in reservations ==> r.campsiteId != c.id
    ensures c in AvailableSites(search, campsites, gapRules, reservations)
  {
    FilterNone(reservations, OfSite(c.id));
    AvailableSitesSpec(search, campsites, gapRules, reservations);
  }

  /** A reservation of another site, wherever it is inserted, changes
      nothing: the decision for a site depends only on its own reservations. */
  lemma OtherSiteReservationIrrelevant(search: Range, campsites: seq<Campsite>, gapRules: seq<GapRule>,
                                       reservations: seq<Reservation>, k: nat, other: Reservation, c: Campsite)
    requires k <= |reservations|
    requires other.campsiteId != c.id
    ensures var more := reservations[..k] + [other] + reservations[k..];
      c in AvailableSites(search, campsites, gapRules, more)
      <==> c in AvailableSites(search, campsites, gapRules, reservations)
  {
    SiteReservationsIgnoreOtherSite(reservations, k, other, c.id);
    AvailableSitesSpec(search, campsites, gapRules, reservations);
    AvailableSitesSpec(search, campsites, gapRules, reservations[..k] + [other] + reservations[k..]);
  }

  lemma SiteReservationsIgnoreOtherSite(reservations: seq<Reservation>, k: nat, other: Reservation, id: int)
    requires k <= |reservations|
    requires other.campsiteId != id
    ensures SiteReservations(reservations[..k] + [other] + reservations[k..], id) == SiteReservations(reservations, id)
  {
    var a, b, p := reservations[..k], reservations[k..], OfSite(id);
    assert [other][1..] == [];
    calc {
      Filter(a + [other] + b, p);
    == { FilterConcat(a + [other], b, p); }
      Filter(a + [other], p) + Filter(b, p);
    == { FilterConcat(a, [other], p); }
      Filter(a, p) + Filter(b, p);
    == { FilterConcat(a, b, p); assert a + b == reservations; }
      Filter(reservations, p);
    }
  }

  // ---------------------------------------------------------------------
  // The lookup on sorted input, as the doc comment of adjacentReservations
  // describes it.

  /** Insert `r` before the first element that starts on or after it, so
      that reservations with equal start dates keep their input order. */
  function InsertByStart(r: Reservation, sorted: seq<Reservation>): (out: seq<Reservation>)
    ensures multiset(out) == multiset(sorted) + multiset{r}
    ensures |out| == |sorted| + 1
  {
    if sorted == [] || r.startDate <= sorted[0].startDate then [r] + sorted
    else
      var rest := InsertByStart(r, sorted[1..]);
      assert sorted == [sorted[0]] + sorted[1..];
      assert multiset([sorted[0]] + rest) == multiset{sorted[0]} + multiset(rest);
      [sorted[0]] + rest
  }

  /** `_.sortBy(reservations, 'startDate')`: insertion sort by start date. */
  function SortByStart(reservations: seq<Reservation>): (sorted: seq<Reservation>)
    ensures multiset(sorted) == multiset(reservations)
    ensures SortedByStart(sorted)
  {
    if reservations == [] then []
    else
      assert reservations == [reservations[0]] + reservations[1..];
      InsertKeepsSorted(reservations[0], SortByStart(reservations[1..]));
      InsertByStart(reservations[0], SortByStart(reservations[1..]))
  }

  lemma {:induction false} InsertKeepsSorted(r: Reservation, sorted: seq<Reservation>)
    requires SortedByStart(sorted)
    ensures SortedByStart(InsertByStart(r, sorted))
  {
    if sorted != [] && r.startDate > sorted[0].startDate {
      var rest := InsertByStart(r, sorted[1..]);
      InsertKeepsSorted(r, sorted[1..]);
      forall x | x in rest
        ensures sorted[0].startDate <= x.startDate
      {
        assert x in multiset(rest);
        if x != r {
          assert x in multiset(sorted[1..]);
          var k :| 0 <= k < |sorted[1..]| && sorted[1..][k] == x;
          assert sorted[k + 1] == x;
        }
      }
      var out := [sorted[0]] + rest;
      forall i, j | 0 <= i < j < |out|
        ensures out[i].startDate <= out[j].startDate
      {
        if i == 0 {
          assert out[j] == rest[j - 1];
          assert rest[j - 1] in rest;
        } else {
          assert out[i] == rest[i - 1] && out[j] == rest[j - 1];
        }
      }
    }
  }

  /** Sorting input that is already sorted changes nothing. */
  lemma {:induction false} SortByStartOfSorted(rs: seq<Reservation>)
    requires SortedByStart(rs)
    ensures SortByStart(rs) == rs
  {
    if rs != [] {
      SortByStartOfSorted(rs[1..]);
    }
  }

  /** `adjacentReservations` with the sorted copy used for the lookup:
      whatever the input order, `prev` starts latest among the reservations
      starting on or before the search and `next` earliest among those
      starting after it. */
  function AdjacentReservationsSorted(search: Range, reservations: seq<Reservation>): (a: Adjacent)
    ensures a.prev.None? <==> forall r :: r in reservations ==> r.startDate > search.startDate
    ensures a.prev.Some? ==>
      a.prev.value in reservations && a.prev.value.startDate <= search.startDate
      && forall r :: r in reservations && r.startDate <= search.startDate ==> r.startDate <= a.prev.value.startDate
    ensures a.next.None? <==> forall r :: r in reservations ==> r.startDate <= search.startDate
    ensures a.next.Some? ==>
      a.next.value in reservations && a.next.value.startDate > search.startDate
      && forall r :: r in reservations && r.startDate > search.startDate ==> a.next.value.startDate <= r.startDate
  {
    SortByStartSameElements(reservations);
    AdjacentReservationsSpec(search, SortByStart(reservations));
    AdjacentNearestWhenSorted(search, SortByStart(reservations));
    AdjacentReservations(search, SortByStart(reservations))
  }

  lemma SortByStartSameElements(reservations: seq<Reservation>)
    ensures forall r :: r in SortByStart(reservations) <==> r in reservations
  {
    var sorted := SortByStart(reservations);
    forall r ensures r in sorted <==> r in reservations {
      assert r in sorted <==> r in multiset(sorted);
      assert r in reservations <==> r in multiset(reservations);
    }
  }

  /** `availableSites` with the corrected lookup. */
  function AvailableSitesSorted(search: Range, campsites: seq<Campsite>, gapRules: seq<GapRule>,
                                reservations: seq<Reservation>): seq<Campsite>
  {
    Filter(campsites, SiteFilterSorted(search, gapRules, reservations))
  }

  /** The same characterisation for the filter with the corrected lookup. */
  lemma AvailableSitesSortedSpec(search: Range, campsites: seq<Campsite>, gapRules: seq<GapRule>,
                                 reservations: seq<Reservation>)
    ensures IsSubsequence(AvailableSitesSorted(search, campsites, gapRules, reservations), campsites)
    ensures forall c :: c in AvailableSitesSorted(search, campsites, gapRules, reservations) <==>
      c in campsites
      && Admits(search, GapSizes(gapRules), AdjacentReservationsSorted(search, SiteReservations(reservations, c.id)))
    ensures forall c :: multiset(AvailableSitesSorted(search, campsites, gapRules, reservations))[c]
                 == (if Admits(search, GapSizes(gapRules), AdjacentReservationsSorted(search, SiteReservations(reservations, c.id)))
                     then multiset(campsites)[c] else 0)
  {
    FilterSpec(campsites, SiteFilterSorted(search, gapRules, reservations));
  }

  function SiteFilterSorted(search: Range, gapRules: seq<GapRule>, reservations: seq<Reservation>): Campsite -> bool
  {
    (site: Campsite) =>
      Admits(search, GapSizes(gapRules), AdjacentReservationsSorted(search, SiteReservations(reservations, site.id)))
  }

  /** Existing reservations of one site never share a day (they are
      validated before they reach the filter). */
  ghost predicate NoDoubleBookings(reservations: seq<Reservation>)
  {
    forall a, b :: a in reservations && b in reservations && a != b && a.campsiteId == b.campsiteId ==>
      !ShareDay(RangeOf(a), RangeOf(b))
  }

  ghost predicate AllWellFormed(reservations: seq<Reservation>)
  {
    forall r :: r in reservations ==> WellFormed(RangeOf(r))
  }

  /** If the nearest reservations on both sides do not overlap the search,
      no reservation does. */
  lemma NearestGuardsAll(search: Range, rs: seq<Reservation>, adjacent: Adjacent)
    requires WellFormed(search) && AllWellFormed(rs)
    requires forall a, b :: a in rs && b in rs && a != b ==> !ShareDay(RangeOf(a), RangeOf(b))
    requires adjacent.prev.None? <==> forall r :: r in rs ==> r.startDate > search.startDate
    requires adjacent.prev.Some? ==>
      adjacent.prev.value in rs && adjacent.prev.value.startDate <= search.startDate
      && forall r :: r in rs && r.startDate <= search.startDate ==> r.startDate <= adjacent.prev.value.startDate
    requires adjacent.next.None? <==> forall r :: r in rs ==> r.startDate <= search.startDate
    requires adjacent.next.Some? ==>
      adjacent.next.value in rs && adjacent.next.value.startDate > search.startDate
      && forall r :: r in rs && r.startDate > search.startDate ==> adjacent.next.value.startDate <= r.startDate
    requires Gap(Some(search), OptionalRange(adjacent.prev)) != Overlap
    requires Gap(Some(search), OptionalRange(adjacent.next)) != Overlap
    ensures forall r :: r in rs ==> !ShareDay(search, RangeOf(r))
  {
    forall r | r in rs
      ensures !ShareDay(search, RangeOf(r))
    {
      if ShareDay(search, RangeOf(r)) {
        GapOverlapIffShareDay(search, RangeOf(r));
        if r.startDate <= search.startDate {
          var p := adjacent.prev.value;
          GapOverlapIffShareDay(search, RangeOf(p));
          if p != r {
            GapOverlapIffShareDay(RangeOf(p), RangeOf(r));
          }
          assert false;
        } else {
          var n := adjacent.next.value;
          GapOverlapIffShareDay(search, RangeOf(n));
          assert false;
        }
      }
    }
  }

  /** With the corrected lookup a site is kept only if the search overlaps
      none of its reservations, whatever their input order. */
  lemma SortedFilterNeverDoubleBooks(search: Range, campsites: seq<Campsite>, gapRules: seq<GapRule>,
                                     reservations: seq<Reservation>, c: Campsite)
    requires WellFormed(search) && AllWellFormed(reservations)
    requires NoDoubleBookings(reservations)
    requires c in AvailableSitesSorted(search, campsites, gapRules, reservations)
    ensures forall r :: r in reservations && r.campsiteId == c.id ==> !ShareDay(search, RangeOf(r))
  {
    var rs := SiteReservations(reservations, c.id);
    AvailableSitesSortedSpec(search, campsites, gapRules, reservations);
    SiteReservationsSpec(reservations, c.id);
    var adjacent := AdjacentReservationsSorted(search, rs);
    AdmitsIffGapsPermitted(search, GapSizes(gapRules), adjacent);
    NearestGuardsAll(search, rs, adjacent);
  }

  /** Where every site's reservations are already in start-date order the
      two filters agree. */
  lemma SortedInputAgrees(search: Range, campsites: seq<Campsite>, gapRules: seq<GapRule>,
                          reservations: seq<Reservation>)
    requires forall c :: c in campsites ==> SortedByStart(SiteReservations(reservations, c.id))
    ensures AvailableSitesSorted(search, campsites, gapRules, reservations)
         == AvailableSites(search, campsites, gapRules, reservations)
  {
    forall c | c in campsites
      ensures AdjacentReservationsSorted(search, SiteReservations(reservations, c.id))
           == AdjacentReservations(search, SiteReservations(reservations, c.id))
    {
      SortByStartOfSorted(SiteReservations(reservations, c.id));
    }
    FilterCongruence(campsites, SiteFilterSorted(search, gapRules, reservations), SiteFilter(search, gapRules, reservations));
  }
}
