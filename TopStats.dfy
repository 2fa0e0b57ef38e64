/**
 * The statistics of the query page: the most used parking locations
 * (`getTopParkingLocationsHelper`, App.js:481-492) and the largest fee totals
 * (`getTopParkersByFee`, App.js:494-500).
 */
module TopStats {
  import opened Strings
  import opened Lists
  import opened Records
  import opened FeeTotals

  /** The text for an empty record list. */
  const NoData := "데이터 없음"

  /** How many top fee totals `getTopParkersByFee` reports when no count is given. */
  const DefaultTopParkers := 3

  /** One entry `[location, num]` of the counting object. */
  datatype LocationCount = LocationCount(location: string, count: nat)

  /** The index of the entry for `loc`, or -1: the lookup `acc[loc]`. */
  function FindLocation(cs: seq<LocationCount>, loc: string): (i: int)
    ensures -1 <= i < |cs|
    ensures 0 <= i ==> cs[i].location == loc
    ensures 0 <= i ==> forall j :: 0 <= j < i ==> cs[j].location != loc
    ensures i == -1 <==> forall j :: 0 <= j < |cs| ==> cs[j].location != loc
  {
    if cs == [] then -1
    else if cs[0].location == loc then 0
    else
      var j := FindLocation(cs[1..], loc);
      if j < 0 then -1 else j + 1
  }

  predicate DistinctLocations(cs: seq<LocationCount>) {
    forall i, j :: 0 <= i < j < |cs| ==> cs[i].location != cs[j].location
  }

  /** The count kept for `loc`; 0 when there is no entry. */
  function CountOf(cs: seq<LocationCount>, loc: string): nat {
    var i := FindLocation(cs, loc);
    if i < 0 then 0 else cs[i].count
  }

  /** One step of the reduce: `acc[loc] = (acc[loc] || 0) + 1`. */
  function CountRecord(cs: seq<LocationCount>, r: ParkingRecord): seq<LocationCount> {
    var i := FindLocation(cs, r.parkingLocation);
    if i < 0 then cs + [LocationCount(r.parkingLocation, 1)]
    else cs[i := cs[i].(count := cs[i].count + 1)]
  }

  /** The counting object after the reduce over `rs`, in insertion order. */
  function LocationCounts(rs: seq<ParkingRecord>): seq<LocationCount> {
    if rs == [] then [] else CountRecord(LocationCounts(rs[..|rs| - 1]), rs[|rs| - 1])
  }

  /** The number of records parked at `loc`. */
  function Occurrences(rs: seq<ParkingRecord>, loc: string): nat {
    if rs == [] then 0
    else Occurrences(rs[..|rs| - 1], loc) + (if rs[|rs| - 1].parkingLocation == loc then 1 else 0)
  }

  lemma {:induction false} OccurrencesPositive(rs: seq<ParkingRecord>, r: ParkingRecord)
    requires r in rs
    ensures Occurrences(rs, r.parkingLocation) > 0
  {
    if rs[|rs| - 1] != r {
      assert rs == rs[..|rs| - 1] + [rs[|rs| - 1]];
      OccurrencesPositive(rs[..|rs| - 1], r);
    }
  }

  /** Appending an entry does not move the entry found for a location already present. */
  lemma {:induction false} FindLocationAppend(cs: seq<LocationCount>, e: LocationCount, loc: string)
    ensures FindLocation(cs + [e], loc) ==
      if FindLocation(cs, loc) >= 0 then FindLocation(cs, loc)
      else if e.location == loc then |cs| else -1
  {
    if cs != [] && cs[0].location != loc {
      assert (cs + [e])[1..] == cs[1..] + [e];
      FindLocationAppend(cs[1..], e, loc);
    }
  }

  /** One counting step adds one to the count of the record's location and leaves the others. */
  lemma CountRecordStep(cs: seq<LocationCount>, r: ParkingRecord, loc: string)
    requires DistinctLocations(cs)
    ensures DistinctLocations(CountRecord(cs, r))
    ensures CountOf(CountRecord(cs, r), loc) == CountOf(cs, loc) + (if r.parkingLocation == loc then 1 else 0)
  {
    var c := CountRecord(cs, r);
    var i := FindLocation(cs, r.parkingLocation);
    var j2 := FindLocation(cs, loc);
    if i < 0 {
      FindLocationAppend(cs, LocationCount(r.parkingLocation, 1), loc);
    } else {
      assert forall m :: 0 <= m < |c| ==> c[m].location == cs[m].location;
      if j2 >= 0 {
        assert FindLocation(c, loc) == j2;
      } else {
        assert FindLocation(c, loc) == -1;
      }
    }
  }

  /**
   * The counting object has one entry per location, a positive count in each entry, and the
   * count for every location is the number of records parked there.
   */
  lemma {:induction false} LocationCountsSpec(rs: seq<ParkingRecord>)
    ensures DistinctLocations(LocationCounts(rs))
    ensures forall loc :: CountOf(LocationCounts(rs), loc) == Occurrences(rs, loc)
    ensures forall i :: 0 <= i < |LocationCounts(rs)| ==> LocationCounts(rs)[i].count > 0
  {
    if rs != [] {
      var p, x := rs[..|rs| - 1], rs[|rs| - 1];
      LocationCountsSpec(p);
      CountRecordStep(LocationCounts(p), x, "");
      forall loc ensures CountOf(LocationCounts(rs), loc) == Occurrences(rs, loc) {
        CountRecordStep(LocationCounts(p), x, loc);
      }
    }
  }

  /** Every entry reports the number of records at its location; every record's location has an entry. */
  lemma LocationEntries(rs: seq<ParkingRecord>)
    ensures forall i :: 0 <= i < |LocationCounts(rs)| ==>
      LocationCounts(rs)[i].count == Occurrences(rs, LocationCounts(rs)[i].location)
    ensures forall r :: r in rs ==> FindLocation(LocationCounts(rs), r.parkingLocation) >= 0
  {
    var cs := LocationCounts(rs);
    LocationCountsSpec(rs);
    forall i | 0 <= i < |cs| ensures cs[i].count == Occurrences(rs, cs[i].location) {
      assert CountOf(cs, cs[i].location) == cs[i].count;
    }
    forall r | r in rs ensures FindLocation(cs, r.parkingLocation) >= 0 {
      OccurrencesPositive(rs, r);
    }
  }

  /** Comparator `([, a], [, b]) => b - a`: a larger count comes first. */
  function CountBefore(a: LocationCount, b: LocationCount): bool {
    a.count > b.count
  }

  /** `Object.entries(counts).sort(...).slice(0, n)` */
  function TopLocationEntries(rs: seq<ParkingRecord>, n: nat): seq<LocationCount> {
    Take(SortBy(LocationCounts(rs), CountBefore), n)
  }

  /**
   * A rearrangement of a list with one entry per location still has one entry per location, the
   * same counts, and an entry for every record's location.
   */
  lemma PermutedCounts(rs: seq<ParkingRecord>, cs: seq<LocationCount>, sorted: seq<LocationCount>)
    requires DistinctLocations(cs)
    requires multiset(sorted) == multiset(cs)
    requires forall i :: 0 <= i < |cs| ==> cs[i].count == Occurrences(rs, cs[i].location) > 0
    requires forall r :: r in rs ==> FindLocation(cs, r.parkingLocation) >= 0
    ensures |sorted| == |cs|
    ensures DistinctLocations(sorted)
    ensures forall i :: 0 <= i < |sorted| ==> sorted[i].count == Occurrences(rs, sorted[i].location) > 0
    ensures forall r :: r in rs ==> exists q :: 0 <= q < |sorted| && sorted[q].location == r.parkingLocation
  {
    assert |sorted| == |multiset(sorted)| == |multiset(cs)| == |cs|;
    assert forall i :: 0 <= i < |sorted| ==> sorted[i] in multiset(cs);
    assert Distinct(cs) by {
      forall i, j | 0 <= i < j < |cs| ensures cs[i] != cs[j] {
        assert cs[i].location != cs[j].location;
      }
    }
    DistinctPermutation(cs, sorted);
    forall i, j | 0 <= i < j < |sorted| ensures sorted[i].location != sorted[j].location {
      var p :| 0 <= p < |cs| && cs[p] == sorted[i];
      var q :| 0 <= q < |cs| && cs[q] == sorted[j];
      assert p != q;
    }
    forall i | 0 <= i < |sorted| ensures sorted[i].count == Occurrences(rs, sorted[i].location) > 0 {
      var p :| 0 <= p < |cs| && cs[p] == sorted[i];
    }
    forall r | r in rs ensures exists q :: 0 <= q < |sorted| && sorted[q].location == r.parkingLocation {
      var p := FindLocation(cs, r.parkingLocation);
      assert cs[p] in multiset(cs);
      assert cs[p] in sorted;
      var q :| 0 <= q < |sorted| && sorted[q] == cs[p];
    }
  }

  /**
   * The counting object sorted by count: non-increasing, a permutation of the counting object,
   * one entry per location, each with the number of records parked there.
   */
  lemma SortedCountsSpec(rs: seq<ParkingRecord>)
    ensures var sorted := SortBy(LocationCounts(rs), CountBefore);
      && Sorted(sorted, CountBefore)
      && |sorted| == |LocationCounts(rs)|
      && (forall i :: 0 <= i < |sorted| ==> sorted[i].count == Occurrences(rs, sorted[i].location) > 0)
      && DistinctLocations(sorted)
      && (forall r :: r in rs ==> exists q :: 0 <= q < |sorted| && sorted[q].location == r.parkingLocation)
  {
    var cs := LocationCounts(rs);
    LocationCountsSpec(rs);
    LocationEntries(rs);
    SortBySorted(cs, CountBefore);
    PermutedCounts(rs, cs, SortBy(cs, CountBefore));
  }

  /**
   * At most `n` entries, as many as there are locations up to `n`, in non-increasing count order,
   * each with the number of records at its location and no location twice; every location left
   * out has no more records than the last one reported, so the first entry has the maximum count.
   */
  lemma TopLocationEntriesSpec(rs: seq<ParkingRecord>, n: nat)
    ensures var e, cs := TopLocationEntries(rs, n), LocationCounts(rs);
      |e| == if n < |cs| then n else |cs|
    ensures var e := TopLocationEntries(rs, n);
      forall i, j :: 0 <= i < j < |e| ==> e[i].count >= e[j].count
    ensures var e := TopLocationEntries(rs, n);
      forall i :: 0 <= i < |e| ==> e[i].count == Occurrences(rs, e[i].location) > 0
    ensures DistinctLocations(TopLocationEntries(rs, n))
    ensures var e := TopLocationEntries(rs, n);
      n > 0 ==> forall r :: r in rs ==>
        || (exists i :: 0 <= i < |e| && e[i].location == r.parkingLocation)
        || Occurrences(rs, r.parkingLocation) <= e[|e| - 1].count
    ensures var e := TopLocationEntries(rs, n);
      n > 0 && rs != [] ==> |e| > 0 && forall r :: r in rs ==> Occurrences(rs, r.parkingLocation) <= e[0].count
  {
    SortedCountsSpec(rs);
    TopOfSorted(rs, SortBy(LocationCounts(rs), CountBefore), n);
  }

  /** The facts of `TopLocationEntriesSpec`, for any count list sorted by count. */
  lemma TopOfSorted(rs: seq<ParkingRecord>, sorted: seq<LocationCount>, n: nat)
    requires Sorted(sorted, CountBefore)
    requires forall i :: 0 <= i < |sorted| ==> sorted[i].count == Occurrences(rs, sorted[i].location) > 0
    requires DistinctLocations(sorted)
    requires forall r :: r in rs ==> exists q :: 0 <= q < |sorted| && sorted[q].location == r.parkingLocation
    ensures var e := Take(sorted, n); |e| == if n < |sorted| then n else |sorted|
    ensures var e := Take(sorted, n);
      forall i, j :: 0 <= i < j < |e| ==> e[i].count >= e[j].count
    ensures var e := Take(sorted, n);
      forall i :: 0 <= i < |e| ==> e[i].count == Occurrences(rs, e[i].location) > 0
    ensures DistinctLocations(Take(sorted, n))
    ensures var e := Take(sorted, n);
      n > 0 ==> forall r :: r in rs ==>
        || (exists i :: 0 <= i < |e| && e[i].location == r.parkingLocation)
        || Occurrences(rs, r.parkingLocation) <= e[|e| - 1].count
    ensures var e := Take(sorted, n);
      n > 0 && rs != [] ==> |e| > 0 && forall r :: r in rs ==> Occurrences(rs, r.parkingLocation) <= e[0].count
  {
    var e := Take(sorted, n);
    assert e == sorted[..|e|];
    forall i, j | 0 <= i < j < |e| ensures e[i].count >= e[j].count {
      assert !CountBefore(sorted[j], sorted[i]);
    }
    forall r | r in rs
      ensures n > 0 ==>
        || (exists i :: 0 <= i < |e| && e[i].location == r.parkingLocation)
        || Occurrences(rs, r.parkingLocation) <= e[|e| - 1].count
      ensures n > 0 ==> |e| > 0 && Occurrences(rs, r.parkingLocation) <= e[0].count
    {
      var q :| 0 <= q < |sorted| && sorted[q].location == r.parkingLocation;
      if n > 0 && q >= |e| {
        assert !CountBefore(sorted[q], sorted[|e| - 1]);
      }
      if n > 0 && q > 0 {
        assert !CountBefore(sorted[q], sorted[0]);
      }
    }
  }

  /** `${location} (${num}건)` */
  function FormatLocation(e: LocationCount): string {
    e.location + " (" + NatToString(e.count) + "건)"
  }

  function FormatLocations(es: seq<LocationCount>): (r: seq<string>)
    ensures |r| == |es|
  {
    seq(|es|, i requires 0 <= i < |es| => FormatLocation(es[i]))
  }

  /** The text `getTopParkingLocationsHelper(rs, n)` returns. */
  function TopLocationsLabel(rs: seq<ParkingRecord>, n: nat): string {
    if rs == [] then NoData else Join(FormatLocations(TopLocationEntries(rs, n)), ", ")
  }

  /**
   * The text is the no-data sentinel exactly when there are no records; with `n == 1` it is the
   * single most used location with its count.
   */
  lemma TopLocationsLabelSpec(rs: seq<ParkingRecord>, n: nat)
    ensures TopLocationsLabel(rs, n) == NoData <==> rs == []
    ensures n == 1 && rs != [] ==>
      && |TopLocationEntries(rs, 1)| == 1
      && TopLocationsLabel(rs, n) == FormatLocation(TopLocationEntries(rs, 1)[0])
  {
    if rs != [] {
      var parts := FormatLocations(TopLocationEntries(rs, n));
      var text := TopLocationsLabel(rs, n);
      TopLocationEntriesSpec(rs, n);
      if parts != [] {
        var last := parts[|parts| - 1];
        JoinEndsWithLast(parts, ", ");
        assert last[|last| - 1] == ')';
        assert text[|text| - 1] == last[|last| - 1];
        assert NoData[|NoData| - 1] != ')';
      } else {
        assert |text| != |NoData|;
      }
      if n == 1 {
        TopLocationEntriesSpec(rs, 1);
      }
    }
  }

  /** `getTopParkingLocationsHelper`: the counting reduce as a loop, then sort, slice and format. */
  method GetTopParkingLocations(records: seq<ParkingRecord>, count: nat) returns (text: string)
    ensures text == TopLocationsLabel(records, count)
    ensures text == NoData <==> records == []
  {
    if |records| == 0 {
      return NoData;
    }
    var counts: seq<LocationCount> := [];
    for n := 0 to |records|
      invariant counts == LocationCounts(records[..n])
    {
      var loc := records[n].parkingLocation;
      var i := FindLocation(counts, loc);
      if i < 0 {
        counts := counts + [LocationCount(loc, 1)];
      } else {
        counts := counts[i := counts[i].(count := counts[i].count + 1)];
      }
      assert records[..n + 1][..n] == records[..n];
    }
    assert records[..|records|] == records;
    text := Join(FormatLocations(Take(SortBy(counts, CountBefore), count)), ", ");
    TopLocationsLabelSpec(records, count);
  }

  /** `formatCurrency`: the amount with `ko-KR` digit grouping, followed by 원. */
  function FormatCurrency(amount: int): string {
    (if amount < 0 then "-" + GroupedNatToString(-amount) else GroupedNatToString(amount)) + "원"
  }

  /** Comparator `(a, b) => b.totalFee - a.totalFee`: a larger total comes first. */
  function FeeBefore(a: GroupTotal, b: GroupTotal): bool {
    a.totalFee > b.totalFee
  }

  /** `Object.values(totals).sort(...).slice(0, n)` */
  function TopParkersByFee(totals: seq<GroupTotal>, n: nat): seq<GroupTotal> {
    Take(SortBy(totals, FeeBefore), n)
  }

  /** `${item.name} (${formatCurrency(item.totalFee)})` */
  function FormatParker(g: GroupTotal): string {
    g.name + " (" + FormatCurrency(g.totalFee) + ")"
  }

  /** The text `getTopParkersByFee(totals, n)` returns; `n` defaults to three, as in the source. */
  function TopParkersLabel(totals: seq<GroupTotal>, n: nat := DefaultTopParkers): string {
    var top := TopParkersByFee(totals, n);
    Join(seq(|top|, i requires 0 <= i < |top| => FormatParker(top[i])), ", ")
  }

  /**
   * The text is empty exactly when no group is asked for or there is none; otherwise it starts
   * with the entry of a group whose total is the largest.
   */
  lemma TopParkersLabelSpec(totals: seq<GroupTotal>, n: nat)
    ensures TopParkersLabel(totals, n) == "" <==> n == 0 || totals == []
    ensures n > 0 && totals != [] ==>
      exists g :: g in totals && (forall h :: h in totals ==> h.totalFee <= g.totalFee)
        && FormatParker(g) <= TopParkersLabel(totals, n)
  {
    var t := TopParkersByFee(totals, n);
    TopParkersByFeeSpec(totals, n);
    if n > 0 && totals != [] {
      var parts := seq(|t|, i requires 0 <= i < |t| => FormatParker(t[i]));
      JoinStartsWithFirst(parts, ", ");
      assert |FormatParker(t[0])| > 0;
      assert t[0] in multiset(totals);
      forall h | h in totals ensures h.totalFee <= t[0].totalFee {
        if h !in t {
          assert h.totalFee <= t[|t| - 1].totalFee;
        }
      }
    }
  }

  /**
   * The first `n` groups by total, largest first: as many as there are groups up to `n`, drawn
   * from the groups without repetition, and every group left out has a total no larger than the
   * last one reported.
   */
  lemma TopParkersByFeeSpec(totals: seq<GroupTotal>, n: nat)
    ensures var t := TopParkersByFee(totals, n); |t| == if n < |totals| then n else |totals|
    ensures var t := TopParkersByFee(totals, n);
      forall i, j :: 0 <= i < j < |t| ==> t[i].totalFee >= t[j].totalFee
    ensures multiset(TopParkersByFee(totals, n)) <= multiset(totals)
    ensures var t := TopParkersByFee(totals, n);
      n > 0 ==> forall g :: g in totals ==> g in t || g.totalFee <= t[|t| - 1].totalFee
  {
    SortBySorted(totals, FeeBefore);
    TopOfSortedFees(totals, SortBy(totals, FeeBefore), n);
  }

  lemma TopOfSortedFees(totals: seq<GroupTotal>, sorted: seq<GroupTotal>, n: nat)
    requires Sorted(sorted, FeeBefore) && multiset(sorted) == multiset(totals)
    ensures var t := Take(sorted, n); |t| == if n < |totals| then n else |totals|
    ensures var t := Take(sorted, n);
      forall i, j :: 0 <= i < j < |t| ==> t[i].totalFee >= t[j].totalFee
    ensures multiset(Take(sorted, n)) <= multiset(totals)
    ensures var t := Take(sorted, n);
      n > 0 ==> forall g :: g in totals ==> g in t || g.totalFee <= t[|t| - 1].totalFee
  {
    assert |sorted| == |multiset(sorted)| == |totals|;
    TakeOfSortedFees(sorted, n);
    if n > 0 {
      forall g | g in totals ensures g in Take(sorted, n) || g.totalFee <= Take(sorted, n)[|Take(sorted, n)| - 1].totalFee {
        assert g in multiset(sorted);
        FeeBelowCut(sorted, n, g);
      }
    }
  }

  /** A prefix of a list sorted by fee is a sub-multiset with fees non-increasing. */
  lemma TakeOfSortedFees(sorted: seq<GroupTotal>, n: nat)
    requires Sorted(sorted, FeeBefore)
    ensures var t := Take(sorted, n);
      forall i, j :: 0 <= i < j < |t| ==> t[i].totalFee >= t[j].totalFee
    ensures multiset(Take(sorted, n)) <= multiset(sorted)
  {
    var t := Take(sorted, n);
    assert sorted == t + sorted[|t|..];
    forall i, j | 0 <= i < j < |t| ensures t[i].totalFee >= t[j].totalFee {
      assert !FeeBefore(sorted[j], sorted[i]);
    }
  }

  /** In a list sorted by fee, an element past the first `n` has at most the fee of the `n`-th. */
  lemma FeeBelowCut(sorted: seq<GroupTotal>, n: nat, g: GroupTotal)
    requires Sorted(sorted, FeeBefore) && n > 0 && g in sorted
    ensures g in Take(sorted, n) || g.totalFee <= Take(sorted, n)[|Take(sorted, n)| - 1].totalFee
  {
    var t := Take(sorted, n);
    var q :| 0 <= q < |sorted| && sorted[q] == g;
    if q >= |t| {
      assert !FeeBefore(sorted[q], sorted[|t| - 1]);
    } else {
      assert t[q] == g;
    }
  }


}
