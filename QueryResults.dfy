/**
 * The query page's handling of fetched records: the result ordering and the summary computed by
 * `handleSearch` (App.js:694-721), and the recomputation after a delete in `confirmDelete`
 * (App.js:744-770). The fetch and the delete in the store are not part of this model; the fetched
 * records and the success of the delete are given.
 */
module QueryResults {
  import opened Wrappers
  import opened Strings
  import opened Lists
  import opened Records
  import opened FeeTotals
  import opened TopStats

  /** The comparator at App.js:694-698: name ascending, then the later parking date first. */
  predicate ResultBefore(a: ParkingRecord, b: ParkingRecord) {
    || StrLess(a.name, b.name)
    || (a.name == b.name && a.parkingDate.millis > b.parkingDate.millis)
  }

  lemma ResultOrderStrict()
    ensures StrictOrder(ResultBefore)
  {
    forall a: ParkingRecord ensures !ResultBefore(a, a) {
      StrLessIrreflexive(a.name);
    }
    forall a: ParkingRecord, b: ParkingRecord, c: ParkingRecord | ResultBefore(a, b) && ResultBefore(b, c)
      ensures ResultBefore(a, c)
    {
      if StrLess(a.name, b.name) && StrLess(b.name, c.name) {
        StrLessTransitive(a.name, b.name, c.name);
      }
    }
  }

  /** `[...fetchedRecords].sort(...)`: a stable sort with that comparator. */
  function SortResults(fetched: seq<ParkingRecord>): seq<ParkingRecord> {
    SortBy(fetched, ResultBefore)
  }

  /**
   * The sorted results are the fetched records rearranged, by name ascending, and records with
   * the same name come latest parking date first.
   */
  lemma SortResultsSpec(fetched: seq<ParkingRecord>)
    ensures multiset(SortResults(fetched)) == multiset(fetched)
    ensures var s := SortResults(fetched);
      forall i, j :: 0 <= i < j < |s| ==> s[i].name == s[j].name || StrLess(s[i].name, s[j].name)
    ensures var s := SortResults(fetched);
      forall i, j :: 0 <= i < j < |s| && s[i].name == s[j].name ==>
        s[i].parkingDate.millis >= s[j].parkingDate.millis
  {
    var s := SortResults(fetched);
    ResultOrderStrict();
    SortBySorted(fetched, ResultBefore);
    forall i, j | 0 <= i < j < |s| ensures s[i].name == s[j].name || StrLess(s[i].name, s[j].name) {
      assert !ResultBefore(s[j], s[i]);
      if s[i].name != s[j].name {
        StrLessTotal(s[i].name, s[j].name);
      }
    }
  }

  /** The client-side filters: `r.id !== id` (App.js:748), `r.id === id`, and `r.name === name` (App.js:717). */
  datatype Criterion = IdIsNot(id: string) | IdIs(id: string) | NameIs(name: string)

  predicate Keeps(c: Criterion, r: ParkingRecord) {
    match c
    case IdIsNot(id) => r.id != id
    case IdIs(id) => r.id == id
    case NameIs(n) => r.name == n
  }

  /** `rs.filter(...)`: the records that meet `c`, in their order. */
  function Filter(rs: seq<ParkingRecord>, c: Criterion): (kept: seq<ParkingRecord>)
    ensures |kept| <= |rs|
    ensures forall i :: 0 <= i < |kept| ==> Keeps(c, kept[i])
  {
    if rs == [] then []
    else Filter(rs[..|rs| - 1], c) + (if Keeps(c, rs[|rs| - 1]) then [rs[|rs| - 1]] else [])
  }

  /** A record is kept exactly when it is in the list and meets the criterion. */
  lemma {:induction false} FilterMembers(rs: seq<ParkingRecord>, c: Criterion)
    ensures forall x :: x in Filter(rs, c) <==> x in rs && Keeps(c, x)
  {
    if rs != [] {
      var p, x := rs[..|rs| - 1], rs[|rs| - 1];
      FilterMembers(p, c);
      assert rs == p + [x];
    }
  }

  /** Filtering works piece by piece: it keeps the order of what it keeps. */
  lemma {:induction false} FilterAppend(a: seq<ParkingRecord>, b: seq<ParkingRecord>, c: Criterion)
    ensures Filter(a + b, c) == Filter(a, c) + Filter(b, c)
  {
    if b == [] {
      assert a + b == a;
    } else {
      var q, y := b[..|b| - 1], b[|b| - 1];
      assert (a + b)[..|a + b| - 1] == a + q;
      assert (a + b)[|a + b| - 1] == y;
      FilterAppend(a, q, c);
      var tail := if Keeps(c, y) then [y] else [];
      assert Filter(a + b, c) == Filter(a + q, c) + tail;
      assert Filter(b, c) == Filter(q, c) + tail;
    }
  }

  /** A list whose every record meets the criterion is left as it is. */
  lemma {:induction false} FilterKeepsAll(rs: seq<ParkingRecord>, c: Criterion)
    requires forall i :: 0 <= i < |rs| ==> Keeps(c, rs[i])
    ensures Filter(rs, c) == rs
  {
    if rs != [] {
      FilterKeepsAll(rs[..|rs| - 1], c);
      assert rs[..|rs| - 1] + [rs[|rs| - 1]] == rs;
    }
  }

  /** Filtering a sorted list leaves it sorted. */
  lemma {:induction false} FilterSorted(rs: seq<ParkingRecord>, c: Criterion, before: (ParkingRecord, ParkingRecord) -> bool)
    requires Sorted(rs, before)
    ensures Sorted(Filter(rs, c), before)
  {
    if rs != [] {
      var p, x := rs[..|rs| - 1], rs[|rs| - 1];
      FilterSorted(p, c, before);
      var f := Filter(p, c);
      FilterMembers(p, c);
      forall i | 0 <= i < |f| ensures !before(x, f[i]) {
        assert f[i] in p;
        var k :| 0 <= k < |p| && p[k] == f[i];
        assert rs[k] == f[i];
      }
    }
  }

  /** Every sum splits into the records without the id and those with it. */
  lemma {:induction false} SumFilterSplit(rs: seq<ParkingRecord>, id: string, w: Weight)
    ensures Sum(rs, w) == Sum(Filter(rs, IdIsNot(id)), w) + Sum(Filter(rs, IdIs(id)), w)
  {
    if rs != [] {
      var p, x := rs[..|rs| - 1], rs[|rs| - 1];
      SumFilterSplit(p, id, w);
      assert Sum([x], w) == Weigh(w, x) by {
        assert [x][..0] == [];
      }
      if x.id == id {
        assert Filter(rs, IdIsNot(id)) == Filter(p, IdIsNot(id));
        assert Filter(rs, IdIs(id)) == Filter(p, IdIs(id)) + [x];
        SumAppend(Filter(p, IdIs(id)), [x], w);
      } else {
        assert Filter(rs, IdIsNot(id)) == Filter(p, IdIsNot(id)) + [x];
        assert Filter(rs, IdIs(id)) == Filter(p, IdIs(id));
        SumAppend(Filter(p, IdIsNot(id)), [x], w);
      }
    }
  }

  /** What the query page shows for a list of results. */
  datatype Summary = Summary(
    results: seq<ParkingRecord>,
    totalFee: int,
    totals: seq<GroupTotal>,
    periodTopLocation: string,
    individualTopLocation: string)

  /** The individual top location: empty without a searched name, else over that name's records. */
  function IndividualTop(rs: seq<ParkingRecord>, searchName: string): (text: string)
    ensures Trim(searchName) == [] ==> text == ""
    ensures Trim(searchName) != [] ==> (text == NoData <==> forall r :: r in rs ==> r.name != Trim(searchName))
  {
    var name := Trim(searchName);
    if name == [] then ""
    else
      FilterMembers(rs, NameIs(name));
      TopLocationsLabelSpec(Filter(rs, NameIs(name)), 1);
      TopLocationsLabel(Filter(rs, NameIs(name)), 1)
  }

  /** Everything the page derives from a result list, computed from scratch. */
  function Recompute(rs: seq<ParkingRecord>, searchName: string): Summary {
    Summary(rs, Sum(rs, AllFees), Tally(rs), TopLocationsLabel(rs, 1), IndividualTop(rs, searchName))
  }

  /**
   * `handleSearch` after the fetch (App.js:694-721): the sorted results, the group totals and the
   * grand total over the fetched records, and the top locations.
   */
  method Search(fetched: seq<ParkingRecord>, searchName: string) returns (s: Summary)
    ensures s.results == SortResults(fetched)
    ensures s.totals == Tally(fetched) && s.totalFee == Sum(fetched, AllFees)
    ensures s.periodTopLocation == TopLocationsLabel(fetched, 1)
    ensures s.individualTopLocation == IndividualTop(fetched, searchName)
    ensures multiset(s.results) == multiset(fetched)
    ensures s.totalFee == SumTotals(s.totals)
    ensures forall r :: r in fetched ==> TotalOf(s.totals, KeyOf(r)) == Sum(fetched, FeesOfKey(KeyOf(r)))
    ensures s.periodTopLocation == NoData <==> fetched == []
  {
    var sorted := SortResults(fetched);
    var totals := ComputeNameAccountTotals(fetched);
    var totalFee := ComputeTotalFee(fetched);
    var period := GetTopParkingLocations(fetched, 1);
    var individual := "";
    var name := Trim(searchName);
    if name != [] {
      individual := GetTopParkingLocations(Filter(fetched, NameIs(name)), 1);
    }
    s := Summary(sorted, totalFee, totals, period, individual);
    SortResultsSpec(fetched);
    TallyTotals(fetched);
  }

  /** Why `confirmDelete` stops before deleting: no record is selected, or the store is not connected. */
  datatype DeleteError = NotReady

  /**
   * `confirmDelete` once the store has deleted the record (App.js:744-770): the results without
   * the record, and every total recomputed over them in one pass.
   */
  method ConfirmDelete(results: seq<ParkingRecord>, itemToDelete: Option<string>, connected: bool, searchName: string)
    returns (r: Result<Summary, DeleteError>)
    ensures itemToDelete == None || itemToDelete == Some("") || !connected ==> r == Err(NotReady)
    ensures itemToDelete != None && itemToDelete != Some("") && connected ==>
      r == Ok(Recompute(Filter(results, IdIsNot(itemToDelete.value)), searchName))
    ensures r.Ok? ==> r.value.totalFee == SumTotals(r.value.totals)
  {
    if itemToDelete == None || itemToDelete == Some("") || !connected {
      return Err(NotReady);
    }
    var id := itemToDelete.value;
    var updated := Filter(results, IdIsNot(id));
    var totalFee := 0;
    var totals: seq<GroupTotal> := [];
    for n := 0 to |updated|
      invariant totals == Tally(updated[..n])
      invariant totalFee == Sum(updated[..n], AllFees)
    {
      var record := updated[n];
      var key := GroupKey(record.name, record.accountInfo);
      var i := FindGroup(totals, key);
      if i < 0 {
        totals := totals + [GroupTotal(key, record.name, record.accountInfo, 0)];
        i := |totals| - 1;
      }
      totals := totals[i := totals[i].(totalFee := totals[i].totalFee + Fee(record))];
      totalFee := totalFee + Fee(record);
      assert updated[..n + 1][..n] == updated[..n];
    }
    assert updated[..|updated|] == updated;
    var period := GetTopParkingLocations(updated, 1);
    var individual := "";
    var name := Trim(searchName);
    if name != [] {
      individual := GetTopParkingLocations(Filter(updated, NameIs(name)), 1);
    }
    r := Ok(Summary(updated, totalFee, totals, period, individual));
    TallyTotals(updated);
  }

  /**
   * Deleting by id keeps every other record in its order, drops every record with that id, and
   * lowers the grand total and each group's total by exactly the fees of the dropped records.
   */
  lemma DeleteRecompute(rs: seq<ParkingRecord>, id: string, searchName: string, k: string)
    ensures var d := Recompute(Filter(rs, IdIsNot(id)), searchName);
      && (forall x :: x in d.results <==> x in rs && x.id != id)
      && d.totalFee == Sum(rs, AllFees) - Sum(Filter(rs, IdIs(id)), AllFees)
      && TotalOf(d.totals, k) == TotalOf(Tally(rs), k) - Sum(Filter(rs, IdIs(id)), FeesOfKey(k))
  {
    var kept := Filter(rs, IdIsNot(id));
    SumFilterSplit(rs, id, AllFees);
    SumFilterSplit(rs, id, FeesOfKey(k));
    TallyTotals(rs);
    TallyTotals(kept);
    FilterMembers(rs, IdIsNot(id));
  }

  /**
   * Deleting the one record that carries an id removes just that record: the rest keep their
   * order, only its group's total drops, by its fee, and a sorted result list stays sorted.
   */
  lemma DeleteOne(a: seq<ParkingRecord>, x: ParkingRecord, b: seq<ParkingRecord>, k: string)
    requires forall i :: 0 <= i < |a| ==> a[i].id != x.id
    requires forall i :: 0 <= i < |b| ==> b[i].id != x.id
    ensures Filter(a + [x] + b, IdIsNot(x.id)) == a + b
    ensures TotalOf(Tally(a + b), k) == TotalOf(Tally(a + [x] + b), k) - (if KeyOf(x) == k then Fee(x) else 0)
    ensures Sum(a + b, AllFees) == Sum(a + [x] + b, AllFees) - Fee(x)
    ensures Sorted(a + [x] + b, ResultBefore) ==> Sorted(a + b, ResultBefore)
  {
    var rs := a + [x] + b;
    FilterOne(a, x, b);
    DeleteRecompute(rs, x.id, "", k);
    SumSingle(x, AllFees);
    SumSingle(x, FeesOfKey(k));
    if Sorted(rs, ResultBefore) {
      FilterSorted(rs, IdIsNot(x.id), ResultBefore);
    }
  }

  /** With one record carrying the id, the two filters split the list around it. */
  lemma FilterOne(a: seq<ParkingRecord>, x: ParkingRecord, b: seq<ParkingRecord>)
    requires forall i :: 0 <= i < |a| ==> a[i].id != x.id
    requires forall i :: 0 <= i < |b| ==> b[i].id != x.id
    ensures Filter(a + [x] + b, IdIsNot(x.id)) == a + b
    ensures Filter(a + [x] + b, IdIs(x.id)) == [x]
  {
    var id := x.id;
    var ax := a + [x];
    FilterSingle(x, IdIsNot(id));
    FilterSingle(x, IdIs(id));
    FilterKeepsAll(a, IdIsNot(id));
    FilterKeepsAll(b, IdIsNot(id));
    FilterNone(a, id);
    FilterNone(b, id);
    FilterAppend(a, [x], IdIsNot(id));
    FilterAppend(a, [x], IdIs(id));
    assert Filter(ax, IdIsNot(id)) == a;
    assert Filter(ax, IdIs(id)) == [x];
    FilterAppend(ax, b, IdIsNot(id));
    FilterAppend(ax, b, IdIs(id));
  }

  lemma FilterSingle(x: ParkingRecord, c: Criterion)
    ensures Filter([x], c) == if Keeps(c, x) then [x] else []
  {
    assert [x][..0] == [];
  }

  lemma SumSingle(x: ParkingRecord, w: Weight)
    ensures Sum([x], w) == Weigh(w, x)
  {
    assert [x][..0] == [];
  }

  lemma {:induction false} FilterNone(rs: seq<ParkingRecord>, id: string)
    requires forall i :: 0 <= i < |rs| ==> rs[i].id != id
    ensures Filter(rs, IdIs(id)) == []
  {
    if rs != [] {
      FilterNone(rs[..|rs| - 1], id);
    }
  }
}
