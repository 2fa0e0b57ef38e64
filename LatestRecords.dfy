/**
 * The entry form's memory of every person's most recent record, which feeds the autocomplete:
 * built once from all stored records (App.js:208-215) and updated after each save
 * (App.js:353-361). The object keyed by name is an association list of its own properties, in
 * insertion order; a name that is a member of `Object.prototype` is never stored, because the
 * lookup finds the inherited member and its time, `new Date(undefined)`, compares as NaN.
 */
module LatestRecords {
  import opened Wrappers
  import opened Lists
  import opened Records

  /**
   * The instant a record is compared by: its `createdAt`, otherwise its parking date. This is
   * the intended reading of `new Date(r.createdAt?.toDate() || r.parkingDate)`; see
   * `EffectiveTimeAsWritten` for what that expression does with a plain Date.
   */
  function EffectiveTime(r: ParkingRecord): int {
    match r.createdAt
    case Absent => r.parkingDate.millis
    case StoreTimestamp(m) => m
    case LocalDate(m) => m
  }

  /**
   * The expression as written: `toDate` exists only on the store's timestamps, so on a plain
   * Date `createdAt?.toDate()` throws a TypeError (None).
   */
  function EffectiveTimeAsWritten(r: ParkingRecord): (t: Option<int>)
    ensures !r.createdAt.LocalDate? ==> t == Some(EffectiveTime(r))
    ensures r.createdAt.LocalDate? ==> t == None
  {
    match r.createdAt
    case Absent => Some(r.parkingDate.millis)
    case StoreTimestamp(m) => Some(m)
    case LocalDate(_) => None
  }

  /** The index of the entry for `name`, or -1: the lookup `latestUserRecords[name]`. */
  function FindName(latest: seq<ParkingRecord>, name: string): (i: int)
    ensures -1 <= i < |latest|
    ensures 0 <= i ==> latest[i].name == name
    ensures i == -1 <==> forall j :: 0 <= j < |latest| ==> latest[j].name != name
  {
    if latest == [] then -1
    else if latest[0].name == name then 0
    else
      var j := FindName(latest[1..], name);
      if j < 0 then -1 else j + 1
  }

  predicate DistinctNames(latest: seq<ParkingRecord>) {
    forall i, j :: 0 <= i < j < |latest| ==> latest[i].name != latest[j].name
  }

  function Names(rs: seq<ParkingRecord>): (ns: seq<string>)
    ensures |ns| == |rs|
  {
    seq(|rs|, i requires 0 <= i < |rs| => rs[i].name)
  }

  /**
   * One step of the loop: store the record when its name has no entry or it is strictly later.
   * A name without an entry of its own that is an inherited member finds that member instead, and
   * the comparison with its NaN time fails.
   */
  function KeepLatest(latest: seq<ParkingRecord>, r: ParkingRecord): seq<ParkingRecord> {
    var i := FindName(latest, r.name);
    if i < 0 then (if InheritedKey(r.name) then latest else latest + [r])
    else if EffectiveTime(r) > EffectiveTime(latest[i]) then latest[i := r]
    else latest
  }

  /** `Object.values(latestUserRecords)` after the loop over `rs`. */
  function LatestPerName(rs: seq<ParkingRecord>): seq<ParkingRecord> {
    if rs == [] then [] else KeepLatest(LatestPerName(rs[..|rs| - 1]), rs[|rs| - 1])
  }

  /**
   * `rs[j]` is the record the loop keeps for its name: no record of that name is later, and every
   * earlier record of that name is strictly earlier (a tie keeps the first one seen).
   */
  ghost predicate IsFirstLatest(rs: seq<ParkingRecord>, j: int) {
    && 0 <= j < |rs|
    && (forall i :: 0 <= i < |rs| && rs[i].name == rs[j].name ==> EffectiveTime(rs[i]) <= EffectiveTime(rs[j]))
    && (forall i :: 0 <= i < j && rs[i].name == rs[j].name ==> EffectiveTime(rs[i]) < EffectiveTime(rs[j]))
  }

  /**
   * The position in `rs` of the record kept for `name` so far, or -1 while none has that name or
   * the name is an inherited member.
   */
  ghost function KeptIndex(rs: seq<ParkingRecord>, name: string): (j: int)
    ensures -1 <= j < |rs|
    ensures 0 <= j ==> rs[j].name == name
  {
    if rs == [] then -1
    else
      var j := KeptIndex(rs[..|rs| - 1], name);
      var x := rs[|rs| - 1];
      if x.name == name && !InheritedKey(name) && (j < 0 || EffectiveTime(x) > EffectiveTime(rs[j]))
      then |rs| - 1 else j
  }

  /** A record kept so far stays kept when a record that is not later for its name arrives. */
  lemma WitnessPersists(rs: seq<ParkingRecord>, x: ParkingRecord, j: int)
    requires IsFirstLatest(rs, j)
    requires rs[j].name != x.name || EffectiveTime(x) <= EffectiveTime(rs[j])
    ensures IsFirstLatest(rs + [x], j)
  {
    var rs' := rs + [x];
    assert forall i :: 0 <= i < |rs| ==> rs'[i] == rs[i];
    assert rs'[|rs|] == x;
  }

  /** A record strictly later than the kept one for its name becomes the kept one. */
  lemma LaterIsFirstLatest(rs: seq<ParkingRecord>, x: ParkingRecord, j: int)
    requires IsFirstLatest(rs, j) && rs[j].name == x.name
    requires EffectiveTime(x) > EffectiveTime(rs[j])
    ensures IsFirstLatest(rs + [x], |rs|)
  {
    var rs' := rs + [x];
    forall m | 0 <= m < |rs| && rs'[m].name == x.name ensures EffectiveTime(rs'[m]) < EffectiveTime(x) {
      assert rs'[m] == rs[m];
    }
  }

  /** The first record of a name is kept. */
  lemma NewIsFirstLatest(rs: seq<ParkingRecord>, x: ParkingRecord)
    requires x.name !in Names(rs)
    ensures IsFirstLatest(rs + [x], |rs|)
  {
    var rs' := rs + [x];
    forall m | 0 <= m < |rs| ensures rs'[m].name != x.name {
      assert rs'[m].name == Names(rs)[m];
    }
  }

  /**
   * A name has a kept record exactly when some record has it and it is not an inherited member,
   * and that record is the first latest.
   */
  lemma {:induction false} KeptIndexSpec(rs: seq<ParkingRecord>, name: string)
    ensures KeptIndex(rs, name) >= 0 <==> name in Names(rs) && !InheritedKey(name)
    ensures KeptIndex(rs, name) >= 0 ==> IsFirstLatest(rs, KeptIndex(rs, name))
  {
    if rs != [] {
      var p, x := rs[..|rs| - 1], rs[|rs| - 1];
      KeptIndexSpec(p, name);
      assert rs == p + [x];
      assert Names(rs) == Names(p) + [x.name];
      var j := KeptIndex(p, name);
      if x.name == name && InheritedKey(name) {
      } else if x.name == name && j < 0 {
        NewIsFirstLatest(p, x);
      } else if x.name == name && EffectiveTime(x) > EffectiveTime(p[j]) {
        LaterIsFirstLatest(p, x, j);
      } else if j >= 0 {
        WitnessPersists(p, x, j);
      }
    }
  }

  /** Every name of `rs` that is not an inherited member has an entry in `latest`. */
  predicate AllNamesFound(rs: seq<ParkingRecord>, latest: seq<ParkingRecord>) {
    forall i :: 0 <= i < |rs| && !InheritedKey(rs[i].name) ==> FindName(latest, rs[i].name) >= 0
  }

  /** Every entry of `latest` is the record kept so far for its name. */
  ghost predicate EntriesKept(rs: seq<ParkingRecord>, latest: seq<ParkingRecord>) {
    forall k :: 0 <= k < |latest| ==>
      KeptIndex(rs, latest[k].name) >= 0 && latest[k] == rs[KeptIndex(rs, latest[k].name)]
  }

  /** The invariant of the loop over `rs`, for an association list `latest`. */
  ghost predicate LatestOf(rs: seq<ParkingRecord>, latest: seq<ParkingRecord>) {
    DistinctNames(latest) && EntriesKept(rs, latest) && AllNamesFound(rs, latest)
  }

  /** What one more record does to the kept index of a name. */
  lemma KeptIndexStep(rs: seq<ParkingRecord>, x: ParkingRecord, name: string)
    ensures var j := KeptIndex(rs, name);
      KeptIndex(rs + [x], name) ==
        if x.name == name && !InheritedKey(name) && (j < 0 || EffectiveTime(x) > EffectiveTime(rs[j]))
        then |rs| else j
  {
    assert (rs + [x])[..|rs|] == rs;
  }

  /** The loop step keeps the invariant, with the new record at the end of the list. */
  lemma KeepLatestStep(rs: seq<ParkingRecord>, latest: seq<ParkingRecord>, x: ParkingRecord)
    requires LatestOf(rs, latest)
    ensures LatestOf(rs + [x], KeepLatest(latest, x))
  {
    DistinctStep(latest, x);
    EntriesStep(rs, latest, x);
    NamesStep(rs, latest, x);
  }

  lemma DistinctStep(latest: seq<ParkingRecord>, x: ParkingRecord)
    requires DistinctNames(latest)
    ensures DistinctNames(KeepLatest(latest, x))
  {
  }

  lemma EntriesStep(rs: seq<ParkingRecord>, latest: seq<ParkingRecord>, x: ParkingRecord)
    requires LatestOf(rs, latest)
    ensures EntriesKept(rs + [x], KeepLatest(latest, x))
  {
    var rs', l' := rs + [x], KeepLatest(latest, x);
    var i := FindName(latest, x.name);
    KeptIndexStep(rs, x, x.name);
    KeptIndexSpec(rs, x.name);
    if i < 0 && !InheritedKey(x.name) {
      NewNameUnseen(rs, latest, x.name);
    }
    forall k | 0 <= k < |l'|
      ensures KeptIndex(rs', l'[k].name) >= 0 && l'[k] == rs'[KeptIndex(rs', l'[k].name)]
    {
      KeptIndexStep(rs, x, l'[k].name);
      if k < |latest| && k != i {
        assert l'[k] == latest[k];
        assert rs'[KeptIndex(rs, latest[k].name)] == rs[KeptIndex(rs, latest[k].name)];
      }
    }
  }

  /** A name without an entry belongs to no record seen so far. */
  lemma NewNameUnseen(rs: seq<ParkingRecord>, latest: seq<ParkingRecord>, name: string)
    requires AllNamesFound(rs, latest) && FindName(latest, name) < 0 && !InheritedKey(name)
    ensures name !in Names(rs)
  {
    forall m | 0 <= m < |rs| ensures Names(rs)[m] != name {
      if rs[m].name == name {
        assert FindName(latest, rs[m].name) >= 0;
      }
    }
  }

  lemma NamesStep(rs: seq<ParkingRecord>, latest: seq<ParkingRecord>, x: ParkingRecord)
    requires AllNamesFound(rs, latest)
    ensures AllNamesFound(rs + [x], KeepLatest(latest, x))
  {
    var rs', l' := rs + [x], KeepLatest(latest, x);
    var i := FindName(latest, x.name);
    forall m | 0 <= m < |rs'| && !InheritedKey(rs'[m].name) ensures FindName(l', rs'[m].name) >= 0 {
      if m < |rs| {
        var k := FindName(latest, rs[m].name);
        assert l'[k].name == rs'[m].name;
      } else if i < 0 {
        assert l'[|latest|].name == x.name;
      } else {
        assert l'[i].name == x.name;
      }
    }
  }

  lemma {:induction false} LatestPerNameInvariant(rs: seq<ParkingRecord>)
    ensures LatestOf(rs, LatestPerName(rs))
  {
    if rs != [] {
      var p, x := rs[..|rs| - 1], rs[|rs| - 1];
      assert p + [x] == rs;
      assert LatestPerName(rs) == KeepLatest(LatestPerName(p), x);
      LatestPerNameInvariant(p);
      KeepLatestStep(p, LatestPerName(p), x);
    }
  }

  /**
   * At most one record per name; an input name is present exactly when it is not an inherited
   * member; and each kept record is the input record with the greatest effective time for its
   * name, the first one seen on a tie.
   */
  lemma LatestPerNameSpec(rs: seq<ParkingRecord>)
    ensures DistinctNames(LatestPerName(rs))
    ensures forall r :: r in rs ==> (r.name in Names(LatestPerName(rs)) <==> !InheritedKey(r.name))
    ensures forall k :: 0 <= k < |LatestPerName(rs)| ==>
      exists j :: IsFirstLatest(rs, j) && rs[j] == LatestPerName(rs)[k]
  {
    var l := LatestPerName(rs);
    LatestPerNameInvariant(rs);
    forall r | r in rs ensures r.name in Names(l) <==> !InheritedKey(r.name) {
      var m :| 0 <= m < |rs| && rs[m] == r;
      if InheritedKey(r.name) {
        StoredNotInherited(rs, l, r.name);
      } else {
        assert Names(l)[FindName(l, rs[m].name)] == r.name;
      }
    }
    forall k | 0 <= k < |l| ensures exists j :: IsFirstLatest(rs, j) && rs[j] == l[k] {
      KeptIndexSpec(rs, l[k].name);
    }
  }

  /** No entry of the invariant carries an inherited member's name. */
  lemma StoredNotInherited(rs: seq<ParkingRecord>, l: seq<ParkingRecord>, name: string)
    requires LatestOf(rs, l) && InheritedKey(name)
    ensures name !in Names(l)
  {
    KeptIndexSpec(rs, name);
    forall k | 0 <= k < |l| ensures Names(l)[k] != name {
      assert KeptIndex(rs, l[k].name) >= 0;
    }
  }

  /** The names of `rs` that can become own properties, in record order. */
  function OwnNames(rs: seq<ParkingRecord>): (ns: seq<string>)
    ensures forall n :: n in ns <==> n in Names(rs) && !InheritedKey(n)
  {
    if rs == [] then []
    else
      var p, x := rs[..|rs| - 1], rs[|rs| - 1];
      assert Names(rs) == Names(p) + [x.name];
      OwnNames(p) + (if InheritedKey(x.name) then [] else [x.name])
  }

  /**
   * The names come out in the order in which each name was first seen, leaving out the names of
   * inherited members.
   */
  lemma {:induction false} LatestPerNameOrder(rs: seq<ParkingRecord>)
    ensures Names(LatestPerName(rs)) == Dedup(OwnNames(rs))
  {
    if rs != [] {
      var p, x := rs[..|rs| - 1], rs[|rs| - 1];
      assert p + [x] == rs;
      assert LatestPerName(rs) == KeepLatest(LatestPerName(p), x);
      var l := LatestPerName(p);
      LatestPerNameOrder(p);
      LatestPerNameInvariant(p);
      OrderStep(p, l, x);
      if InheritedKey(x.name) {
        assert OwnNames(rs) == OwnNames(p);
        assert Names(KeepLatest(l, x)) == Names(l) + [];
      } else {
        assert OwnNames(rs) == OwnNames(p) + [x.name];
        DedupSnoc(OwnNames(p), x.name);
        assert x.name in OwnNames(p) <==> x.name in Names(p);
      }
    }
  }

  lemma OrderStep(p: seq<ParkingRecord>, l: seq<ParkingRecord>, x: ParkingRecord)
    requires LatestOf(p, l)
    ensures Names(KeepLatest(l, x)) ==
      Names(l) + (if x.name in Names(p) || InheritedKey(x.name) then [] else [x.name])
  {
    var i := FindName(l, x.name);
    if i < 0 && InheritedKey(x.name) {
    } else if i < 0 {
      NewNameUnseen(p, l, x.name);
      assert Names(l + [x]) == Names(l) + [x.name];
    } else {
      KeptIndexSpec(p, x.name);
      assert Names(l[i := x]) == Names(l);
    }
  }

  /**
   * The loop at App.js:208-214 over all fetched records. Records read from the store carry no
   * plain Date as `createdAt` (on one, `toDate` would throw).
   */
  method LoadLatestUserRecords(records: seq<ParkingRecord>) returns (latest: seq<ParkingRecord>)
    requires forall i :: 0 <= i < |records| ==> !records[i].createdAt.LocalDate?
    ensures latest == LatestPerName(records)
    ensures DistinctNames(latest)
  {
    latest := [];
    for n := 0 to |records|
      invariant latest == LatestPerName(records[..n])
    {
      var record := records[n];
      var i := FindName(latest, record.name);
      if i < 0 {
        // an inherited member is found instead of an own entry; its NaN time never compares as earlier
        if !InheritedKey(record.name) {
          latest := latest + [record];
        }
      } else if EffectiveTime(record) > EffectiveTime(latest[i]) {
        latest := latest[i := record];
      }
      assert records[..n + 1][..n] == records[..n];
    }
    assert records[..|records|] == records;
    LatestPerNameSpec(records);
  }

  // ---- After a save ----

  /** `{...acc, [rec.name]: rec}`: set the entry for the record's name, keeping its position. */
  function Put(acc: seq<ParkingRecord>, r: ParkingRecord): seq<ParkingRecord> {
    var i := FindName(acc, r.name);
    if i < 0 then acc + [r] else acc[i := r]
  }

  /** `prevRecords.reduce((acc, rec) => ({...acc, [rec.name]: rec}), {})` */
  function Rebuild(prev: seq<ParkingRecord>): seq<ParkingRecord> {
    if prev == [] then [] else Put(Rebuild(prev[..|prev| - 1]), prev[|prev| - 1])
  }

  /** Rebuilding a list that holds each name once gives the same list back. */
  lemma {:induction false} RebuildDistinct(prev: seq<ParkingRecord>)
    requires DistinctNames(prev)
    ensures Rebuild(prev) == prev
  {
    if prev != [] {
      var p, x := prev[..|prev| - 1], prev[|prev| - 1];
      DistinctInit(prev, p, x);
      RebuildDistinct(p);
      assert Rebuild(prev) == Put(p, x) == p + [x];
    }
  }

  /** Dropping the last record of a list with distinct names keeps the names distinct, and the last name is not among the rest. */
  lemma DistinctInit(prev: seq<ParkingRecord>, p: seq<ParkingRecord>, x: ParkingRecord)
    requires DistinctNames(prev) && prev == p + [x]
    ensures DistinctNames(p) && FindName(p, x.name) == -1
  {
    forall j | 0 <= j < |p| ensures p[j].name != x.name {
      assert p[j] == prev[j] && x == prev[|p|];
    }
    forall i, j | 0 <= i < j < |p| ensures p[i].name != p[j].name {
      assert p[i] == prev[i] && p[j] == prev[j];
    }
  }

  /** The in-session copy of a saved record: `{ ...newRecord, createdAt: new Date() }`. */
  function SavedCopy(newRecord: ParkingRecord, now: int): (u: ParkingRecord)
    ensures EffectiveTime(u) == now && u.name == newRecord.name
  {
    newRecord.(createdAt := LocalDate(now))
  }

  /** The state update at App.js:354-360, with the time comparison as intended. */
  function AfterSave(prev: seq<ParkingRecord>, u: ParkingRecord): seq<ParkingRecord> {
    KeepLatest(Rebuild(prev), u)
  }

  /**
   * The update after a save agrees with running the initial loop over every record seen so far:
   * the saved record joins the records, and the list stays one record per name.
   */
  lemma AfterSaveIsIncremental(rs: seq<ParkingRecord>, u: ParkingRecord)
    ensures AfterSave(LatestPerName(rs), u) == LatestPerName(rs + [u])
    ensures DistinctNames(AfterSave(LatestPerName(rs), u))
  {
    LatestPerNameSpec(rs);
    RebuildDistinct(LatestPerName(rs));
    assert (rs + [u])[..|rs|] == rs;
    LatestPerNameSpec(rs + [u]);
  }

  /**
   * The state update as written: the existing entry's time is read through `toDate`, which a
   * plain Date lacks (None: the update throws).
   */
  function AfterSaveAsWritten(prev: seq<ParkingRecord>, u: ParkingRecord): Option<seq<ParkingRecord>>
    requires u.createdAt.LocalDate?
  {
    var latest := Rebuild(prev);
    var i := FindName(latest, u.name);
    if i < 0 then (if InheritedKey(u.name) then Some(latest) else Some(latest + [u]))
    else
      match EffectiveTimeAsWritten(latest[i])
      case None => None
      case Some(t) => if u.createdAt.millis > t then Some(latest[i := u]) else Some(latest)
  }

  /** Where no kept record is an in-session copy, the update as written is the intended one. */
  lemma AfterSaveAgrees(prev: seq<ParkingRecord>, u: ParkingRecord)
    requires u.createdAt.LocalDate?
    requires forall i :: 0 <= i < |prev| ==> !prev[i].createdAt.LocalDate?
    ensures AfterSaveAsWritten(prev, u) == Some(AfterSave(prev, u))
  {
    RebuildFrom(prev);
  }

  /** Every entry of a rebuilt list is one of the records it was built from. */
  lemma {:induction false} RebuildFrom(prev: seq<ParkingRecord>)
    ensures forall k :: 0 <= k < |Rebuild(prev)| ==> Rebuild(prev)[k] in prev
  {
    if prev != [] {
      RebuildFrom(prev[..|prev| - 1]);
    }
  }

  /**
   * Two saves under one name in one session: the first save puts an in-session copy into the
   * list, and the second save's update then reads that copy's time through `toDate` and throws.
   */
  lemma SecondSaveThrows(r1: ParkingRecord, r2: ParkingRecord, t1: int, t2: int)
    requires r1.name == r2.name && !InheritedKey(r1.name)
    ensures AfterSaveAsWritten([], SavedCopy(r1, t1)) == Some([SavedCopy(r1, t1)])
    ensures AfterSaveAsWritten([SavedCopy(r1, t1)], SavedCopy(r2, t2)) == None
    ensures t2 > t1 ==> AfterSave([SavedCopy(r1, t1)], SavedCopy(r2, t2)) == [SavedCopy(r2, t2)]
  {
    var u1 := SavedCopy(r1, t1);
    assert Rebuild([u1]) == [u1] by {
      assert [u1][..0] == [];
    }
  }
}
