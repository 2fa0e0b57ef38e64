/**
 * The per-(name, account) fee totals and the grand total of a query (App.js:701-713, and
 * again after a delete at App.js:751-760). The accumulator object is an association list
 * kept in insertion order, which is the order `Object.values` gives back.
 */
module FeeTotals {
  import opened Records
  import opened Strings
  import Lists

  /** `{ name, accountInfo, totalFee }` stored under `key` in the accumulator. */
  datatype GroupTotal = GroupTotal(key: string, name: string, accountInfo: string, totalFee: int)

  /** The accumulator key `${name} | ${accountInfo}`. */
  function GroupKey(name: string, accountInfo: string): string {
    name + " | " + accountInfo
  }

  function KeyOf(r: ParkingRecord): string {
    GroupKey(r.name, r.accountInfo)
  }

  /** Two pairs share a key only if they are equal, provided the names contain no `|`. */
  lemma GroupKeyInjective(n1: string, a1: string, n2: string, a2: string)
    requires '|' !in n1 && '|' !in n2
    requires GroupKey(n1, a1) == GroupKey(n2, a2)
    ensures n1 == n2 && a1 == a2
  {
    var k1, k2 := GroupKey(n1, a1), GroupKey(n2, a2);
    // the first '|' of a key is the one right after the name and its space
    assert k1[..|n1| + 1] == n1 + " " && k1[|n1| + 1] == '|';
    assert k2[..|n2| + 1] == n2 + " " && k2[|n2| + 1] == '|';
    var i := Lists.FirstIndex(k1, '|');
    assert i == |n1| + 1;
    assert i == |n2| + 1;
    assert n1 == k1[..|n1|] && n2 == k2[..|n2|];
    assert a1 == k1[|n1| + 3..] && a2 == k2[|n2| + 3..];
  }

  /** Without that proviso distinct pairs can share one group. */
  lemma GroupKeyCollision()
    ensures GroupKey("a | b", "c") == GroupKey("a", "b | c")
  {
  }

  /** What a record contributes to a sum: its fee, or its fee when it falls under a given key. */
  datatype Weight = AllFees | FeesOfKey(key: string)

  function Weigh(w: Weight, r: ParkingRecord): int {
    match w
    case AllFees => Fee(r)
    case FeesOfKey(k) => if KeyOf(r) == k then Fee(r) else 0
  }

  /** Sum of the weights of the records, left to right. */
  function Sum(rs: seq<ParkingRecord>, w: Weight): int {
    if rs == [] then 0 else Sum(rs[..|rs| - 1], w) + Weigh(w, rs[|rs| - 1])
  }

  lemma {:induction false} SumAppend(a: seq<ParkingRecord>, b: seq<ParkingRecord>, w: Weight)
    ensures Sum(a + b, w) == Sum(a, w) + Sum(b, w)
  {
    if b != [] {
      assert (a + b)[..|a + b| - 1] == a + b[..|b| - 1];
      SumAppend(a, b[..|b| - 1], w);
    } else {
      assert a + b == a;
    }
  }

  /** Sums do not depend on the order of the records. */
  lemma {:induction false} SumPermutation(a: seq<ParkingRecord>, b: seq<ParkingRecord>, w: Weight)
    requires multiset(a) == multiset(b)
    ensures Sum(a, w) == Sum(b, w)
    decreases |a|
  {
    if a != [] {
      var j, q := MatchLast(a, b);
      SumPermutation(a[..|a| - 1], q, w);
      SumRemoveAt(b, j, w);
    }
  }

  /** The last element of `a` sits somewhere in its permutation `b`; without them the rest still match. */
  lemma MatchLast<T>(a: seq<T>, b: seq<T>) returns (j: nat, q: seq<T>)
    requires a != [] && multiset(a) == multiset(b)
    ensures j < |b| && b[j] == a[|a| - 1] && q == b[..j] + b[j + 1..]
    ensures multiset(a[..|a| - 1]) == multiset(q)
  {
    assert a == a[..|a| - 1] + [a[|a| - 1]];
    assert a[|a| - 1] in multiset(b);
    j :| 0 <= j < |b| && b[j] == a[|a| - 1];
    q := b[..j] + b[j + 1..];
    RemoveAtMultiset(b, j);
  }

  lemma RemoveAtMultiset<T>(b: seq<T>, j: nat)
    requires j < |b|
    ensures multiset(b[..j] + b[j + 1..]) == multiset(b) - multiset{b[j]}
  {
    assert b == b[..j] + [b[j]] + b[j + 1..];
  }

  lemma SumRemoveAt(b: seq<ParkingRecord>, j: nat, w: Weight)
    requires j < |b|
    ensures Sum(b, w) == Sum(b[..j] + b[j + 1..], w) + Weigh(w, b[j])
  {
    assert b == b[..j] + [b[j]] + b[j + 1..];
    SumAppend(b[..j] + [b[j]], b[j + 1..], w);
    SumAppend(b[..j], [b[j]], w);
    SumAppend(b[..j], b[j + 1..], w);
    assert [b[j]][..0] == [];
  }

  /** The index of the group under `key`, or -1: the lookup `acc[key]`. */
  function FindGroup(gs: seq<GroupTotal>, key: string): (i: int)
    ensures -1 <= i < |gs|
    ensures 0 <= i ==> gs[i].key == key
    ensures i == -1 <==> forall j :: 0 <= j < |gs| ==> gs[j].key != key
  {
    if gs == [] then -1
    else if gs[0].key == key then 0
    else
      var j := FindGroup(gs[1..], key);
      if j < 0 then -1 else j + 1
  }

  predicate DistinctKeys(gs: seq<GroupTotal>) {
    forall i, j :: 0 <= i < j < |gs| ==> gs[i].key != gs[j].key
  }

  /** The total recorded under `key`; 0 when there is no such group. */
  function TotalOf(gs: seq<GroupTotal>, key: string): int {
    var i := FindGroup(gs, key);
    if i < 0 then 0 else gs[i].totalFee
  }

  function SumTotals(gs: seq<GroupTotal>): int {
    if gs == [] then 0 else SumTotals(gs[..|gs| - 1]) + gs[|gs| - 1].totalFee
  }

  /** One step of the reduce: create the group under the record's key with 0 if needed, then add the fee. */
  function AddRecord(gs: seq<GroupTotal>, r: ParkingRecord): seq<GroupTotal> {
    var i := FindGroup(gs, KeyOf(r));
    if i < 0 then gs + [GroupTotal(KeyOf(r), r.name, r.accountInfo, Fee(r))]
    else gs[i := gs[i].(totalFee := gs[i].totalFee + Fee(r))]
  }

  /** The accumulator after the reduce over `rs`. */
  function Tally(rs: seq<ParkingRecord>): seq<GroupTotal> {
    if rs == [] then [] else AddRecord(Tally(rs[..|rs| - 1]), rs[|rs| - 1])
  }

  /** Adding a record keeps one group per key and raises the grand total by its fee. */
  lemma AddRecordShape(gs: seq<GroupTotal>, r: ParkingRecord)
    requires DistinctKeys(gs)
    ensures DistinctKeys(AddRecord(gs, r))
    ensures SumTotals(AddRecord(gs, r)) == SumTotals(gs) + Fee(r)
  {
    var i := FindGroup(gs, KeyOf(r));
    if i < 0 {
      var g := AddRecord(gs, r);
      assert g[..|g| - 1] == gs;
    } else {
      SumTotalsUpdate(gs, i, gs[i].(totalFee := gs[i].totalFee + Fee(r)));
    }
  }

  /** Adding a record changes the total under its own key by its fee and no other total. */
  lemma AddRecordTotalOf(gs: seq<GroupTotal>, r: ParkingRecord, k: string)
    requires DistinctKeys(gs)
    ensures TotalOf(AddRecord(gs, r), k) == TotalOf(gs, k) + Weigh(FeesOfKey(k), r)
  {
    var g := AddRecord(gs, r);
    AddRecordShape(gs, r);
    var i := FindGroup(gs, KeyOf(r));
    var j := FindGroup(g, k);
    var j2 := FindGroup(gs, k);
    if i < 0 {
      if j >= 0 && j < |gs| {
        assert gs[j].key == k;
        assert j2 == j;
      }
    } else {
      assert forall m :: 0 <= m < |g| ==> g[m].key == gs[m].key;
      if j >= 0 {
        assert gs[j].key == k;
        assert j2 == j;
      } else {
        assert j2 == -1;
      }
    }
  }

  lemma {:induction false} SumTotalsUpdate(gs: seq<GroupTotal>, i: nat, g: GroupTotal)
    requires i < |gs|
    ensures SumTotals(gs[i := g]) == SumTotals(gs) - gs[i].totalFee + g.totalFee
  {
    var u := gs[i := g];
    if i < |gs| - 1 {
      assert u[..|u| - 1] == gs[..|gs| - 1][i := g];
      SumTotalsUpdate(gs[..|gs| - 1], i, g);
    } else {
      assert u[..|u| - 1] == gs[..|gs| - 1];
    }
  }

  /**
   * The accumulator holds one group per key; the total under every key is the sum of the fees
   * of the records with that key, a missing fee counting 0; and the grand total is the sum of
   * the group totals.
   */
  lemma {:induction false} TallyTotals(rs: seq<ParkingRecord>)
    ensures DistinctKeys(Tally(rs))
    ensures forall k :: TotalOf(Tally(rs), k) == Sum(rs, FeesOfKey(k))
    ensures SumTotals(Tally(rs)) == Sum(rs, AllFees)
  {
    if rs != [] {
      var p, x := rs[..|rs| - 1], rs[|rs| - 1];
      TallyTotals(p);
      AddRecordShape(Tally(p), x);
      forall k ensures TotalOf(Tally(rs), k) == Sum(rs, FeesOfKey(k)) {
        AddRecordTotalOf(Tally(p), x, k);
      }
    }
  }

  /**
   * There is a group for the key of every record and for no other key, and each group carries
   * the name and account of a record with that key (the first one).
   */
  lemma {:induction false} TallyGroups(rs: seq<ParkingRecord>)
    ensures forall r :: r in rs ==> FindGroup(Tally(rs), KeyOf(r)) >= 0
    ensures forall g :: g in Tally(rs) ==>
      exists r :: r in rs && KeyOf(r) == g.key && r.name == g.name && r.accountInfo == g.accountInfo
  {
    if rs != [] {
      var p, x := rs[..|rs| - 1], rs[|rs| - 1];
      TallyGroups(p);
      assert rs == p + [x];
      GroupsStep(p, Tally(p), x);
    }
  }

  lemma GroupsStep(p: seq<ParkingRecord>, gs: seq<GroupTotal>, x: ParkingRecord)
    requires forall r :: r in p ==> FindGroup(gs, KeyOf(r)) >= 0
    requires forall g :: g in gs ==>
      exists r :: r in p && KeyOf(r) == g.key && r.name == g.name && r.accountInfo == g.accountInfo
    ensures forall r :: r in p + [x] ==> FindGroup(AddRecord(gs, x), KeyOf(r)) >= 0
    ensures forall g :: g in AddRecord(gs, x) ==>
      exists r :: r in p + [x] && KeyOf(r) == g.key && r.name == g.name && r.accountInfo == g.accountInfo
  {
    var gs' := AddRecord(gs, x);
    var i := FindGroup(gs, KeyOf(x));
    forall r | r in p + [x] ensures FindGroup(gs', KeyOf(r)) >= 0 {
      if r == x {
        if i < 0 {
          assert gs'[|gs|].key == KeyOf(x);
        } else {
          assert gs'[i].key == KeyOf(x);
        }
      } else {
        var j := FindGroup(gs, KeyOf(r));
        assert gs'[j].key == KeyOf(r);
      }
    }
    forall g | g in gs'
      ensures exists r :: r in p + [x] && KeyOf(r) == g.key && r.name == g.name && r.accountInfo == g.accountInfo
    {
      if i >= 0 {
        var j :| 0 <= j < |gs'| && gs'[j] == g;
        assert gs[j] in gs;
      } else if g != gs'[|gs|] {
        assert g in gs;
      } else {
        assert x in p + [x];
      }
    }
  }

  /** The reduce at App.js:701-708, written as the loop it is. */
  method ComputeNameAccountTotals(records: seq<ParkingRecord>) returns (totals: seq<GroupTotal>)
    ensures totals == Tally(records)
  {
    totals := [];
    for n := 0 to |records|
      invariant totals == Tally(records[..n])
    {
      var record := records[n];
      var key := GroupKey(record.name, record.accountInfo);
      var i := FindGroup(totals, key);
      if i < 0 {
        totals := totals + [GroupTotal(key, record.name, record.accountInfo, 0)];
        i := |totals| - 1;
      }
      totals := totals[i := totals[i].(totalFee := totals[i].totalFee + Fee(record))];
      assert records[..n + 1][..n] == records[..n];
    }
    assert records[..|records|] == records;
  }

  /** The `forEach` at App.js:711-712 that adds up every fee. */
  method ComputeTotalFee(records: seq<ParkingRecord>) returns (total: int)
    ensures total == Sum(records, AllFees)
  {
    total := 0;
    for n := 0 to |records|
      invariant total == Sum(records[..n], AllFees)
    {
      total := total + Fee(records[n]);
      assert records[..n + 1][..n] == records[..n];
    }
    assert records[..|records|] == records;
  }
}
