/**
 * The entry form's autocomplete (App.js:226-277): while a name or an account number is typed,
 * up to five earlier values that match are offered. `None` stands for the list being hidden.
 */
module Suggestions {
  import opened Wrappers
  import opened Strings
  import opened Lists
  import opened Records

  /** How many suggestions are shown at most (`slice(0, 5)`). */
  const MaxSuggestions := 5

  /** The record's name contains the typed text, both lower-cased. */
  predicate NameMatches(r: ParkingRecord, value: string) {
    Contains(ToLowerCase(r.name), ToLowerCase(value))
  }

  /** `n` is the name of some record that matches the typed `value`. */
  predicate NameOfMatch(rs: seq<ParkingRecord>, value: string, n: string) {
    exists r :: r in rs && NameMatches(r, value) && r.name == n
  }

  /** `.filter(record => NameMatches).map(record => record.name)`, in record order. */
  function MatchingNames(rs: seq<ParkingRecord>, value: string): (ns: seq<string>)
    ensures |ns| <= |rs|
    ensures forall n :: n in ns <==> NameOfMatch(rs, value, n)
  {
    if rs == [] then []
    else
      var p, x := rs[..|rs| - 1], rs[|rs| - 1];
      assert rs == p + [x];
      MatchingNames(p, value) + (if NameMatches(x, value) then [x.name] else [])
  }

  /** The name suggestions for the typed `value`: hidden while the field is empty. */
  function NameSuggestions(rs: seq<ParkingRecord>, value: string): (o: Option<seq<string>>)
    ensures o.None? <==> value == ""
    ensures o.Some? ==> |o.value| <= MaxSuggestions && Distinct(o.value)
  {
    if value == "" then None
    else
      ShownPrefix(MatchingNames(rs, value), MaxSuggestions);
      Some(Take(Dedup(MatchingNames(rs, value)), MaxSuggestions))
  }

  /**
   * The list is shown exactly when something was typed. It holds at most five names, none twice,
   * each the name of a record that matches; when it is shorter than five, every matching record's
   * name is in it.
   */
  lemma NameSuggestionsSpec(rs: seq<ParkingRecord>, value: string)
    ensures NameSuggestions(rs, value).None? <==> value == ""
    ensures NameSuggestions(rs, value).Some? ==>
      var s := NameSuggestions(rs, value).value;
      && |s| <= MaxSuggestions
      && Distinct(s)
      && (forall i :: 0 <= i < |s| ==> s[i] in MatchingNames(rs, value))
      && (forall i :: 0 <= i < |s| ==> NameOfMatch(rs, value, s[i]))
      && (|s| < MaxSuggestions ==> forall r :: r in rs && NameMatches(r, value) ==> r.name in s)
  {
    if value != "" {
      var m := MatchingNames(rs, value);
      ShownPrefix(m, MaxSuggestions);
      var s := Take(Dedup(m), MaxSuggestions);
      if |s| < MaxSuggestions {
        NamesComplete(rs, value, m, s);
      }
    }
  }

  /**
   * The shown names keep the order in which they first match, and each of them first matches
   * before every matching name left out.
   */
  lemma NameSuggestionsOrder(rs: seq<ParkingRecord>, value: string)
    ensures NameSuggestions(rs, value).Some? ==>
      var s, m := NameSuggestions(rs, value).value, MatchingNames(rs, value);
      && (forall i, j :: 0 <= i < j < |s| ==> FirstIndex(m, s[i]) < FirstIndex(m, s[j]))
      && (forall k :: 0 <= k < |m| && m[k] !in s ==>
            forall i :: 0 <= i < |s| ==> FirstIndex(m, s[i]) < FirstIndex(m, m[k]))
  {
    if value != "" {
      ShownPrefix(MatchingNames(rs, value), MaxSuggestions);
    }
  }

  /** A list holding every matching name holds the name of every matching record. */
  lemma NamesComplete(rs: seq<ParkingRecord>, value: string, m: seq<string>, s: seq<string>)
    requires m == MatchingNames(rs, value) && forall k :: 0 <= k < |m| ==> m[k] in s
    ensures forall r :: r in rs && NameMatches(r, value) ==> r.name in s
  {
    forall r | r in rs && NameMatches(r, value) ensures r.name in s {
      assert r.name in m;
      var k :| 0 <= k < |m| && m[k] == r.name;
    }
  }

  /**
   * The first `n` distinct values of `m`, in the order of their first occurrence: at most `n`
   * values, none twice, all from `m`; each shown value first occurs before every value left out;
   * and when fewer than `n` are shown, none is left out.
   */
  lemma ShownPrefix<T>(m: seq<T>, n: nat)
    ensures var s := Take(Dedup(m), n);
      && |s| <= n
      && Distinct(s)
      && (forall i :: 0 <= i < |s| ==> s[i] in m)
      && (forall i, j :: 0 <= i < j < |s| ==> FirstIndex(m, s[i]) < FirstIndex(m, s[j]))
      && (forall k :: 0 <= k < |m| && m[k] !in s ==>
            forall i :: 0 <= i < |s| ==> FirstIndex(m, s[i]) < FirstIndex(m, m[k]))
      && (|s| < n ==> forall k :: 0 <= k < |m| ==> m[k] in s)
  {
    var d := Dedup(m);
    var s := Take(d, n);
    PrefixOrdered(m, d, s);
    PrefixBeforeRest(m, d, s);
  }

  /** A prefix of a list ordered by first occurrence in `m` is ordered the same way. */
  lemma PrefixOrdered<T>(m: seq<T>, d: seq<T>, s: seq<T>)
    requires Distinct(d) && forall i :: 0 <= i < |d| ==> d[i] in m
    requires forall i, j :: 0 <= i < j < |d| ==> FirstIndex(m, d[i]) < FirstIndex(m, d[j])
    requires |s| <= |d| && s == d[..|s|]
    ensures Distinct(s) && forall i :: 0 <= i < |s| ==> s[i] in m
    ensures forall i, j :: 0 <= i < j < |s| ==> FirstIndex(m, s[i]) < FirstIndex(m, s[j])
  {
    forall i, j | 0 <= i < j < |s| ensures s[i] != s[j] && FirstIndex(m, s[i]) < FirstIndex(m, s[j]) {
      assert s[i] == d[i] && s[j] == d[j];
    }
  }

  /** Every value of `m` outside the prefix first occurs after every value in it. */
  lemma PrefixBeforeRest<T>(m: seq<T>, d: seq<T>, s: seq<T>)
    requires forall i :: 0 <= i < |d| ==> d[i] in m
    requires forall k :: 0 <= k < |m| ==> m[k] in d
    requires forall i, j :: 0 <= i < j < |d| ==> FirstIndex(m, d[i]) < FirstIndex(m, d[j])
    requires |s| <= |d| && s == d[..|s|]
    ensures forall k :: 0 <= k < |m| && m[k] !in s ==>
      forall i :: 0 <= i < |s| ==> FirstIndex(m, s[i]) < FirstIndex(m, m[k])
  {
    forall k | 0 <= k < |m| && m[k] !in s
      ensures forall i :: 0 <= i < |s| ==> FirstIndex(m, s[i]) < FirstIndex(m, m[k])
    {
      var q :| 0 <= q < |d| && d[q] == m[k];
      assert q >= |s|;
      forall i | 0 <= i < |s| ensures FirstIndex(m, s[i]) < FirstIndex(m, m[k]) {
        assert s[i] == d[i];
      }
    }
  }

  /**
   * The account-number part of `accountInfo` with its hyphens removed, when the record has one:
   * `accountInfo` is non-empty and its second `/`-separated part exists and is non-empty.
   */
  function AccountDigits(accountInfo: string): (d: Option<string>)
    ensures d.Some? ==> '-' !in d.value
  {
    if accountInfo == "" then None
    else
      var parts := Split(accountInfo, '/');
      if |parts| < 2 || parts[1] == "" then None else Some(RemoveAll(parts[1], '-'))
  }

  /** The record's account digits contain the typed digits. */
  predicate AccountMatches(r: ParkingRecord, digits: string) {
    AccountDigits(r.accountInfo).Some? && Contains(AccountDigits(r.accountInfo).value, digits)
  }

  /** `a` is the stored account of some record that matches the typed digits. */
  predicate AccountOfMatch(rs: seq<ParkingRecord>, digits: string, a: string) {
    exists r :: r in rs && AccountMatches(r, digits) && r.accountInfo == a
  }

  /** `.filter(AccountMatches).map(record => record.accountInfo)`, in record order. */
  function MatchingAccounts(rs: seq<ParkingRecord>, digits: string): (accounts: seq<string>)
    ensures |accounts| <= |rs|
    ensures forall a :: a in accounts <==> AccountOfMatch(rs, digits, a)
  {
    if rs == [] then []
    else
      var p, x := rs[..|rs| - 1], rs[|rs| - 1];
      assert rs == p + [x];
      MatchingAccounts(p, digits) + (if AccountMatches(x, digits) then [x.accountInfo] else [])
  }

  /**
   * `handleAccountNumberChange`: the typed text with its hyphens removed becomes the field's
   * value, and the account suggestions for it (hidden while it is empty).
   */
  function AccountSuggestions(rs: seq<ParkingRecord>, raw: string): (r: (string, Option<seq<string>>))
    ensures '-' !in r.0
    ensures r.1.None? <==> r.0 == ""
    ensures r.1.Some? ==> |r.1.value| <= MaxSuggestions && Distinct(r.1.value)
  {
    var digits := RemoveAll(raw, '-');
    if digits == "" then (digits, None)
    else
      ShownPrefix(MatchingAccounts(rs, digits), MaxSuggestions);
      (digits, Some(Take(Dedup(MatchingAccounts(rs, digits)), MaxSuggestions)))
  }

  /**
   * The field holds the typed text without its hyphens; the list is shown exactly when the field
   * is non-empty. It holds at most five `accountInfo` values, none twice, each from a record whose
   * account digits contain the field; when it is shorter than five, no matching record is missing.
   */
  lemma AccountSuggestionsSpec(rs: seq<ParkingRecord>, raw: string)
    ensures AccountSuggestions(rs, raw).0 == RemoveAll(raw, '-')
    ensures AccountSuggestions(rs, raw).1.None? <==> AccountSuggestions(rs, raw).0 == ""
    ensures AccountSuggestions(rs, raw).1.Some? ==>
      var digits, s := AccountSuggestions(rs, raw).0, AccountSuggestions(rs, raw).1.value;
      && |s| <= MaxSuggestions
      && Distinct(s)
      && (forall i :: 0 <= i < |s| ==> s[i] in MatchingAccounts(rs, digits))
      && (forall i :: 0 <= i < |s| ==> AccountOfMatch(rs, digits, s[i]))
      && (|s| < MaxSuggestions ==> forall r :: r in rs && AccountMatches(r, digits) ==> r.accountInfo in s)
  {
    var digits := RemoveAll(raw, '-');
    if digits != "" {
      var m := MatchingAccounts(rs, digits);
      ShownPrefix(m, MaxSuggestions);
      var s := Take(Dedup(m), MaxSuggestions);
      if |s| < MaxSuggestions {
        AccountsComplete(rs, digits, m, s);
      }
    }
  }

  /**
   * The shown accounts keep the order in which they first match, and each of them first matches
   * before every matching account left out.
   */
  lemma AccountSuggestionsOrder(rs: seq<ParkingRecord>, raw: string)
    ensures AccountSuggestions(rs, raw).1.Some? ==>
      var digits, s := AccountSuggestions(rs, raw).0, AccountSuggestions(rs, raw).1.value;
      var m := MatchingAccounts(rs, digits);
      && (forall i, j :: 0 <= i < j < |s| ==> FirstIndex(m, s[i]) < FirstIndex(m, s[j]))
      && (forall k :: 0 <= k < |m| && m[k] !in s ==>
            forall i :: 0 <= i < |s| ==> FirstIndex(m, s[i]) < FirstIndex(m, m[k]))
  {
    var digits := RemoveAll(raw, '-');
    if digits != "" {
      ShownPrefix(MatchingAccounts(rs, digits), MaxSuggestions);
    }
  }

  /** A list holding every matching account holds the account of every matching record. */
  lemma AccountsComplete(rs: seq<ParkingRecord>, digits: string, m: seq<string>, s: seq<string>)
    requires m == MatchingAccounts(rs, digits) && forall k :: 0 <= k < |m| ==> m[k] in s
    ensures forall r :: r in rs && AccountMatches(r, digits) ==> r.accountInfo in s
  {
    forall r | r in rs && AccountMatches(r, digits) ensures r.accountInfo in s {
      assert r.accountInfo in m;
      var k :| 0 <= k < |m| && m[k] == r.accountInfo;
    }
  }

  /** The account digits of `bank/account` are the account without hyphens, when neither part holds a `/`. */
  lemma AccountDigitsOfComposed(bank: string, account: string)
    requires '/' !in bank && '/' !in account && account != ""
    ensures AccountDigits(bank + "/" + account) == Some(RemoveAll(account, '-'))
  {
    SplitJoinTwo(bank, account, '/');
  }
}
