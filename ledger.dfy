/** An account's monthly history: the records, the order the service keeps
    them in (ascending `monthKey`), and the upsert `updateMonthlyHistory`
    performs on one account's history. */
module Ledger {
  import opened Seqs

  /** The account's `type` string: the service acts on 'SAVING' and 'LOAN'
      and stores any other string as given. */
  datatype AccountType = Saving | Loan | Other(tag: OtherTag)

  /** A type string other than the two the service acts on, so that each
      string has exactly one `AccountType`. */
  type OtherTag = s: string | s != "SAVING" && s != "LOAN" witness ""

  /** The two fields only a LOAN record carries. */
  datatype LoanTerms = LoanTerms(interestRate: real, termsLeft: int)

  /** One entry of `monthlyHistory`. `loan` is absent on a record written
      only for a SAVING account. Amounts are stored as given. */
  datatype MonthlyRecord = MonthlyRecord(
    monthKey: string,
    openingBalance: real,
    contribution: real,
    closingBalance: real,
    exchangeRate: real,
    loan: Option<LoanTerms>)

  /** The values one call of `updateMonthlyHistory` supplies, with the
      exchange rate's default already applied. */
  datatype Entry = Entry(
    openingBalance: real,
    contribution: real,
    interestRate: real,
    termsLeft: int,
    closingBalance: real,
    exchangeRate: real)

  /** The default of the `exchangeRate` parameter. */
  const DefaultExchangeRate: real := 1.0

  function ExchangeRateOrDefault(exchangeRate: Option<real>): (r: real)
    ensures exchangeRate.None? ==> r == DefaultExchangeRate
    ensures exchangeRate.Some? ==> r == exchangeRate.value
  {
    if exchangeRate.Some? then exchangeRate.value else DefaultExchangeRate
  }

  // ---------------------------------------------------------------------
  // The order of month keys

  /** `a.localeCompare(b) <= 0`, read as plain lexicographic order on
      character codes (the two agree on "YYYY-MM" keys). */
  predicate LexLe(a: string, b: string): (r: bool)
    ensures a <= b ==> r
    ensures r && a != [] ==> b != [] && a[0] <= b[0]
  {
    a == [] || (b != [] && (a[0] < b[0] || (a[0] == b[0] && LexLe(a[1..], b[1..]))))
  }

  lemma {:induction false} LexLeTotal(a: string, b: string)
    ensures LexLe(a, b) || LexLe(b, a)
  {
    if a != [] && b != [] && a[0] == b[0] {
      LexLeTotal(a[1..], b[1..]);
    }
  }

  lemma {:induction false} LexLeTransitive(a: string, b: string, c: string)
    requires LexLe(a, b) && LexLe(b, c)
    ensures LexLe(a, c)
  {
    if a != [] && a[0] == b[0] && b[0] == c[0] {
      LexLeTransitive(a[1..], b[1..], c[1..]);
    }
  }

  lemma {:induction false} LexLeAntisymmetric(a: string, b: string)
    requires LexLe(a, b) && LexLe(b, a)
    ensures a == b
  {
    if a != [] && b != [] {
      LexLeAntisymmetric(a[1..], b[1..]);
      assert a == [a[0]] + a[1..] && b == [b[0]] + b[1..];
    }
  }

  /** `monthlyHistory` sorted ascending by `monthKey`. */
  predicate SortedByMonth(h: seq<MonthlyRecord>) {
    forall i, j :: 0 <= i < j < |h| ==> LexLe(h[i].monthKey, h[j].monthKey)
  }

  /** No two records of a history share a `monthKey`. */
  predicate UniqueMonths(h: seq<MonthlyRecord>) {
    forall i, j :: 0 <= i < j < |h| ==> h[i].monthKey != h[j].monthKey
  }

  /** The month keys present in a history. */
  function Months(h: seq<MonthlyRecord>): set<string> {
    set r | r in h :: r.monthKey
  }

  function MonthIs(key: string): MonthlyRecord -> bool {
    (r: MonthlyRecord) => r.monthKey == key
  }

  // ---------------------------------------------------------------------
  // Sorting: `monthlyHistory.sort((a, b) => a.monthKey.localeCompare(b.monthKey))`

  /** Places `x` before the first element whose key is not below it. */
  function InsertByMonth(x: MonthlyRecord, s: seq<MonthlyRecord>): (r: seq<MonthlyRecord>)
    ensures |r| == |s| + 1
    ensures multiset(r) == multiset(s) + multiset{x}
  {
    if s == [] || LexLe(x.monthKey, s[0].monthKey) then [x] + s
    else
      assert s == [s[0]] + s[1..];
      [s[0]] + InsertByMonth(x, s[1..])
  }

  /** A stable insertion sort by `monthKey`: the result is a permutation
      of the history. */
  function SortByMonth(h: seq<MonthlyRecord>): (r: seq<MonthlyRecord>)
    ensures |r| == |h|
    ensures multiset(r) == multiset(h)
  {
    if h == [] then []
    else
      assert h == [h[0]] + h[1..];
      InsertByMonth(h[0], SortByMonth(h[1..]))
  }

  /** The elements of an insertion are the inserted record and the old ones. */
  lemma InsertMembers(x: MonthlyRecord, s: seq<MonthlyRecord>, y: MonthlyRecord)
    requires y in InsertByMonth(x, s)
    ensures y == x || y in s
  {
    assert y in multiset(InsertByMonth(x, s));
  }

  lemma {:induction false} InsertKeepsSorted(x: MonthlyRecord, s: seq<MonthlyRecord>)
    requires SortedByMonth(s)
    ensures SortedByMonth(InsertByMonth(x, s))
  {
    if s == [] || LexLe(x.monthKey, s[0].monthKey) {
      forall y | y in s
        ensures LexLe(x.monthKey, y.monthKey)
      {
        var j :| 0 <= j < |s| && s[j] == y;
        if j > 0 {
          LexLeTransitive(x.monthKey, s[0].monthKey, s[j].monthKey);
        }
      }
      ConsSorted(x, s);
    } else {
      LexLeTotal(x.monthKey, s[0].monthKey);
      var tail := s[1..];
      assert SortedByMonth(tail);
      InsertKeepsSorted(x, tail);
      var t := InsertByMonth(x, tail);
      forall y | y in t
        ensures LexLe(s[0].monthKey, y.monthKey)
      {
        InsertMembers(x, tail, y);
        if y != x {
          var k :| 0 <= k < |tail| && tail[k] == y;
          assert s[k + 1] == y;
        }
      }
      ConsSorted(s[0], t);
    }
  }

  /** A record no later than every record of a sorted history may go first. */
  lemma ConsSorted(x: MonthlyRecord, t: seq<MonthlyRecord>)
    requires SortedByMonth(t)
    requires forall y :: y in t ==> LexLe(x.monthKey, y.monthKey)
    ensures SortedByMonth([x] + t)
  {
    var r := [x] + t;
    forall i, j | 0 <= i < j < |r|
      ensures LexLe(r[i].monthKey, r[j].monthKey)
    {
      assert r[j] == t[j - 1];
      if i > 0 {
        assert r[i] == t[i - 1];
      } else {
        assert t[j - 1] in t;
      }
    }
  }

  /** After the sort the history is ordered by `monthKey`. */
  lemma {:induction false} SortByMonthSorted(h: seq<MonthlyRecord>)
    ensures SortedByMonth(SortByMonth(h))
  {
    if h != [] {
      SortByMonthSorted(h[1..]);
      InsertKeepsSorted(h[0], SortByMonth(h[1..]));
    }
  }

  /** Sorting an already ordered history leaves it exactly as it was. */
  lemma {:induction false} SortedIsFixed(h: seq<MonthlyRecord>)
    requires SortedByMonth(h)
    ensures SortByMonth(h) == h
  {
    if h != [] {
      assert SortedByMonth(h[1..]);
      SortedIsFixed(h[1..]);
      assert h == [h[0]] + h[1..];
    }
  }

  lemma {:induction false} InsertKeepsUnique(x: MonthlyRecord, s: seq<MonthlyRecord>)
    requires UniqueMonths(s)
    requires x.monthKey !in Months(s)
    ensures UniqueMonths(InsertByMonth(x, s))
  {
    if s == [] || LexLe(x.monthKey, s[0].monthKey) {
      ConsUnique(x, s);
    } else {
      var tail := s[1..];
      assert UniqueMonths(tail);
      assert x.monthKey !in Months(tail) by {
        forall y | y in tail ensures y.monthKey != x.monthKey {
          assert y in s;
        }
      }
      InsertKeepsUnique(x, tail);
      var t := InsertByMonth(x, tail);
      forall y | y in t
        ensures s[0].monthKey != y.monthKey
      {
        InsertMembers(x, tail, y);
        if y == x {
          assert s[0] in s;
        } else {
          var k :| 0 <= k < |tail| && tail[k] == y;
          assert s[k + 1] == y;
        }
      }
      ConsUnique(s[0], t);
    }
  }

  /** A record whose month is not in a key-unique history may go first. */
  lemma ConsUnique(x: MonthlyRecord, t: seq<MonthlyRecord>)
    requires UniqueMonths(t)
    requires x.monthKey !in Months(t)
    ensures UniqueMonths([x] + t)
  {
    var r := [x] + t;
    forall i, j | 0 <= i < j < |r|
      ensures r[i].monthKey != r[j].monthKey
    {
      assert r[j] == t[j - 1];
      if i > 0 {
        assert r[i] == t[i - 1];
      } else {
        assert t[j - 1] in t;
      }
    }
  }

  /** Sorting keeps distinct month keys distinct. */
  lemma {:induction false} SortKeepsUnique(h: seq<MonthlyRecord>)
    requires UniqueMonths(h)
    ensures UniqueMonths(SortByMonth(h))
  {
    if h != [] {
      var tail := h[1..];
      SortKeepsUnique(tail);
      var t := SortByMonth(tail);
      forall y | y in t
        ensures y.monthKey != h[0].monthKey
      {
        assert y in multiset(t);
        var k :| 0 <= k < |tail| && tail[k] == y;
        assert h[k + 1] == y;
      }
      InsertKeepsUnique(h[0], t);
    }
  }

  /** Records with the same multiset carry the same month keys. */
  lemma SameMonths(a: seq<MonthlyRecord>, b: seq<MonthlyRecord>)
    requires multiset(a) == multiset(b)
    ensures Months(a) == Months(b)
  {
    forall k | k in Months(a) ensures k in Months(b) {
      var y :| y in a && y.monthKey == k;
      assert y in multiset(b);
    }
    forall k | k in Months(b) ensures k in Months(a) {
      var y :| y in b && y.monthKey == k;
      assert y in multiset(a);
    }
  }

  // ---------------------------------------------------------------------
  // The upsert

  /** The fields a call writes into a record of an account of type `t`:
      the four common ones always, the loan terms for LOAN only. */
  predicate Carries(r: MonthlyRecord, t: AccountType, e: Entry) {
    && r.openingBalance == e.openingBalance
    && r.contribution == e.contribution
    && r.closingBalance == e.closingBalance
    && r.exchangeRate == e.exchangeRate
    && (t.Loan? ==> r.loan == Some(LoanTerms(e.interestRate, e.termsLeft)))
  }

  /** Assigns, in an existing record, the fields its account type writes. */
  function Overwrite(rec: MonthlyRecord, t: AccountType, e: Entry): (r: MonthlyRecord)
    requires !t.Other?
    ensures r.monthKey == rec.monthKey && Carries(r, t, e)
    ensures t.Saving? ==> r.loan == rec.loan
  {
    var r := rec.(openingBalance := e.openingBalance, contribution := e.contribution,
                  closingBalance := e.closingBalance, exchangeRate := e.exchangeRate);
    if t.Loan? then r.(loan := Some(LoanTerms(e.interestRate, e.termsLeft))) else r
  }

  /** A record holding exactly the fields the account type writes. */
  function NewRecord(key: string, t: AccountType, e: Entry): (r: MonthlyRecord)
    requires !t.Other?
    ensures r.monthKey == key && Carries(r, t, e)
    ensures t.Saving? ==> r.loan.None?
  {
    MonthlyRecord(key, e.openingBalance, e.contribution, e.closingBalance, e.exchangeRate,
                  if t.Loan? then Some(LoanTerms(e.interestRate, e.termsLeft)) else None)
  }

  datatype Upserted = Upserted(history: seq<MonthlyRecord>, record: MonthlyRecord)

  /** The record for `key` is overwritten when present and appended when
      absent, then the history is sorted; the written record is returned.
      An account type other than SAVING and LOAN yields nothing. */
  function Upsert(h: seq<MonthlyRecord>, t: AccountType, key: string, e: Entry): (r: Option<Upserted>)
    ensures r.None? <==> t.Other?
    ensures r.Some? ==> r.value.record.monthKey == key && Carries(r.value.record, t, e)
  {
    if t.Other? then None
    else
      var i := FindIndex(MonthIs(key), h);
      if i != -1 then
        var rec := Overwrite(h[i], t, e);
        Some(Upserted(SortByMonth(h[i := rec]), rec))
      else
        var rec := NewRecord(key, t, e);
        Some(Upserted(SortByMonth(h + [rec]), rec))
  }

  lemma MonthPresent(h: seq<MonthlyRecord>, key: string)
    ensures key in Months(h) <==> FindIndex(MonthIs(key), h) != -1
  {
    var i := FindIndex(MonthIs(key), h);
    if key in Months(h) {
      var y :| y in h && y.monthKey == key;
      var k :| 0 <= k < |h| && h[k] == y;
      assert MonthIs(key)(h[k]);
    }
    if i != -1 {
      assert h[i] in h;
    }
  }

  /** After an upsert the history is sorted and holds the returned record. */
  lemma UpsertSorted(h: seq<MonthlyRecord>, t: AccountType, key: string, e: Entry)
    requires !t.Other?
    ensures SortedByMonth(Upsert(h, t, key, e).value.history)
    ensures Upsert(h, t, key, e).value.record in Upsert(h, t, key, e).value.history
  {
    var i := FindIndex(MonthIs(key), h);
    var u := Upsert(h, t, key, e).value;
    if i != -1 {
      SortByMonthSorted(h[i := u.record]);
      assert u.record in multiset(h[i := u.record]);
    } else {
      SortByMonthSorted(h + [u.record]);
      assert u.record in multiset(h + [u.record]);
    }
  }

  lemma MultisetUpdate(h: seq<MonthlyRecord>, i: nat, x: MonthlyRecord)
    requires i < |h|
    ensures multiset(h[i := x]) == multiset(h) - multiset{h[i]} + multiset{x}
  {
    assert h == h[..i] + [h[i]] + h[i + 1..];
    assert h[i := x] == h[..i] + [x] + h[i + 1..];
  }

  /** An upsert of a month already present keeps the length and replaces
      the one record found for it by the returned record. */
  lemma UpsertReplaces(h: seq<MonthlyRecord>, t: AccountType, key: string, e: Entry)
    requires !t.Other?
    requires key in Months(h)
    ensures var u := Upsert(h, t, key, e).value;
      && |u.history| == |h|
      && multiset(u.history) == multiset(h) - multiset{h[FindIndex(MonthIs(key), h)]} + multiset{u.record}
  {
    MonthPresent(h, key);
    var i := FindIndex(MonthIs(key), h);
    MultisetUpdate(h, i, Overwrite(h[i], t, e));
  }

  /** An upsert of a month not yet present adds exactly the returned record. */
  lemma UpsertAppends(h: seq<MonthlyRecord>, t: AccountType, key: string, e: Entry)
    requires !t.Other?
    requires key !in Months(h)
    ensures var u := Upsert(h, t, key, e).value;
      && |u.history| == |h| + 1
      && multiset(u.history) == multiset(h) + multiset{u.record}
  {
    MonthPresent(h, key);
  }

  /** The key set after an upsert is the old key set plus `key`. */
  lemma UpsertMonths(h: seq<MonthlyRecord>, t: AccountType, key: string, e: Entry)
    requires !t.Other?
    ensures Months(Upsert(h, t, key, e).value.history) == Months(h) + {key}
  {
    var i := FindIndex(MonthIs(key), h);
    var u := Upsert(h, t, key, e).value;
    MonthPresent(h, key);
    if i != -1 {
      SameMonths(u.history, h[i := u.record]);
      MonthsUpdate(h, i, u.record);
      assert h[i] in h;
    } else {
      SameMonths(u.history, h + [u.record]);
      MonthsAppend(h, u.record);
    }
  }

  lemma MonthsUpdate(h: seq<MonthlyRecord>, i: nat, x: MonthlyRecord)
    requires i < |h| && x.monthKey == h[i].monthKey
    ensures Months(h[i := x]) == Months(h)
  {
    var h' := h[i := x];
    forall k | k in Months(h) ensures k in Months(h') {
      var y :| y in h && y.monthKey == k;
      var j :| 0 <= j < |h| && h[j] == y;
      assert h'[j] in h';
    }
    forall k | k in Months(h') ensures k in Months(h) {
      var y :| y in h' && y.monthKey == k;
      var j :| 0 <= j < |h'| && h'[j] == y;
      assert h[j] in h;
    }
  }

  lemma MonthsAppend(h: seq<MonthlyRecord>, x: MonthlyRecord)
    ensures Months(h + [x]) == Months(h) + {x.monthKey}
  {
    var h' := h + [x];
    assert x in h';
    forall k | k in Months(h') ensures k in Months(h) + {x.monthKey} {
      var y :| y in h' && y.monthKey == k;
      if y != x {
        assert y in h;
      }
    }
    forall k | k in Months(h) ensures k in Months(h') {
      var y :| y in h && y.monthKey == k;
      assert y in h';
    }
  }

  /** Distinct month keys stay distinct through an upsert. */
  lemma UpsertKeepsUnique(h: seq<MonthlyRecord>, t: AccountType, key: string, e: Entry)
    requires !t.Other?
    requires UniqueMonths(h)
    ensures UniqueMonths(Upsert(h, t, key, e).value.history)
  {
    var i := FindIndex(MonthIs(key), h);
    var u := Upsert(h, t, key, e).value;
    MonthPresent(h, key);
    if i != -1 {
      var h' := h[i := u.record];
      assert forall j :: 0 <= j < |h| ==> h'[j].monthKey == h[j].monthKey;
      SortKeepsUnique(h');
    } else {
      var h' := h + [u.record];
      forall a, b | 0 <= a < b < |h'| ensures h'[a].monthKey != h'[b].monthKey {
        if b == |h| {
          assert h[a] in h;
        }
      }
      SortKeepsUnique(h');
    }
  }

  /** Which fields an upsert leaves as they were: the month key always, and
      on a SAVING account the loan terms (absent on a fresh record). */
  lemma UpsertFields(h: seq<MonthlyRecord>, t: AccountType, key: string, e: Entry)
    requires !t.Other?
    ensures var r := Upsert(h, t, key, e).value.record;
      var i := FindIndex(MonthIs(key), h);
      && r.monthKey == key
      && Carries(r, t, e)
      && (t.Saving? ==> r.loan == (if i == -1 then None else h[i].loan))
  {
  }

  /** On an ordered history, updating a present month changes that record
      where it stands and nothing else. */
  lemma {:induction false} UpsertInPlace(h: seq<MonthlyRecord>, t: AccountType, key: string, e: Entry)
    requires !t.Other?
    requires SortedByMonth(h)
    requires key in Months(h)
    ensures var i := FindIndex(MonthIs(key), h);
      Upsert(h, t, key, e).value.history == h[i := Upsert(h, t, key, e).value.record]
  {
    MonthPresent(h, key);
    var i := FindIndex(MonthIs(key), h);
    var h' := h[i := Upsert(h, t, key, e).value.record];
    assert SortedByMonth(h') by {
      assert forall j :: 0 <= j < |h| ==> h'[j].monthKey == h[j].monthKey;
    }
    SortedIsFixed(h');
  }

  /** Two upserts of the same month: the history holds one record for that
      month, carrying the second call's values (last write wins). */
  lemma LastWriteWins(h: seq<MonthlyRecord>, t: AccountType, key: string, e1: Entry, e2: Entry)
    requires !t.Other?
    requires UniqueMonths(h)
    ensures var first := Upsert(h, t, key, e1).value;
      var second := Upsert(first.history, t, key, e2).value;
      && |second.history| == |first.history|
      && Carries(second.record, t, e2)
      && second.record in second.history
      && forall j :: 0 <= j < |second.history| && second.history[j].monthKey == key ==> second.history[j] == second.record
  {
    var first := Upsert(h, t, key, e1).value;
    var second := Upsert(first.history, t, key, e2).value;
    UpsertMonths(h, t, key, e1);
    UpsertKeepsUnique(h, t, key, e1);
    UpsertReplaces(first.history, t, key, e2);
    UpsertSorted(first.history, t, key, e2);
    UpsertKeepsUnique(first.history, t, key, e2);
    OnlyRecordForMonth(second.history, second.record, key);
  }

  /** In a history with one record per month, a record present for `key`
      is the only one. */
  lemma OnlyRecordForMonth(h: seq<MonthlyRecord>, r: MonthlyRecord, key: string)
    requires UniqueMonths(h)
    requires r in h && r.monthKey == key
    ensures forall j :: 0 <= j < |h| && h[j].monthKey == key ==> h[j] == r
  {
    var m :| 0 <= m < |h| && h[m] == r;
  }

  /** Upserting "2024-01" and then "2023-12" into an empty SAVING history
      leaves the two records in calendar order. */
  lemma MonthOrderExample()
    ensures var first := Upsert([], Saving, "2024-01", Entry(1000.0, 100.0, 0.0, 0, 1100.0, 1.0)).value;
      var second := Upsert(first.history, Saving, "2023-12", Entry(900.0, 100.0, 0.0, 0, 1000.0, 1.0)).value;
      && |second.history| == 2
      && second.history[0].monthKey == "2023-12"
      && second.history[1].monthKey == "2024-01"
  {
    var first := Upsert([], Saving, "2024-01", Entry(1000.0, 100.0, 0.0, 0, 1100.0, 1.0)).value;
    var r1 := first.record;
    assert first.history == [r1];
    var e2 := Entry(900.0, 100.0, 0.0, 0, 1000.0, 1.0);
    var r2 := NewRecord("2023-12", Saving, e2);
    assert Upsert([r1], Saving, "2023-12", e2).value.history == SortByMonth([r1, r2]) by {
      assert FindIndex(MonthIs("2023-12"), [r1]) == -1;
      assert [r1] + [r2] == [r1, r2];
    }
    assert !LexLe("2024-01", "2023-12");
    SortTwo(r1, r2);
  }

  lemma SortTwo(a: MonthlyRecord, b: MonthlyRecord)
    requires !LexLe(a.monthKey, b.monthKey)
    ensures SortByMonth([a, b]) == [b, a]
  {
    assert [a, b][1..] == [b];
    assert SortByMonth([b]) == [b];
  }
}
