/** The account service: one store holding the accounts of every user,
    and the operations `createAccount`, `updateMonthlyHistory`,
    `deleteAccount`, `deleteAllUserAccounts`, `getUserAccounts` and
    `findAccountById` over it. */
module Accounts {
  import opened Seqs
  import opened Text
  import opened Ledger

  datatype Account = Account(
    id: int,
    ownerId: int,
    name: string,
    accountType: AccountType,
    monthlyHistory: seq<MonthlyRecord>)

  /** What `createAccount` reports: the new account's id, or that the owner
      already has an account of that name. */
  datatype CreateResult = Created(id: int) | DuplicateName

  /** What `updateMonthlyHistory` reports. `UnsupportedAccountType` stands
      for the `undefined` the service returns when the account's type is
      neither SAVING nor LOAN. */
  datatype UpdateResult =
    | RecordUpdated(record: MonthlyRecord)
    | AccountNotFound
    | UnsupportedAccountType

  /** What `deleteAccount` reports. */
  datatype DeleteResult = Deleted | AuthorizationFailed | NotFound

  function IdIs(id: int): Account -> bool {
    (a: Account) => a.id == id
  }

  function OwnerIs(ownerId: int): Account -> bool {
    (a: Account) => a.ownerId == ownerId
  }

  function OwnerIsNot(ownerId: int): Account -> bool {
    (a: Account) => a.ownerId != ownerId
  }

  /** The accounts `deleteAccount` keeps: all but those matching both keys. */
  function NotIdAndOwner(id: int, ownerId: int): Account -> bool {
    (a: Account) => !(a.id == id && a.ownerId == ownerId)
  }

  /** The duplicate test of `createAccount`, given the normalised new name. */
  function SameOwnerAndName(ownerId: int, normalizedName: string): (r: Account -> bool)
    ensures forall a: Account, b: Account :: b.ownerId == ownerId && Normalize(b.name) == normalizedName ==>
      (r(a) <==> NamesClash(a, b))
  {
    (a: Account) => a.ownerId == ownerId && Normalize(a.name) == normalizedName
  }

  /** Two accounts of one owner whose names agree after trim and upper-casing. */
  predicate NamesClash(a: Account, b: Account) {
    a.ownerId == b.ownerId && Normalize(a.name) == Normalize(b.name)
  }

  /** No owner has two accounts whose names clash. */
  predicate UniqueNames(s: seq<Account>) {
    forall i, j :: 0 <= i < j < |s| ==> !NamesClash(s[i], s[j])
  }

  /** The store invariant the operations keep: names unique per owner, and
      every history ordered by month with one record per month. */
  predicate WellFormed(s: seq<Account>) {
    && UniqueNames(s)
    && forall a :: a in s ==> SortedByMonth(a.monthlyHistory) && UniqueMonths(a.monthlyHistory)
  }

  /** The duplicate search of `createAccount` finds an account exactly when
      the owner has one whose name clashes with the new name. */
  lemma DuplicateSearch(s: seq<Account>, ownerId: int, name: string)
    ensures Find(SameOwnerAndName(ownerId, Normalize(name)), s).Some?
        <==> exists a :: a in s && a.ownerId == ownerId && Normalize(a.name) == Normalize(name)
  {
    var p := SameOwnerAndName(ownerId, Normalize(name));
    if exists a :: a in s && a.ownerId == ownerId && Normalize(a.name) == Normalize(name) {
      var a :| a in s && a.ownerId == ownerId && Normalize(a.name) == Normalize(name);
      assert p(a);
    }
  }

  /** Appending an account whose name clashes with none of its owner's
      keeps the store well formed. */
  lemma {:induction false} CreateKeepsWellFormed(s: seq<Account>, id: int, ownerId: int, name: string, t: AccountType)
    requires WellFormed(s)
    requires !exists a :: a in s && a.ownerId == ownerId && Normalize(a.name) == Normalize(name)
    ensures WellFormed(s + [Account(id, ownerId, name, t, [])])
  {
    var n := Account(id, ownerId, name, t, []);
    var s' := s + [n];
    forall i, j | 0 <= i < j < |s'|
      ensures !NamesClash(s'[i], s'[j])
    {
      if j == |s| {
        assert s[i] in s;
      }
    }
  }

  /** Once an account has been created, a second creation for the same
      owner under a name with the same normal form is a duplicate. */
  lemma SecondCreateIsDuplicate(s: seq<Account>, id: int, ownerId: int, name: string, t: AccountType, again: string)
    requires Normalize(again) == Normalize(name)
    ensures Find(SameOwnerAndName(ownerId, Normalize(again)), s + [Account(id, ownerId, name, t, [])]).Some?
  {
    var n := Account(id, ownerId, name, t, []);
    assert n in s + [n];
    DuplicateSearch(s + [n], ownerId, again);
  }

  /** Removing accounts keeps the store well formed. */
  lemma FilterKeepsWellFormed(p: Account -> bool, s: seq<Account>)
    requires WellFormed(s)
    ensures WellFormed(Filter(p, s))
  {
    FilterKeepsUniqueNames(p, s);
  }

  lemma {:induction false} FilterKeepsUniqueNames(p: Account -> bool, s: seq<Account>)
    requires UniqueNames(s)
    ensures UniqueNames(Filter(p, s))
  {
    if s != [] {
      var tail := s[1..];
      assert UniqueNames(tail);
      FilterKeepsUniqueNames(p, tail);
      var r := Filter(p, s);
      var ft := Filter(p, tail);
      if p(s[0]) {
        assert r == [s[0]] + ft;
        forall i, j | 0 <= i < j < |r|
          ensures !NamesClash(r[i], r[j])
        {
          assert r[j] == ft[j - 1];
          if i == 0 {
            assert r[j] in ft;
            var k :| 0 <= k < |tail| && tail[k] == r[j];
            assert s[k + 1] == r[j];
          } else {
            assert r[i] == ft[i - 1];
          }
        }
      } else {
        assert r == ft;
      }
    }
  }

  /** Replacing one account's history by an ordered history with one record
      per month keeps the store well formed. */
  lemma ReplaceHistoryKeepsWellFormed(s: seq<Account>, i: nat, h: seq<MonthlyRecord>)
    requires WellFormed(s)
    requires i < |s|
    requires SortedByMonth(h) && UniqueMonths(h)
    ensures WellFormed(s[i := s[i].(monthlyHistory := h)])
  {
    var s' := s[i := s[i].(monthlyHistory := h)];
    forall a | a in s'
      ensures SortedByMonth(a.monthlyHistory) && UniqueMonths(a.monthlyHistory)
    {
      var k :| 0 <= k < |s'| && s'[k] == a;
      if k != i {
        assert s[k] in s;
      }
    }
    assert forall k :: 0 <= k < |s| ==> s'[k].ownerId == s[k].ownerId && s'[k].name == s[k].name;
  }

  /** With nothing matching both keys, the account found by id (if any)
      belongs to someone else: `deleteAccount` reports an authorization
      failure exactly when the id exists at all. */
  lemma NothingDeletedOutcome(s: seq<Account>, accountId: int, ownerId: int)
    requires |Filter(NotIdAndOwner(accountId, ownerId), s)| == |s|
    ensures var found := Find(IdIs(accountId), s);
      (found.Some? && found.value.ownerId != ownerId) <==> exists a :: a in s && a.id == accountId
  {
    var p := NotIdAndOwner(accountId, ownerId);
    FilterKeepsAll(p, s);
    var found := Find(IdIs(accountId), s);
    if exists a :: a in s && a.id == accountId {
      var a :| a in s && a.id == accountId;
      assert IdIs(accountId)(a);
      var i := FindIndex(IdIs(accountId), s);
      assert p(s[i]);
    }
  }

  /** `deleteAccount` removes something exactly when some account matches
      both the id and the owner. */
  lemma DeleteRemovesIffMatch(s: seq<Account>, accountId: int, ownerId: int)
    ensures |Filter(NotIdAndOwner(accountId, ownerId), s)| < |s|
        <==> exists a :: a in s && a.id == accountId && a.ownerId == ownerId
  {
    var p := NotIdAndOwner(accountId, ownerId);
    FilterKeepsAll(p, s);
    if exists a :: a in s && a.id == accountId && a.ownerId == ownerId {
      var a :| a in s && a.id == accountId && a.ownerId == ownerId;
      var k :| 0 <= k < |s| && s[k] == a;
      assert !p(s[k]);
    } else {
      forall k | 0 <= k < |s| ensures p(s[k]) {
        assert s[k] in s;
      }
    }
  }

  /** The accounts `deleteAllUserAccounts` removes are exactly those
      `getUserAccounts` lists, so its count is their number. */
  lemma DeleteAllCount(s: seq<Account>, ownerId: int)
    ensures |s| - |Filter(OwnerIsNot(ownerId), s)| == |Filter(OwnerIs(ownerId), s)|
  {
    FilterComplement(OwnerIs(ownerId), OwnerIsNot(ownerId), s);
  }

  /** The store: `db.data.accounts`. `writes` counts the calls of `db.write()`. */
  class AccountStore {
    var accounts: seq<Account>
    ghost var writes: nat

    constructor (initial: seq<Account>)
      ensures accounts == initial && writes == 0
    {
      accounts := initial;
      writes := 0;
    }

    /** `findAccountById`: despite its name it looks up the first account of
        the given owner. */
    function FindAccountById(ownerId: int): (r: Option<Account>)
      reads this
      ensures r.None? <==> forall a :: a in accounts ==> a.ownerId != ownerId
      ensures r.Some? ==> r.value in accounts && r.value.ownerId == ownerId
      ensures r.Some? ==>
        exists i :: 0 <= i < |accounts| && accounts[i] == r.value && forall k :: 0 <= k < i ==> accounts[k].ownerId != ownerId
    {
      var r := Find(OwnerIs(ownerId), accounts);
      assert r.Some? ==> var i := FindIndex(OwnerIs(ownerId), accounts);
        forall k :: 0 <= k < i ==> !OwnerIs(ownerId)(accounts[k]);
      r
    }

    /** `getUserAccounts`: the owner's accounts in store order; an owner
        without accounts gets the empty list. */
    function GetUserAccounts(ownerId: int): (r: seq<Account>)
      reads this
      ensures forall a :: a in r <==> a in accounts && a.ownerId == ownerId
      ensures r == [] <==> forall a :: a in accounts ==> a.ownerId != ownerId
      ensures |r| <= |accounts|
      ensures r == Filter(OwnerIs(ownerId), accounts)
    {
      var r := Filter(OwnerIs(ownerId), accounts);
      assert r != [] ==> r[0] in r;
      r
    }

    /** `createAccount`: rejects a name that clashes with one of the owner's
        account names after trim and upper-casing; otherwise appends the new
        account, under the name as given and with an empty history. */
    method CreateAccount(ownerId: int, accountName: string, accountType: AccountType, now: int)
      returns (r: CreateResult)
      modifies this
      ensures r.DuplicateName? <==>
        exists a :: a in old(accounts) && a.ownerId == ownerId && Normalize(a.name) == Normalize(accountName)
      ensures r.DuplicateName? ==> accounts == old(accounts) && writes == old(writes)
      ensures r.Created? ==>
        && r.id == now
        && accounts == old(accounts) + [Account(now, ownerId, accountName, accountType, [])]
        && writes == old(writes) + 1
      ensures old(WellFormed(accounts)) ==> WellFormed(accounts)
    {
      var normalizedName := Normalize(accountName);
      var existingAccount := Find(SameOwnerAndName(ownerId, normalizedName), accounts);
      DuplicateSearch(accounts, ownerId, accountName);
      if existingAccount.Some? {
        return DuplicateName;
      }
      ghost var before := accounts;
      var newAccount := Account(now, ownerId, accountName, accountType, []);
      accounts := accounts + [newAccount];
      writes := writes + 1;
      if WellFormed(before) {
        CreateKeepsWellFormed(before, now, ownerId, accountName, accountType);
      }
      return Created(newAccount.id);
    }

    /** `updateMonthlyHistory`: finds the first account with the id, then
        upserts the month's record with the fields its type writes and
        sorts the history; an unknown id or an unsupported type changes
        nothing and writes nothing. */
    method UpdateMonthlyHistory(accountId: int, monthKey: string, openingBalance: real, contribution: real,
                                interestRate: real, termsLeft: int, closingBalance: real,
                                exchangeRate: Option<real>)
      returns (r: UpdateResult)
      modifies this
      ensures var i := FindIndex(IdIs(accountId), old(accounts));
        && (r.AccountNotFound? <==> i == -1)
        && (r.UnsupportedAccountType? <==> i != -1 && old(accounts)[i].accountType.Other?)
      ensures !r.RecordUpdated? ==> accounts == old(accounts) && writes == old(writes)
      ensures r.RecordUpdated? ==>
        var i := FindIndex(IdIs(accountId), old(accounts));
        var account := old(accounts)[i];
        var entry := Entry(openingBalance, contribution, interestRate, termsLeft, closingBalance,
                           ExchangeRateOrDefault(exchangeRate));
        var u := Upsert(account.monthlyHistory, account.accountType, monthKey, entry).value;
        && accounts == old(accounts)[i := account.(monthlyHistory := u.history)]
        && r.record == u.record
        && r.record in accounts[i].monthlyHistory
        && writes == old(writes) + 1
      ensures old(WellFormed(accounts)) ==> WellFormed(accounts)
    {
      var i := FindIndex(IdIs(accountId), accounts);
      if i == -1 {
        return AccountNotFound;
      }
      var account := accounts[i];
      var entry := Entry(openingBalance, contribution, interestRate, termsLeft, closingBalance,
                         ExchangeRateOrDefault(exchangeRate));
      var history := account.monthlyHistory;
      var monthIndex := FindIndex(MonthIs(monthKey), history);
      if account.accountType == Saving || account.accountType == Loan {
        var updatedRecord: MonthlyRecord;
        if monthIndex != -1 {
          updatedRecord := Overwrite(history[monthIndex], account.accountType, entry);
          history := history[monthIndex := updatedRecord];
        } else {
          updatedRecord := NewRecord(monthKey, account.accountType, entry);
          history := history + [updatedRecord];
        }
        history := SortByMonth(history);
        ghost var before := accounts;
        accounts := accounts[i := account.(monthlyHistory := history)];
        writes := writes + 1;
        UpsertSorted(account.monthlyHistory, account.accountType, monthKey, entry);
        if WellFormed(before) {
          assert account in before;
          UpsertKeepsUnique(account.monthlyHistory, account.accountType, monthKey, entry);
          ReplaceHistoryKeepsWellFormed(before, i, history);
        }
        return RecordUpdated(updatedRecord);
      }
      return UnsupportedAccountType;
    }

    /** `deleteAccount`: removes every account matching both the id and the
        owner. When none matches, nothing changes and the result tells an
        id held by another owner apart from an unknown id. */
    method DeleteAccount(accountId: int, ownerId: int) returns (r: DeleteResult)
      modifies this
      ensures r.Deleted? <==> exists a :: a in old(accounts) && a.id == accountId && a.ownerId == ownerId
      ensures r.Deleted? ==>
        accounts == Filter(NotIdAndOwner(accountId, ownerId), old(accounts)) && writes == old(writes) + 1
      ensures !r.Deleted? ==> accounts == old(accounts) && writes == old(writes)
      ensures r.AuthorizationFailed? <==>
        !r.Deleted? && exists a :: a in old(accounts) && a.id == accountId
      ensures old(WellFormed(accounts)) ==> WellFormed(accounts)
    {
      var initialLength := |accounts|;
      var updatedAccounts := Filter(NotIdAndOwner(accountId, ownerId), accounts);
      DeleteRemovesIffMatch(accounts, accountId, ownerId);
      if |updatedAccounts| == initialLength {
        NothingDeletedOutcome(accounts, accountId, ownerId);
        var foundAccount := Find(IdIs(accountId), accounts);
        if foundAccount.Some? && foundAccount.value.ownerId != ownerId {
          return AuthorizationFailed;
        } else {
          return NotFound;
        }
      }
      if WellFormed(accounts) {
        FilterKeepsWellFormed(NotIdAndOwner(accountId, ownerId), accounts);
      }
      accounts := updatedAccounts;
      writes := writes + 1;
      return Deleted;
    }

    /** `deleteAllUserAccounts`: keeps exactly the other owners' accounts, in
        order, and reports how many were removed (possibly none). */
    method DeleteAllUserAccounts(ownerId: int) returns (deletedCount: nat)
      modifies this
      ensures accounts == Filter(OwnerIsNot(ownerId), old(accounts))
      ensures deletedCount == |Filter(OwnerIs(ownerId), old(accounts))|
      ensures GetUserAccounts(ownerId) == []
      ensures writes == old(writes) + 1
      ensures old(WellFormed(accounts)) ==> WellFormed(accounts)
    {
      var initialCount := |accounts|;
      DeleteAllCount(accounts, ownerId);
      if WellFormed(accounts) {
        FilterKeepsWellFormed(OwnerIsNot(ownerId), accounts);
      }
      accounts := Filter(OwnerIsNot(ownerId), accounts);
      deletedCount := initialCount - |accounts|;
      writes := writes + 1;
    }
  }
}
