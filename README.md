# Account ledger service — a Dafny model

This project models the account service of `server_template`
(`services/accountsService.js`). The service keeps one store, the sequence
`db.data.accounts`. Each account is `{id, ownerId, name, type, monthlyHistory}`,
and each entry of `monthlyHistory` is a monthly record keyed by a
`"YYYY-MM"` month key. The service offers:

- `createAccount`. It refuses a name that, after `trim()` and
  `toUpperCase()`, equals one of the owner's existing account names.
  Otherwise it appends a new account with an empty history.
- `updateMonthlyHistory`. It finds the first account with the given id and
  upserts the record for a month. The fields it writes depend on the
  account's type (SAVING or LOAN). It then sorts the history by month key.
- `deleteAccount`. It removes every account matching both the id and the
  owner. When nothing matches, it tells "authorization failed" apart from
  "not found".
- `deleteAllUserAccounts`. It removes all of an owner's accounts and reports
  how many it removed.
- `getUserAccounts` and `findAccountById` are read-only queries.

Layout, one module per file:

- `seqs.dfy` (`Seqs`): the array queries the service uses (`find`,
  `findIndex`, `filter`) as functions over sequences, with their laws.
- `text.dfy` (`Text`): `trim()`, `toUpperCase()` and the name normal form.
- `ledger.dfy` (`Ledger`): monthly records, the month-key order, the sort,
  and the upsert of one account's history, with its properties.
- `accounts.dfy` (`Accounts`): the account datatype, the store invariant
  (`WellFormed`), and the class `AccountStore`. Its field `accounts` stands
  for `db.data.accounts`, which the service's methods update. Its ghost
  counter `writes` counts `db.write()` calls, so the contracts can say which
  paths persist and which do not.

The store invariant `WellFormed` has two parts. Names must be unique per
owner after normalisation. Every history must be sorted by month key with
one record per month. Every mutating method preserves it.

## Model

| member | source | states |
|---|---|---|
| `Seqs.FindIndex` | server_template/services/accountsService.js:78 | `findIndex`: -1 exactly when no element matches; otherwise the index of a matching element with no match before it |
| `Seqs.Find` | server_template/services/accountsService.js:73 | `find`: nothing exactly when no element matches; otherwise a matching element of the input, the one at `FindIndex` |
| `Seqs.Filter` | server_template/services/accountsService.js:152-154 | `filter`: an element is in the result exactly when it is in the input and matches; the result is no longer than the input |
| `Seqs.FilterConcat` | server_template/services/accountsService.js:201-203 | filtering distributes over concatenation, so kept elements keep their relative order |
| `Seqs.FilterKeepsAll` | server_template/services/accountsService.js:151-155 | the filtered length equals the original length exactly when every element is kept, and then the result is the input |
| `Seqs.FilterComplement` | server_template/services/accountsService.js:179-181 | a predicate and its negation split the input: the two filtered lengths add up to the input length |
| `Text.TrimStart` | server_template/services/accountsService.js:30 | the result is a suffix that does not start with white space, and everything dropped is white space |
| `Text.TrimEnd` | server_template/services/accountsService.js:30 | the result is a prefix that does not end with white space, and everything dropped is white space |
| `Text.Trim` | server_template/services/accountsService.js:30 | `trim()`: the result is the part of the input that starts after the leading white space, cut before the trailing white space; neither end of it is white space; it is empty exactly when the input is all white space |
| `Text.TrimmedIsFixed` | server_template/services/accountsService.js:30 | trimming a string whose ends are not white space returns it unchanged |
| `Text.ToUpper` | server_template/services/accountsService.js:30 | `toUpperCase()`: keeps the length, maps each character, and leaves no lower-case ASCII letter |
| `Text.IsSpace` | server_template/services/accountsService.js:30 | definition: the characters `trim()` removes, ECMAScript white space and line terminators |
| `Text.Normalize` | server_template/services/accountsService.js:30-33 | the normal form of a name: no longer than the name, no lower-case ASCII letter left, and empty exactly when the name is all white space |
| `Text.NormalizeIdempotent` | server_template/services/accountsService.js:30-33 | normalising a normalised name changes nothing |
| `Text.TrimIgnoresPadding` | server_template/services/accountsService.js:33 | white space around a name does not change its trimmed form, so such names clash |
| `Ledger.ExchangeRateOrDefault` | server_template/services/accountsService.js:70 | an omitted `exchangeRate` reads as the default 1.0; a given one is used as given |
| `Ledger.LexLe` | server_template/services/accountsService.js:100-102 | the `localeCompare` comparison on month keys: a key is ordered no later than any key it is a prefix of, and never before a key whose first character is smaller |
| `Ledger.LexLeTotal` | server_template/services/accountsService.js:100-102 | the `localeCompare` order on month keys is total |
| `Ledger.LexLeTransitive` | server_template/services/accountsService.js:100-102 | the month-key order is transitive |
| `Ledger.LexLeAntisymmetric` | server_template/services/accountsService.js:100-102 | two keys ordered both ways are equal |
| `Ledger.InsertByMonth` | server_template/services/accountsService.js:100-102 | inserting a record adds exactly that record (length and multiset) |
| `Ledger.SortByMonth` | server_template/services/accountsService.js:132-134 | the sort keeps the length and is a permutation (same multiset of records) |
| `Ledger.InsertKeepsSorted` | server_template/services/accountsService.js:100-102 | inserting into a sorted history gives a sorted history |
| `Ledger.SortByMonthSorted` | server_template/services/accountsService.js:100-102 | after the sort the history is ascending by month key |
| `Ledger.SortedIsFixed` | server_template/services/accountsService.js:132-134 | sorting an already sorted history returns it unchanged |
| `Ledger.InsertKeepsUnique` | server_template/services/accountsService.js:100-102 | inserting a record with a new month key keeps month keys distinct |
| `Ledger.SortKeepsUnique` | server_template/services/accountsService.js:100-102 | sorting keeps distinct month keys distinct |
| `Ledger.SameMonths` | server_template/services/accountsService.js:132-134 | histories with the same multiset of records have the same key set |
| `Ledger.MultisetUpdate` | server_template/services/accountsService.js:82-87 | changing one record in place removes the old record from the multiset and adds the new one |
| `Ledger.Overwrite` | server_template/services/accountsService.js:82-117 | an existing record keeps its month key and takes the common fields of the call; SAVING (:83-86) keeps the loan terms, LOAN (:111-116) also writes `interestRate` and `termsLeft` |
| `Ledger.NewRecord` | server_template/services/accountsService.js:90-128 | a new record has the month key and the fields of the call; a SAVING record (:90-96) has no loan terms, a LOAN record (:120-128) has `interestRate` and `termsLeft` |
| `Ledger.Upsert` | server_template/services/accountsService.js:78-137 | the upsert fails exactly for a type other than SAVING or LOAN; otherwise the returned record has the month key and the fields the type writes |
| `Ledger.MonthPresent` | server_template/services/accountsService.js:78-80 | a month key is in the history exactly when `findIndex` finds it |
| `Ledger.UpsertSorted` | server_template/services/accountsService.js:100-105 | after an upsert the history is sorted and contains the returned record |
| `Ledger.UpsertReplaces` | server_template/services/accountsService.js:80-87 | when the month is present: the length is unchanged, and only the found record is replaced, by the returned one |
| `Ledger.UpsertAppends` | server_template/services/accountsService.js:88-99 | when the month is absent: exactly one record, the returned one, is added |
| `Ledger.UpsertMonths` | server_template/services/accountsService.js:78-102 | the key set after an upsert is the old key set plus the month key |
| `Ledger.UpsertKeepsUnique` | server_template/services/accountsService.js:78-134 | if month keys were distinct before an upsert, they are distinct after it |
| `Ledger.UpsertFields` | server_template/services/accountsService.js:83-96 | SAVING writes the four common fields and keeps the loan terms (none on a new record); LOAN also writes `interestRate` and `termsLeft` |
| `Ledger.UpsertInPlace` | server_template/services/accountsService.js:80-117 | on a sorted history, updating a present month changes that record in its position and nothing else |
| `Ledger.LastWriteWins` | server_template/services/accountsService.js:78-136 | two upserts of one month leave one record for it, holding the second call's values, with no change in length |
| `Ledger.OnlyRecordForMonth` | server_template/services/accountsService.js:78 | in a key-unique history, the record found for a month is the only record for it |
| `Ledger.MonthOrderExample` | server_template/services/accountsService.js:89-102 | upserting "2024-01" then "2023-12" into an empty SAVING history gives the order "2023-12", "2024-01" |
| `Accounts.SameOwnerAndName` | server_template/services/accountsService.js:31-34 | the duplicate test: for an account `b` of the owner whose normalised name is the given one, an account passes exactly when its name clashes with `b` (`NamesClash`) |
| `Accounts.NotIdAndOwner` | server_template/services/accountsService.js:152-154 | definition: the accounts `deleteAccount` keeps, all but those matching both the id and the owner |
| `Accounts.DuplicateSearch` | server_template/services/accountsService.js:30-35 | the duplicate search finds an account exactly when the owner has one whose normalised name equals the new one |
| `Accounts.CreateKeepsWellFormed` | server_template/services/accountsService.js:42-49 | appending a non-clashing account with an empty history keeps the store invariant |
| `Accounts.SecondCreateIsDuplicate` | server_template/services/accountsService.js:31-41 | after a creation, a second creation for the same owner with an equal normalised name is a duplicate |
| `Accounts.FilterKeepsWellFormed` | server_template/services/accountsService.js:152-163 | removing accounts by any filter keeps the store invariant |
| `Accounts.FilterKeepsUniqueNames` | server_template/services/accountsService.js:180 | removing accounts by any filter keeps names unique per owner |
| `Accounts.ReplaceHistoryKeepsWellFormed` | server_template/services/accountsService.js:97-102 | replacing one account's history by a sorted, key-unique history keeps the store invariant |
| `Accounts.NothingDeletedOutcome` | server_template/services/accountsService.js:155-161 | when nothing was removed, the "found but not owned" test holds exactly when some account has the id |
| `Accounts.DeleteRemovesIffMatch` | server_template/services/accountsService.js:151-155 | the filter removes something exactly when some account matches both the id and the owner |
| `Accounts.DeleteAllCount` | server_template/services/accountsService.js:179-181 | the number removed by `deleteAllUserAccounts` is the number of the owner's accounts |
| `Accounts.AccountStore.constructor` | server_template/services/accountsService.js:28-29 | the store starts from the accounts read from the database, with no write made |
| `Accounts.AccountStore.FindAccountById` | server_template/services/accountsService.js:15-17 | returns nothing exactly when no account has that owner id; otherwise the first account whose `ownerId` matches |
| `Accounts.AccountStore.GetUserAccounts` | server_template/services/accountsService.js:198-216 | the owner's accounts in store order, each as often as it is stored (the order-keeping `Filter`); empty exactly when the owner has none |
| `Accounts.AccountStore.CreateAccount` | server_template/services/accountsService.js:27-52 | duplicate exactly when the owner has a clashing name: then no change and no write. Otherwise the new account (given id, owner, name as given, type, empty history) is appended, one write is made, and the new id is returned. The store invariant is kept |
| `Accounts.AccountStore.UpdateMonthlyHistory` | server_template/services/accountsService.js:70-138 | unknown id, or a type other than SAVING/LOAN: no change and no write. Otherwise the first account with that id gets the upserted, sorted history, one write is made, and the returned record is the stored one. The store invariant is kept |
| `Accounts.AccountStore.DeleteAccount` | server_template/services/accountsService.js:148-166 | succeeds exactly when some account matches both keys: then every such account is removed, order is kept, and one write is made. Otherwise no change and no write, and the result is authorization failure exactly when the id exists, "not found" otherwise |
| `Accounts.AccountStore.DeleteAllUserAccounts` | server_template/services/accountsService.js:176-188 | keeps exactly the other owners' accounts in order, reports the number of the owner's accounts (possibly 0), leaves the owner with no accounts, and makes one write |

## Left out

- Persistence: `db.read()`, `db.write()` and `init()`, the lowdb file adapter (`services/db.js`). Every operation works on the in-memory store. The ghost counter `writes` only records where the service calls `db.write()`. `./accountsDb.js` is not part of this model.
- Asynchrony and concurrency: every operation is atomic. The lost update between interleaved read-modify-write sequences is not modelled.
- Result messages: the text of `message` is left out. Only the outcome is modelled (success, duplicate, not found, authorization failure, the returned id, record or count).
- `Date.now()`: the new account's id is the parameter `now`. Ids are not checked for uniqueness, as in the source. Lookups by id take the first match, and `deleteAccount` removes every account matching both keys.
- JavaScript equality: ids and owner ids are integers. The `==` versus `===` coercion between strings and numbers is not modelled.
- `Text.ToUpper`: does not model `toUpperCase()` beyond ASCII letters (for example 'ß' becoming "SS"), because Dafny has no Unicode case tables. White space for `trim()` is the full ECMAScript set.
- `Ledger.LexLe`: `localeCompare` is read as plain lexicographic order on characters. This agrees with locale-aware collation on `"YYYY-MM"` keys but not in general.
- `Ledger.SortByMonth`: `Array.prototype.sort` is modelled as a stable insertion sort that returns a new sequence. The in-place sort, and the object identity that makes the returned record the same object as the stored one, become value equality.
- Numbers: balances, contributions and rates are stored as `real` values and never computed with. There is no floating-point rounding, NaN, or `undefined`. A LOAN call that omits `interestRate` or `termsLeft` stores `undefined` in the source; the model always receives numbers. An omitted `exchangeRate` does get the default 1.0.
- HTTP layer: the controllers, routes, validators, authentication middleware and error handler. `getAllAccounts`, which the accounts controller calls, is not defined by the service and is not modelled.
- Users and cascade: `services/usersService.js` is a hard-coded stub, and no code removes a user and its accounts together. Only `deleteAllUserAccounts`, the operation such a cascade would call, is modelled.
- Where the code differs from what its names and doc comments suggest, the model follows the code:
  - `deleteAccount` is documented as deleting "a specific account by ID" (`server_template/services/accountsService.js:141`), but its filter (:152-154) removes every account matching both id and owner. The model removes all of them.
  - `updateMonthlyHistory` is documented as returning success and the updated record (:68), but for a type other than SAVING and LOAN it falls off the end (:138) and returns `undefined`. This is modelled as the outcome `UnsupportedAccountType`, with no change and no write.
  - `findAccountById` (:15) is named for an account id, but it matches on `ownerId` (:16). The model matches on `ownerId`.
