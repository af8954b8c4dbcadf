/** The normalized accounting entities. Identifiers are opaque keys of which only the order matters. */
module Accounting {
  import opened Integers
  import opened Outcomes
  import opened SortedMaps

  type AccountId = int
  type TransactionId = int
  type PostingId = int
  type SourceRow = int
  type Date = int

  datatype AccountType = Asset | Liability | Equity | Income | Expense | CostOfGoodsSold | Other(name: string) {
    predicate IsProfitAndLoss() {
      Income? || Expense? || CostOfGoodsSold?
    }
  }

  datatype Account = Account(
    id: AccountId,
    number: Option<string>,
    name: string,
    parent: Option<AccountId>,
    accountType: AccountType)

  datatype CurrentState = Current | Superseded | Deleted | Ambiguous

  /** Debits are positive, credits negative. */
  datatype Posting = Posting(
    transactionId: TransactionId,
    id: PostingId,
    accountId: AccountId,
    date: Date,
    signedMinorUnits: i64,
    state: CurrentState,
    sourceRow: SourceRow)

  /** A chart of accounts: a map from identifiers, in identifier order. */
  type Accounts = seq<Entry<Account>>

  ghost predicate WellKeyed(accounts: Accounts) {
    Ascending(accounts) && forall i :: 0 <= i < |accounts| ==> accounts[i].value.id == accounts[i].key
  }

  ghost function Ids(accounts: Accounts): (ids: set<AccountId>)
    ensures forall id :: id in ids <==> HasKey(accounts, id)
  {
    set i | 0 <= i < |accounts| :: accounts[i].key
  }
}
