/** End-to-end properties: what the API serves after the listener has
    reconciled an event into the mirror store. */
module Scenarios {
  import opened Results
  import opened Entity
  import opened Storage
  import opened Api

  /** After a save, a fetch succeeds and serves the saved loan as the only
      record of its index. */
  lemma SavedLoanIsServed(store: Store, loan: Loan, order: seq<Key>)
    requires WellKeyed(store)
    requires IsScanOrder(SaveLoan(store, loan), order)
    ensures FetchAllLoans(SaveLoan(store, loan), order).Ok?
    ensures loan in FetchLoans(FetchAllLoans(SaveLoan(store, loan), order)).body.loans
    ensures forall other ::
      (other in FetchAllLoans(SaveLoan(store, loan), order).value && other.loanIndex == loan.loanIndex)
        ==> other == loan
    ensures exists i ::
      && 0 <= i < |FetchAllLoans(SaveLoan(store, loan), order).value|
      && FetchAllLoans(SaveLoan(store, loan), order).value[i] == loan
      && forall j ::
           (0 <= j < |FetchAllLoans(SaveLoan(store, loan), order).value|
            && FetchAllLoans(SaveLoan(store, loan), order).value[j].loanIndex == loan.loanIndex)
             ==> j == i
  {
    var saved := SaveLoan(store, loan);
    SaveLoanSingleRecord(store, loan);
    WellKeyedFetches(saved, order);
    FetchAllLoansContents(saved, order);
    var fetched := FetchAllLoans(saved, order);
    var v := fetched.value;
    assert SaveKey(loan.loanIndex) in PrefixedKeys(saved);
    assert loan in v;
    var i :| 0 <= i < |order| && order[i] == SaveKey(loan.loanIndex);
    assert v[i] == loan;
    forall j | 0 <= j < |v| && v[j].loanIndex == loan.loanIndex
      ensures j == i
    {
      assert order[j] in PrefixedKeys(saved);
      WellKeyedOnePerIndex(saved, order[j], order[i]);
    }
    var served := FetchLoans(fetched).body.loans;
    assert loan in multiset(served) by {
      assert loan in multiset(fetched.value);
    }
  }

  /** Once the latest snapshot of an index is inactive, `/loan/available`
      leaves that index out while `/loan` still serves it. */
  lemma InactiveLoanHiddenFromAvailable(store: Store, loan: Loan, order: seq<Key>)
    requires WellKeyed(store)
    requires !loan.isActive
    requires IsScanOrder(SaveLoan(store, loan), order)
    ensures loan in FetchLoans(FetchAllLoans(SaveLoan(store, loan), order)).body.loans
    ensures FetchAvailableLoans(FetchAllLoans(SaveLoan(store, loan), order)).status == StatusOK
    ensures forall other ::
      (other in FetchAvailableLoans(FetchAllLoans(SaveLoan(store, loan), order)).body.loans)
        ==> other.loanIndex != loan.loanIndex
  {
    SavedLoanIsServed(store, loan, order);
    var fetched := FetchAllLoans(SaveLoan(store, loan), order);
    var available := FetchAvailableLoans(fetched).body.loans;
    forall other | other in available
      ensures other.loanIndex != loan.loanIndex
    {
      var i :| 0 <= i < |available| && available[i] == other;
      assert other.isActive;
      assert other in multiset(available);
      assert other in multiset(fetched.value);
    }
  }

  /** A store that cannot be read answers both routes with the same fixed
      text and status 500, and no loan data. */
  lemma FailedFetchIsUnavailable(store: Store, order: seq<Key>)
    requires IsScanOrder(store, order)
    requires exists k :: k in PrefixedKeys(store) && store[k] == Undecodable
    ensures FetchLoans(FetchAllLoans(store, order)) == Response(StatusInternalServerError, Text(Unavailable))
    ensures FetchAvailableLoans(FetchAllLoans(store, order)) == Response(StatusInternalServerError, Text(Unavailable))
  {
  }
}
