/** The two read handlers of the HTTP API, with HTTP reduced to a status code
    and a body. Both read the result of `FetchAllLoans`; `/loan` serves every
    loan newest first, `/loan/available` only the active ones, newest first. */
module Api {
  import opened Results
  import opened Entity

  const StatusOK: int := 200
  const StatusInternalServerError: int := 500

  /** The fixed text both handlers answer with when the store fails. */
  const Unavailable: string := "Service unavailable at the moment"

  datatype Body = Text(text: string) | LoansJson(loans: seq<Loan>)

  datatype Response = Response(status: int, body: Body)

  /** Ordered as `sort.Slice` with `loans[i].CreationTime > loans[j].CreationTime`
      leaves a slice: creation time never increases along it. */
  predicate NewestFirst(loans: seq<Loan>) {
    forall i, j :: 0 <= i < j < |loans| ==> loans[i].creationTime >= loans[j].creationTime
  }

  /** Inserts one loan into a newest-first sequence. */
  function InsertByCreation(loan: Loan, loans: seq<Loan>): (r: seq<Loan>)
    requires NewestFirst(loans)
    ensures NewestFirst(r)
    ensures multiset(r) == multiset(loans) + multiset{loan}
    ensures |r| == |loans| + 1
    ensures r[0] == loan || (|loans| > 0 && r[0] == loans[0])
  {
    if |loans| == 0 || loan.creationTime >= loans[0].creationTime then
      [loan] + loans
    else
      var rest := InsertByCreation(loan, loans[1..]);
      assert loans == [loans[0]] + loans[1..];
      [loans[0]] + rest
  }

  /** The sort both handlers apply. `sort.Slice` is not stable, so the only
      promise is a newest-first permutation; ties may come in any order. */
  function SortNewestFirst(loans: seq<Loan>): (r: seq<Loan>)
    ensures NewestFirst(r)
    ensures multiset(r) == multiset(loans)
  {
    if |loans| == 0 then []
    else
      assert loans == [loans[0]] + loans[1..];
      InsertByCreation(loans[0], SortNewestFirst(loans[1..]))
  }

  /** The filter loop of `fetchAvailableLoans`: the active loans, in order. */
  function ActiveOnly(loans: seq<Loan>): (r: seq<Loan>)
    ensures forall i :: 0 <= i < |r| ==> r[i].isActive
    ensures forall loan :: multiset(r)[loan] == (if loan.isActive then multiset(loans)[loan] else 0)
  {
    if |loans| == 0 then []
    else
      var rest := ActiveOnly(loans[1..]);
      assert loans == [loans[0]] + loans[1..];
      if loans[0].isActive then [loans[0]] + rest else rest
  }

  /** `fetchLoans`, the `GET /loan` handler. */
  function FetchLoans(fetched: Result<seq<Loan>>): (r: Response)
    ensures fetched.Err? ==> r == Response(StatusInternalServerError, Text(Unavailable))
    ensures fetched.Ok? ==> r.status == StatusOK && r.body.LoansJson?
    ensures fetched.Ok? ==> multiset(r.body.loans) == multiset(fetched.value)
    ensures fetched.Ok? ==> NewestFirst(r.body.loans)
  {
    match fetched
    case Err(_) => Response(StatusInternalServerError, Text(Unavailable))
    case Ok(loans) => Response(StatusOK, LoansJson(SortNewestFirst(loans)))
  }

  /** `fetchAvailableLoans`, the `GET /loan/available` handler. */
  function FetchAvailableLoans(fetched: Result<seq<Loan>>): (r: Response)
    ensures fetched.Err? ==> r == Response(StatusInternalServerError, Text(Unavailable))
    ensures fetched.Ok? ==> r.status == StatusOK && r.body.LoansJson?
    ensures fetched.Ok? ==> forall i :: 0 <= i < |r.body.loans| ==> r.body.loans[i].isActive
    ensures fetched.Ok? ==>
      forall loan :: multiset(r.body.loans)[loan] == (if loan.isActive then multiset(fetched.value)[loan] else 0)
    ensures fetched.Ok? ==> NewestFirst(r.body.loans)
  {
    match fetched
    case Err(_) => Response(StatusInternalServerError, Text(Unavailable))
    case Ok(loans) =>
      var sorted := SortNewestFirst(ActiveOnly(loans));
      assert forall i :: 0 <= i < |sorted| ==> sorted[i] in multiset(sorted);
      Response(StatusOK, LoansJson(sorted))
  }
}
