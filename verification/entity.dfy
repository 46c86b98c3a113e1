/** The mirrored record: the `Loan` struct of the contract entity package. */
module Entity {
  import opened Numeric

  /** go-ethereum's `common.Address`: 20 raw bytes, not a number. */
  type Address = s: seq<byte> | |s| == 20 witness seq(20, _ => 0)

  /** One lending position as it is stored and served. `loanAmount` is the
      decimal text of an unbounded integer; every other integer is an `int64`
      narrowed from the chain's `uint256`. */
  datatype Loan = Loan(
    lender: Address,
    borrower: Address,
    tokenId: int64,
    loanAmount: string,
    creationTime: int64,
    startTime: int64,
    endTime: int64,
    acceptedToken: Address,
    isActive: bool,
    loanIndex: int64)
}
