# dps-webapi loan mirror, modelled in Dafny

The service listens to the logs of a lending contract and mirrors each loan
into a local key-value store (badger). It also serves the mirror over two
read routes. This project models that pipeline as pure functions:

- **Classification and dispatch** (`Listener`). A log's first topic is
  compared with the keccak hashes of `LoanCreated(address,uint256)`,
  `LoanUpdated(uint256)` and `LoanWithdraw(uint256)`. The comparison is three
  independent `if`s. The matching handler then runs:
  - Created and Updated read a loan snapshot with `getLoanInfo` and save it.
  - Withdraw deletes without reading anything.

  Each handler returns a `Step`: the effects it performed (read, save,
  delete), the store afterwards, and the fault that stops the process, if any.
- **getLoanInfo** (`Listener.GetLoanInfo`). Pack, call and unpack are a
  chain that fails on the first error. After that comes a field-by-field copy
  into `Loan`:
  - the amount becomes exact decimal text;
  - every other integer is narrowed with `big.Int.Int64()`;
  - the loan index comes from the returned tuple, not from the event.
- **Mirror store** (`Storage`). A `map<seq<byte>, Value>`. `SaveLoan` upserts
  under `"loan:" + strconv.FormatInt(index, 10)`. `DeleteLoanByIndex`
  removes `"loan:"` followed by the 8 big-endian bytes of `uint64(index)`.
  `FetchAllLoans` decodes every value under the `"loan:"` prefix.
- **Read routes** (`Api`). `fetchLoans` serves every loan with creation time
  never increasing. `fetchAvailableLoans` does the same for active loans
  only. If the fetch fails, both answer status 500 with "Service unavailable
  at the moment".

Supporting modules:
- `Results`: Option and Result types.
- `Numeric`: bytes, `int64`/`uint64`, big-endian encoding, Go's narrowing.
- `Decimal`: base-10 text and its parse.
- `Entity`: the `Loan` record.
- `Scenarios`: end-to-end properties from a save to what the routes serve.

Three behaviours of the code are easy to misread; the model follows the code in each:
- On a store failure the routes answer 500 (`http.StatusInternalServerError`), not 503.
- Withdraw deletes a key in a different encoding from the one saves use (see Findings).
- A failed `getLoanInfo` ends the process (`log.Fatalf`). It is not a recoverable per-event error.

The `LoanAmount` field is declared `strin` in `blockchain/contractEntity/loan.go:11`.
It is modelled as the evidently intended `string`.

## Model

| member | source | states |
|---|---|---|
| Numeric.BigEndianValue | blockchain/contract_listener.go:95 | the unsigned value `SetBytes` reads from a byte string is below 256^length |
| Numeric.BigEndianBytes | storage/local_storage.go:41-42 | `PutUint64`-style encoding has exactly `width` bytes, and reading them back gives the encoded number |
| Numeric.BigEndianBytesOfValue | blockchain/contract_listener.go:112 | re-encoding the value of a byte string at its width gives the same bytes; with the previous row the two are inverse bijections |
| Numeric.Int64Of | blockchain/contract_listener.go:95 | `Int64()` keeps the input's low 64 bits; values below 2^63 are unchanged |
| Numeric.Int64OfUnique | blockchain/contract_listener.go:158-165 | the narrowed value is the only `int64` with the input's low 64 bits |
| Numeric.Uint64Of | storage/local_storage.go:42 | `uint64(i)` is `i` for non-negative `i`, at least 2^63 for negative `i`, and has the same low 64 bits |
| Numeric.Int64OfUint64 | storage/local_storage.go:42 | reading `uint64(i)` back as signed gives `i` |
| Decimal.NatToDecimal | blockchain/contract_listener.go:159 | `big.Int.String()` is non-empty, all digits, has no leading zero, and has enough digits for the value; it never narrows |
| Decimal.DecimalRoundTrip | blockchain/contract_listener.go:159 | parsing the amount text back yields the original big integer exactly |
| Decimal.DecimalOfValue | blockchain/contract_listener.go:159 | every canonical digit string is the text of its own value, so the amount text is the only canonical text for the amount |
| Decimal.FormatInt | storage/local_storage.go:31 | `strconv.FormatInt` starts with '-' exactly for negative input; after that come digits, enough of them for the magnitude, for either sign |
| Decimal.AsciiBytes | storage/local_storage.go:31 | `[]byte("loan:"+…)` turns ASCII text into one 7-bit byte per character |
| Decimal.AsciiTextOfBytes | storage/local_storage.go:31 | reading those bytes back as text gives the key text, so no information is lost in the conversion |
| Decimal.FormatIntRoundTrip | storage/local_storage.go:31 | parsing the key's decimal text gives the index back |
| Decimal.FormatIntInjective | storage/local_storage.go:31 | distinct indices have distinct decimal texts |
| Storage.SaveKey | storage/local_storage.go:31 | the save key starts with "loan:", and the text after the prefix parses back to the index |
| Storage.DeleteKey | storage/local_storage.go:41-44 | the delete key is "loan:" followed by 8 bytes whose big-endian value is `uint64(index)`, 13 bytes in all |
| Storage.SaveLoan | storage/local_storage.go:24-37 | after a save, the loan's decimal key holds that loan and every other key is unchanged |
| Storage.DeleteLoanByIndex | storage/local_storage.go:39-59 | after a delete, the 8-byte key is absent and every other key is unchanged; deleting an absent key changes nothing |
| Storage.SaveLoanIdempotent | storage/local_storage.go:30-32 | saving the same loan twice gives the same store as saving it once |
| Storage.SaveLoanLastWriteWins | storage/local_storage.go:31 | of two saves with the same index, only the later loan remains |
| Storage.SaveKeyInjective | storage/local_storage.go:31 | different indices are saved under different keys |
| Storage.DeleteKeyNeverSaveKey | storage/local_storage.go:31-44 | for every `int64` index, the delete key differs from the save key |
| Storage.DeleteKeepsSavedRecord | storage/local_storage.go:39-51 | deleting index `i` leaves the record saved for `i` in place, unchanged |
| Storage.DeleteKeyCollision | storage/local_storage.go:41-44 | the delete key of index 3544668469065756977 equals the save key of index 11111111 |
| Storage.DeleteLoanIntended | storage/local_storage.go:31 | the corrected delete removes the key that saves use and leaves every other key unchanged |
| Storage.WellKeyedOnePerIndex | storage/local_storage.go:30-32 | in a store built by saves, two "loan:" keys whose records share an index are the same key |
| Storage.SaveLoanSingleRecord | storage/local_storage.go:30-32 | a save keeps the store well keyed, and afterwards the saved loan is the only record with its index |
| Storage.DeleteLoanKeepsWellKeyed | storage/local_storage.go:39-51 | both the as-written and the corrected delete keep the store well keyed |
| Storage.DeleteLoanIntendedRemovesRecord | storage/local_storage.go:31 | after the corrected delete of `i`, no "loan:" record has index `i` |
| Storage.DecodeAll | storage/local_storage.go:70-84 | decoding fails exactly when some visited value does not decode; otherwise it returns one loan per visited key, in visit order |
| Storage.FetchAllLoans | storage/local_storage.go:61-91 | the fetch succeeds exactly when every "loan:" value decodes; it then returns the loan stored at each visited key |
| Storage.FetchAllLoansContents | storage/local_storage.go:64-84 | a successful fetch returns exactly the loans stored under "loan:" keys, one element per key |
| Storage.WellKeyedFetches | storage/local_storage.go:72-80 | a store built by saves and deletes always fetches without a decode error |
| Storage.ScanOrder | storage/local_storage.go:65-70 | there is an iteration order that visits every "loan:" key exactly once |
| Api.SortNewestFirst | net/api.go:42-44 | the sort returns a permutation of its input, with creation time never increasing |
| Api.ActiveOnly | net/api.go:56-61 | the filter keeps only active loans, and keeps every active loan as often as it occurs |
| Api.FetchLoans | net/api.go:34-46 | on a fetch error: 500 and the fixed text; otherwise 200 and a newest-first permutation of all fetched loans |
| Api.FetchAvailableLoans | net/api.go:48-69 | on a fetch error: 500 and the fixed text; otherwise 200 and exactly the active fetched loans, newest first |
| Listener.LoanOf | blockchain/contract_listener.go:152-165 | addresses and the active flag are copied verbatim; the amount text denotes the tuple's amount exactly; every other integer, including the index, keeps the tuple value's low 64 bits |
| Listener.LoanOfExact | blockchain/contract_listener.go:158-165 | integers below 2^63 are copied unchanged, and the amount parses back to the tuple's amount |
| Listener.FetchTuple | blockchain/contract_listener.go:132-151 | the tuple is obtained exactly when pack, call and unpack all succeed; otherwise the result is the error of the first stage that failed |
| Listener.GetLoanInfo | blockchain/contract_listener.go:131-170 | `getLoanInfo` fails exactly when `FetchTuple` fails and passes on its message, or returns the loan copied from the returned tuple |
| Listener.GetLoanInfoIndexFromTuple | blockchain/contract_listener.go:165 | the loan's index is the narrowed index from the tuple, whatever index the event carried |
| Listener.DecodeIndex | blockchain/contract_listener.go:112 | the decoded index has the low 64 bits of the topic's unsigned value, and equals it below 2^63 |
| Listener.IndexTopicRoundTrip | blockchain/contract_listener.go:125 | decoding the 32-byte topic of a non-negative index gives the index |
| Listener.TopicAddress | blockchain/contract_listener.go:94 | the sender is bytes 12..32 of `Topics[1]`; a topic whose first 12 bytes are zero is exactly the topic of that address |
| Listener.AddressTopicRoundTrip | blockchain/contract_listener.go:94 | bytes 12..32 of an address topic are the address |
| Listener.SaveSnapshot | blockchain/contract_listener.go:103-108 | the loan is read first; if the read fails the process stops with nothing saved, otherwise exactly the loan read is saved |
| Listener.HandleLoanCreated | blockchain/contract_listener.go:93-109 | the Created handler first reads the loan at the `Topics[2]` index; it saves exactly that loan, or stops with the store unchanged when the read fails; a missing topic stops it with no effect |
| Listener.HandleLoanUpdated | blockchain/contract_listener.go:111-122 | the Updated handler first reads the loan at the `Topics[1]` index; it saves exactly that loan, or stops with the store unchanged when the read fails; a missing topic stops it with no effect |
| Listener.HandleLoanWithdraw | blockchain/contract_listener.go:124-129 | the Withdraw handler never reads or saves, and deletes exactly one key: the 8-byte key of the `Topics[1]` index |
| Listener.Dispatch | blockchain/contract_listener.go:78-88 | a log matching no hash triggers no handler, no read and no store change; a log without topics stops the process; the store equals the replay of the effects |
| Listener.ParseLog | blockchain/contract_listener.go:78-95 | the classifier as a lookup: a first topic matching no signature is ignored; a recognised log is a Created event exactly when `Topics[0]` is the Created hash, and its index comes from `Topics[2]` for Created and `Topics[1]` otherwise |
| Listener.ParseEventLog | blockchain/contract_listener.go:94-95 | every log the contract emits reads back as its event: sender from bytes 12..32 of `Topics[1]`, index from the index topic |
| Listener.DispatchRunsOneHandler | blockchain/contract_listener.go:78-88 | with distinct hashes, at most one handler runs: the three `if`s equal one lookup followed by one reconciliation |
| Listener.WithdrawDeletesOnce | blockchain/contract_listener.go:124-129 | a Withdraw log performs exactly one delete, for its decoded index, and no read |
| Listener.SnapshotSaved | blockchain/contract_listener.go:103-121 | a Created or Updated log reads its index once; on error nothing is saved and the process stops; otherwise the read loan is saved |
| Listener.DispatchKeepsWellKeyed | blockchain/contract_listener.go:78-88 | handling any log keeps the store at one record per index |
| Listener.DispatchIdempotent | blockchain/contract_listener.go:78-88 | handling the same log twice leaves the store as handling it once |
| Listener.WithdrawKeepsRecord | blockchain/contract_listener.go:124-129 | as written, a Withdraw of `i` leaves the record saved for `i` unchanged |
| Listener.HandleLoanWithdrawIntended | blockchain/contract_listener.go:124-129 | the corrected Withdraw deletes exactly the save key of its index and never reads |
| Listener.WithdrawIntendedRemovesRecord | blockchain/contract_listener.go:128 | after the corrected Withdraw, no record of the withdrawn index remains |
| Scenarios.SavedLoanIsServed | net/api.go:34-46 | after a save, `/loan` serves the saved loan, and the fetch holds it exactly once: no other fetched record has its index |
| Scenarios.InactiveLoanHiddenFromAvailable | net/api.go:48-69 | once an index's latest snapshot is inactive, `/loan/available` omits that index and `/loan` still serves it |
| Scenarios.FailedFetchIsUnavailable | net/api.go:35-53 | an undecodable stored value makes both routes answer 500 with the fixed text |

## Left out

- Connecting to the node and loading the ABI file are network and file I/O (blockchain/contract_listener.go:33-57). So are the log subscription, the `select` receive loop and `sub.Err()` (lines 59-76). The model handles one log at a time with `Dispatch`.
- keccak256 is not computed. The three signature hashes are a `Signatures` parameter, and the lemmas assume only that they are distinct.
- ABI `Pack`/`Unpack` and `CallContract` are foreign code. They are function-valued fields of `ContractAbi` and `Node` that return a value or an error.
- The reflection in `getLoanInfo` (lines 154-164) is replaced by a `LoanTuple` record with named fields. A missing or mistyped field would make Go panic; that panic is not modelled.
- JSON marshal and unmarshal are not modelled. A stored value is the `Loan` itself, or `Undecodable`. The unreachable marshal failure in `SaveLoan` is not modelled either.
- Badger write and delete errors and their `log.Fatalf` (storage/local_storage.go:34-36, 45-49, 53-56) are storage I/O and are not modelled. For the same reason `DeleteLoanByIndex` returns only the new store, and the `ValueCopy` error (lines 72-75) is not modelled.
- Storage.FetchAllLoans: the iterator's actual order (badger's sorted key order) is not modelled. The order is an input, constrained only to visit every "loan:" key once, and `ScanOrder` shows that such an order exists.
- Transactions, snapshot isolation and the concurrency between the listener and the API are library internals. The model is single-threaded.
- The echo server, CORS, logging middleware, response JSON encoding and every `log.Printf` are left out.
- The sender's checksummed hex form (`_from.Hex()`) is only logged, so the model keeps the raw 20 bytes.
- A log's data payload and block context are never read by the handlers, so `Log` holds only topics.
- `log.Fatalf` and index-out-of-range panics are not modelled as process exits. They are a `Fault` in the step result, and nothing after a fault is modelled.
- Numeric.Int64Of: Go documents `Int64()` as undefined for values that do not fit. The model follows the implementation instead: it keeps the low 64 bits.
- Api.SortNewestFirst: `sort.Slice` is not stable, so loans with equal creation times may come in any order. The contract promises only a newest-first permutation, and the model's own tie order is not a property of the source.
- The JSON body of an empty `/loan` answer is `null`, because `FetchAllLoans` starts from a nil slice. `/loan/available` answers `[]`. Response encoding is not modelled.
- Main program start-up (main.go) only loads the environment and starts the goroutines, so it is not modelled.

## Findings

| source | as written | input that shows it | evidently intended | confidence | as-written member | corrected member |
|---|---|---|---|---|---|---|
| storage/local_storage.go:41-44 | Withdraw deletes `"loan:"` + 8 big-endian bytes of `uint64(index)`, but `SaveLoan` writes `"loan:"` + decimal index (line 31), so the record never goes away | index 5: the save key is "loan:5", the delete key is "loan:" followed by 00 00 00 00 00 00 00 05, and "loan:5" survives. Index 3544668469065756977 (0x3131313131313131): its delete key spells "loan:11111111", so it deletes the record of loan 11111111. Proved in Storage.DeleteKeyNeverSaveKey, Storage.DeleteKeyCollision and Listener.WithdrawKeepsRecord | delete `"loan:" + strconv.FormatInt(index, 10)`, the key the save used; proved to remove the record in Storage.DeleteLoanIntendedRemovesRecord and Listener.WithdrawIntendedRemovesRecord | high; not executed | Storage.DeleteLoanByIndex | Storage.DeleteLoanIntended |
