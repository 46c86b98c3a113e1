/** The mirror store: badger reduced to a map from byte keys to stored values.
    `SaveLoan` writes under `"loan:" + decimal(index)`, `DeleteLoanByIndex`
    removes `"loan:" + 8-byte big-endian(uint64(index))`, and `FetchAllLoans`
    decodes every value under the `"loan:"` prefix. */
module Storage {
  import opened Results
  import opened Numeric
  import opened Decimal
  import opened Entity

  type Key = seq<byte>

  /** What a key holds: the JSON of a `Loan`, or bytes `json.Unmarshal` rejects
      (written by something other than `SaveLoan`). */
  datatype Value = Json(loan: Loan) | Undecodable

  type Store = map<Key, Value>

  /** The bytes of "loan:". */
  const LoanPrefix: Key := AsciiBytes("loan:")

  /** The error `json.Unmarshal` reports; its wording is not modelled. */
  const UnmarshalError: string := "json: cannot unmarshal stored loan"

  predicate HasLoanPrefix(k: Key) {
    LoanPrefix <= k
  }

  /** The key `SaveLoan` writes: `"loan:" + strconv.FormatInt(index, 10)`. */
  function SaveKey(index: int64): (k: Key)
    ensures HasLoanPrefix(k)
    ensures 6 <= |k|
    ensures ParseInt(AsciiText(k[5..])) == Some(index as int)
  {
    FormatIntIsAscii(index);
    var k := LoanPrefix + AsciiBytes(FormatInt(index));
    assert k[5..] == AsciiBytes(FormatInt(index));
    AsciiTextOfBytes(FormatInt(index));
    FormatIntRoundTrip(index);
    k
  }

  /** The key `DeleteLoanByIndex` removes: `"loan:"` followed by the eight
      big-endian bytes of `uint64(index)`. */
  function DeleteKey(index: int64): (k: Key)
    ensures HasLoanPrefix(k)
    ensures |k| == 13
    ensures BigEndianValue(k[5..]) == Uint64Of(index)
  {
    var k := LoanPrefix + BigEndianBytes(Uint64Of(index), 8);
    assert k[5..] == BigEndianBytes(Uint64Of(index), 8);
    k
  }

  /** `SaveLoan`: an upsert of the loan's JSON under its decimal key. */
  function SaveLoan(store: Store, loan: Loan): (r: Store)
    ensures SaveKey(loan.loanIndex) in r && r[SaveKey(loan.loanIndex)] == Json(loan)
    ensures forall k :: k != SaveKey(loan.loanIndex) ==> (k in r <==> k in store)
    ensures forall k :: k in store && k != SaveKey(loan.loanIndex) ==> r[k] == store[k]
  {
    store[SaveKey(loan.loanIndex) := Json(loan)]
  }

  /** `DeleteLoanByIndex`: removes the big-endian key; a missing key is no error. */
  function DeleteLoanByIndex(store: Store, index: int64): (r: Store)
    ensures DeleteKey(index) !in r
    ensures forall k :: k != DeleteKey(index) ==> (k in r <==> k in store)
    ensures forall k :: k in r ==> r[k] == store[k]
  {
    store - {DeleteKey(index)}
  }

  /** Saving the same loan twice leaves the store as saving it once. */
  lemma SaveLoanIdempotent(store: Store, loan: Loan)
    ensures SaveLoan(SaveLoan(store, loan), loan) == SaveLoan(store, loan)
  {
  }

  /** Two saves of the same index: the later loan is the one that remains. */
  lemma SaveLoanLastWriteWins(store: Store, first: Loan, second: Loan)
    requires first.loanIndex == second.loanIndex
    ensures SaveLoan(SaveLoan(store, first), second) == SaveLoan(store, second)
  {
  }

  /** Distinct indices are saved under distinct keys. */
  lemma SaveKeyInjective(i: int64, j: int64)
    requires SaveKey(i) == SaveKey(j)
    ensures i == j
  {
    var ti, tj := FormatInt(i), FormatInt(j);
    FormatIntIsAscii(i);
    FormatIntIsAscii(j);
    assert SaveKey(i)[5..] == AsciiBytes(ti);
    assert SaveKey(j)[5..] == AsciiBytes(tj);
    assert |ti| == |tj|;
    forall n | 0 <= n < |ti|
      ensures ti[n] == tj[n]
    {
      assert AsciiBytes(ti)[n] == AsciiBytes(tj)[n];
    }
    assert ti == tj;
    FormatIntInjective(i, j);
  }

  /** For every index the delete key differs from the save key: a delete of
      index `i` never removes the record `SaveLoan` wrote for `i`. */
  lemma DeleteKeyNeverSaveKey(index: int64)
    ensures DeleteKey(index) != SaveKey(index)
  {
    var text := FormatInt(index);
    if |text| == 8 {
      FormatIntIsAscii(index);
      assert SaveKey(index)[5] == text[0] as int;
      var u := Uint64Of(index);
      LeadingByte(u, 8);
      Pow256Seven();
      assert DeleteKey(index)[5] == u / 0x100_0000_0000_0000;
      if index >= 0 {
        Pow10Eight();
        assert u / 0x100_0000_0000_0000 == 0;
        assert IsDigit(text[0]);
      } else {
        assert text[0] == '-';
        assert u / 0x100_0000_0000_0000 >= 128;
      }
    }
  }

  lemma Pow256Seven()
    ensures Pow256(7) == 0x100_0000_0000_0000
  {
  }

  lemma Pow10Eight()
    ensures Pow10(8) == 100_000_000
  {
  }

  /** Withdrawing index `i` as written leaves the record saved for `i` in place. */
  lemma DeleteKeepsSavedRecord(store: Store, index: int64)
    requires SaveKey(index) in store
    ensures SaveKey(index) in DeleteLoanByIndex(store, index)
    ensures DeleteLoanByIndex(store, index)[SaveKey(index)] == store[SaveKey(index)]
  {
    DeleteKeyNeverSaveKey(index);
  }

  /** The 8-byte key of index 0x3131313131313131 spells "loan:11111111", the
      decimal key of index 11111111: deleting the first removes the second. */
  lemma DeleteKeyCollision()
    ensures DeleteKey(3544668469065756977) == SaveKey(11111111)
  {
    var digits := "11111111";
    OnesValue();
    DecimalOfValue(digits);
    var eight: seq<byte> := [49, 49, 49, 49, 49, 49, 49, 49];
    OnesBytesValue();
    BigEndianBytesOfValue(eight);
    assert AsciiBytes(digits) == eight;
  }

  lemma OnesValue()
    ensures DecimalValue("11111111") == 11111111
  {
    var t := "11111111";
    assert DecimalValue(t[..1]) == 1;
    assert t[..2][..1] == t[..1];
    assert DecimalValue(t[..2]) == 11;
    assert t[..3][..2] == t[..2];
    assert DecimalValue(t[..3]) == 111;
    assert t[..4][..3] == t[..3];
    assert DecimalValue(t[..4]) == 1111;
    assert t[..5][..4] == t[..4];
    assert DecimalValue(t[..5]) == 11111;
    assert t[..6][..5] == t[..5];
    assert DecimalValue(t[..6]) == 111111;
    assert t[..7][..6] == t[..6];
    assert DecimalValue(t[..7]) == 1111111;
    assert t[..8][..7] == t[..7];
    assert t[..8] == t;
  }

  lemma OnesBytesValue()
    ensures BigEndianValue([49, 49, 49, 49, 49, 49, 49, 49]) == 3544668469065756977
  {
    var b: seq<byte> := [49, 49, 49, 49, 49, 49, 49, 49];
    assert BigEndianValue(b[7..]) == 0x31;
    assert b[6..][1..] == b[7..];
    assert BigEndianValue(b[6..]) == 0x3131;
    assert b[5..][1..] == b[6..];
    assert BigEndianValue(b[5..]) == 0x31_3131;
    assert b[4..][1..] == b[5..];
    assert BigEndianValue(b[4..]) == 0x3131_3131;
    assert b[3..][1..] == b[4..];
    assert BigEndianValue(b[3..]) == 0x31_3131_3131;
    assert b[2..][1..] == b[3..];
    assert BigEndianValue(b[2..]) == 0x3131_3131_3131;
    assert b[1..][1..] == b[2..];
    assert BigEndianValue(b[1..]) == 0x31_3131_3131_3131;
  }

  /** The delete the surrounding code intends: remove the key `SaveLoan` used. */
  function DeleteLoanIntended(store: Store, index: int64): (r: Store)
    ensures SaveKey(index) !in r
    ensures forall k :: k != SaveKey(index) ==> (k in r <==> k in store)
    ensures forall k :: k in r ==> r[k] == store[k]
  {
    store - {SaveKey(index)}
  }

  /** Every `"loan:"` key holds a decodable loan stored under that loan's own
      save key: the shape `SaveLoan` and the deletes keep. */
  ghost predicate WellKeyed(store: Store) {
    forall k :: k in store && HasLoanPrefix(k) ==>
      store[k].Json? && k == SaveKey(store[k].loan.loanIndex)
  }

  /** A well-keyed store holds at most one record per loan index. */
  lemma WellKeyedOnePerIndex(store: Store, k1: Key, k2: Key)
    requires WellKeyed(store)
    requires k1 in store && HasLoanPrefix(k1)
    requires k2 in store && HasLoanPrefix(k2)
    requires store[k1].loan.loanIndex == store[k2].loan.loanIndex
    ensures k1 == k2
  {
  }

  /** After `SaveLoan(l)` on a well-keyed store, the store is still well keyed
      and `l` is the only record with `l`'s index. */
  lemma SaveLoanSingleRecord(store: Store, loan: Loan)
    requires WellKeyed(store)
    ensures WellKeyed(SaveLoan(store, loan))
    ensures forall k ::
      (k in SaveLoan(store, loan) && HasLoanPrefix(k) && SaveLoan(store, loan)[k].loan.loanIndex == loan.loanIndex)
        ==> SaveLoan(store, loan)[k] == Json(loan)
  {
  }

  /** Deleting any key keeps the store well keyed. */
  lemma DeleteLoanKeepsWellKeyed(store: Store, index: int64)
    requires WellKeyed(store)
    ensures WellKeyed(DeleteLoanByIndex(store, index))
    ensures WellKeyed(DeleteLoanIntended(store, index))
  {
  }

  /** The intended delete leaves no record with the deleted index. */
  lemma DeleteLoanIntendedRemovesRecord(store: Store, index: int64)
    requires WellKeyed(store)
    ensures forall k :: k in DeleteLoanIntended(store, index) && HasLoanPrefix(k) ==>
      DeleteLoanIntended(store, index)[k].loan.loanIndex != index
  {
  }

  /** The keys a prefix iteration over `"loan:"` visits. */
  function PrefixedKeys(store: Store): set<Key> {
    set k | k in store && HasLoanPrefix(k)
  }

  predicate Distinct(keys: seq<Key>) {
    forall i, j :: 0 <= i < j < |keys| ==> keys[i] != keys[j]
  }

  /** An order in which badger's prefix iterator may visit the store: every
      `"loan:"` key exactly once. */
  ghost predicate IsScanOrder(store: Store, order: seq<Key>) {
    && Distinct(order)
    && forall k :: k in order <==> k in PrefixedKeys(store)
  }

  /** Decodes the values under `keys` in order, stopping at the first value
      that does not decode (the loop body of `FetchAllLoans`). */
  function DecodeAll(store: Store, keys: seq<Key>): (r: Result<seq<Loan>>)
    requires forall k :: k in keys ==> k in store
    ensures r.Ok? <==> forall i :: 0 <= i < |keys| ==> store[keys[i]].Json?
    ensures r.Err? ==> r.msg == UnmarshalError
    ensures r.Ok? ==> |r.value| == |keys|
    ensures r.Ok? ==> forall i :: 0 <= i < |keys| ==> store[keys[i]] == Json(r.value[i])
  {
    if |keys| == 0 then Ok([])
    else
      match store[keys[0]]
      case Undecodable => Err(UnmarshalError)
      case Json(loan) =>
        var rest :- DecodeAll(store, keys[1..]);
        Ok([loan] + rest)
  }

  /** `FetchAllLoans`: the loans under every `"loan:"` key, in the iterator's
      order, or the decode error if any value fails to decode. */
  function FetchAllLoans(store: Store, order: seq<Key>): (r: Result<seq<Loan>>)
    requires IsScanOrder(store, order)
    ensures r.Ok? <==> forall k :: k in PrefixedKeys(store) ==> store[k].Json?
    ensures r.Ok? ==> |r.value| == |order|
    ensures r.Ok? ==> forall i :: 0 <= i < |order| ==> order[i] in store && store[order[i]] == Json(r.value[i])
  {
    var r := DecodeAll(store, order);
    assert r.Ok? <== forall k :: k in PrefixedKeys(store) ==> store[k].Json? by {
      if forall k :: k in PrefixedKeys(store) ==> store[k].Json? {
        assert forall i :: 0 <= i < |order| ==> order[i] in PrefixedKeys(store);
      }
    }
    r
  }

  /** A sequence without repetitions has as many elements as its set. */
  lemma {:induction false} DistinctCard(keys: seq<Key>)
    requires Distinct(keys)
    ensures |set k | k in keys| == |keys|
  {
    if |keys| > 0 {
      var rest := keys[1..];
      assert Distinct(rest);
      DistinctCard(rest);
      assert (set k | k in keys) == (set k | k in rest) + {keys[0]};
      assert keys[0] !in (set k | k in rest);
    }
  }

  /** What a successful fetch returns: exactly the loans stored under the
      `"loan:"` keys, one element per key. */
  lemma FetchAllLoansContents(store: Store, order: seq<Key>)
    requires IsScanOrder(store, order)
    requires FetchAllLoans(store, order).Ok?
    ensures |FetchAllLoans(store, order).value| == |PrefixedKeys(store)|
    ensures forall loan :: loan in FetchAllLoans(store, order).value <==>
      exists k :: k in PrefixedKeys(store) && store[k] == Json(loan)
  {
    var loans := FetchAllLoans(store, order).value;
    DistinctCard(order);
    assert (set k | k in order) == PrefixedKeys(store);
    forall loan | loan in loans
      ensures exists k :: k in PrefixedKeys(store) && store[k] == Json(loan)
    {
      var i :| 0 <= i < |loans| && loans[i] == loan;
      assert order[i] in PrefixedKeys(store);
    }
    forall loan | exists k :: k in PrefixedKeys(store) && store[k] == Json(loan)
      ensures loan in loans
    {
      var k :| k in PrefixedKeys(store) && store[k] == Json(loan);
      var i :| 0 <= i < |order| && order[i] == k;
      assert loans[i] == loan;
    }
  }

  /** A well-keyed store always fetches successfully. */
  lemma WellKeyedFetches(store: Store, order: seq<Key>)
    requires WellKeyed(store) && IsScanOrder(store, order)
    ensures FetchAllLoans(store, order).Ok?
  {
  }

  /** Builds one order the prefix iterator may use, showing that every store
      can be scanned. */
  method ScanOrder(store: Store) returns (order: seq<Key>)
    ensures IsScanOrder(store, order)
  {
    var pending := PrefixedKeys(store);
    order := [];
    while pending != {}
      invariant Distinct(order)
      invariant forall k :: k in pending ==> k !in order
      invariant forall k :: k in PrefixedKeys(store) <==> k in order || k in pending
      decreases |pending|
    {
      var k :| k in pending;
      order := order + [k];
      pending := pending - {k};
    }
  }
}
