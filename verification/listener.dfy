/** The contract listener: each log received from the node is matched against
    the three event-signature hashes, and the matching handler reconciles the
    mirror store. Created and Updated read the loan from the contract with
    `getLoanInfo` and save it; Withdraw deletes without reading.

    keccak256, ABI packing and unpacking, and the node call are foreign: the
    hashes are a parameter, and the other three are function-valued fields
    that return a value or an error. */
module Listener {
  import opened Results
  import opened Numeric
  import opened Decimal
  import opened Entity
  import opened Storage

  /** go-ethereum's `common.Hash`: one 32-byte log topic. */
  type Hash = s: seq<byte> | |s| == 32 witness seq(32, _ => 0)

  /** A raw log as the handlers read it: only its topics matter. */
  datatype Log = Log(topics: seq<Hash>)

  /** keccak256 of "LoanCreated(address,uint256)", "LoanUpdated(uint256)" and
      "LoanWithdraw(uint256)". */
  datatype Signatures = Signatures(created: Hash, updated: Hash, withdraw: Hash) {
    /** Distinct signatures hash to distinct values. */
    predicate Distinct() {
      created != updated && created != withdraw && updated != withdraw
    }
  }

  /** The struct `getLoanInfo` returns once unpacked; every `uint256` is a `nat`. */
  datatype LoanTuple = LoanTuple(
    lender: Address,
    borrower: Address,
    tokenId: nat,
    loanAmount: nat,
    creationTime: nat,
    startTime: nat,
    endTime: nat,
    acceptedToken: Address,
    isActive: bool,
    loanIndex: nat)

  /** `dpsABI.Pack("getLoanInfo", ·)` and `dpsABI.Unpack("getLoanInfo", ·)`. */
  datatype ContractAbi = ContractAbi(
    packGetLoanInfo: int -> Result<seq<byte>>,
    unpackGetLoanInfo: seq<byte> -> Result<LoanTuple>)

  /** `client.CallContract` against the loan contract's address. */
  datatype Node = Node(callContract: seq<byte> -> Result<seq<byte>>)

  datatype Env = Env(sigs: Signatures, abi: ContractAbi, node: Node)

  // ---------------------------------------------------------------------------
  // Reading a loan from the contract

  /** The field-by-field copy at the end of `getLoanInfo`: addresses and the
      flag verbatim, the amount as exact decimal text, every other integer
      narrowed with `Int64()`, and the index taken from the tuple. */
  function LoanOf(t: LoanTuple): (l: Loan)
    ensures l.lender == t.lender && l.borrower == t.borrower && l.acceptedToken == t.acceptedToken
    ensures l.isActive == t.isActive
    ensures AllDigits(l.loanAmount) && DecimalValue(l.loanAmount) == t.loanAmount
    ensures SameLow64(t.tokenId, l.tokenId) && SameLow64(t.creationTime, l.creationTime)
    ensures SameLow64(t.startTime, l.startTime) && SameLow64(t.endTime, l.endTime)
    ensures SameLow64(t.loanIndex, l.loanIndex)
  {
    DecimalRoundTrip(t.loanAmount);
    Loan(
      lender := t.lender,
      borrower := t.borrower,
      tokenId := Int64Of(t.tokenId),
      loanAmount := NatToDecimal(t.loanAmount),
      creationTime := Int64Of(t.creationTime),
      startTime := Int64Of(t.startTime),
      endTime := Int64Of(t.endTime),
      acceptedToken := t.acceptedToken,
      isActive := t.isActive,
      loanIndex := Int64Of(t.loanIndex))
  }

  /** Values below 2^63 survive the copy unchanged; the amount survives at any size. */
  lemma LoanOfExact(t: LoanTuple)
    requires t.tokenId < TWO_63 && t.creationTime < TWO_63 && t.startTime < TWO_63
    requires t.endTime < TWO_63 && t.loanIndex < TWO_63
    ensures LoanOf(t).tokenId == t.tokenId && LoanOf(t).creationTime == t.creationTime
    ensures LoanOf(t).startTime == t.startTime && LoanOf(t).endTime == t.endTime
    ensures LoanOf(t).loanIndex == t.loanIndex
    ensures ParseInt(LoanOf(t).loanAmount) == Some(t.loanAmount)
  {
    DecimalRoundTrip(t.loanAmount);
  }

  /** Pack, call, unpack: the foreign part of `getLoanInfo`. */
  function FetchTuple(abi: ContractAbi, node: Node, index: int64): (r: Result<LoanTuple>)
    ensures r.Ok? <==>
      && abi.packGetLoanInfo(index).Ok?
      && node.callContract(abi.packGetLoanInfo(index).value).Ok?
      && abi.unpackGetLoanInfo(node.callContract(abi.packGetLoanInfo(index).value).value).Ok?
    ensures abi.packGetLoanInfo(index).Err? ==> r == Err(abi.packGetLoanInfo(index).msg)
    ensures abi.packGetLoanInfo(index).Ok? && node.callContract(abi.packGetLoanInfo(index).value).Err? ==>
      r == Err(node.callContract(abi.packGetLoanInfo(index).value).msg)
    ensures abi.packGetLoanInfo(index).Ok? && node.callContract(abi.packGetLoanInfo(index).value).Ok? ==>
      r == abi.unpackGetLoanInfo(node.callContract(abi.packGetLoanInfo(index).value).value)
  {
    var payload :- abi.packGetLoanInfo(index);
    var output :- node.callContract(payload);
    abi.unpackGetLoanInfo(output)
  }

  /** `getLoanInfo`: `(nil, err)` when packing, the call or unpacking fails,
      otherwise the loan copied from the tuple the contract returned. */
  function GetLoanInfo(abi: ContractAbi, node: Node, index: int64): (r: Result<Loan>)
    ensures r.Ok? <==> FetchTuple(abi, node, index).Ok?
    ensures r.Err? ==> r.msg == FetchTuple(abi, node, index).msg
    ensures r.Ok? ==> r.value == LoanOf(FetchTuple(abi, node, index).value)
  {
    var tuple :- FetchTuple(abi, node, index);
    Ok(LoanOf(tuple))
  }

  /** The saved loan's index is the one the contract reports, whatever index
      the event carried. */
  lemma GetLoanInfoIndexFromTuple(abi: ContractAbi, node: Node, index: int64)
    requires GetLoanInfo(abi, node, index).Ok?
    ensures GetLoanInfo(abi, node, index).value.loanIndex == Int64Of(FetchTuple(abi, node, index).value.loanIndex)
  {
    var t := FetchTuple(abi, node, index).value;
    Int64OfUnique(t.loanIndex, LoanOf(t).loanIndex);
  }

  // ---------------------------------------------------------------------------
  // Decoding topics

  /** `new(big.Int).SetBytes(topic.Bytes()).Int64()`. */
  function DecodeIndex(h: Hash): (i: int64)
    ensures SameLow64(BigEndianValue(h), i)
    ensures BigEndianValue(h) < TWO_63 ==> i == BigEndianValue(h)
  {
    Int64Of(BigEndianValue(h))
  }

  /** `common.BytesToAddress(topic[12:])`: the last 20 bytes of the topic. */
  function TopicAddress(h: Hash): (a: Address)
    ensures (forall i :: 0 <= i < 12 ==> h[i] == 0) ==> AddressTopic(a) == h
  {
    assert (forall i :: 0 <= i < 12 ==> h[i] == 0) ==> h[..12] == seq(12, _ => 0);
    assert h == h[..12] + h[12..];
    h[12..]
  }

  /** The topic an indexed `uint256` argument becomes: 32 big-endian bytes. */
  function IndexTopic(i: int64): (h: Hash)
    requires 0 <= i
  {
    assert Pow256(8) == TWO_64;
    Pow256Mono(8, 32);
    BigEndianBytes(i, 32)
  }

  /** The topic an indexed `address` argument becomes: 12 zero bytes, then the address. */
  function AddressTopic(a: Address): Hash {
    seq(12, _ => 0) + a
  }

  lemma {:induction false} Pow256Mono(m: nat, n: nat)
    requires m <= n
    ensures Pow256(m) <= Pow256(n)
  {
    if m < n {
      Pow256Mono(m, n - 1);
    }
  }

  /** Decoding the topic of a non-negative index gives the index back. */
  lemma IndexTopicRoundTrip(i: int64)
    requires 0 <= i
    ensures DecodeIndex(IndexTopic(i)) == i
  {
  }

  /** Decoding the topic of an address gives the address back. */
  lemma AddressTopicRoundTrip(a: Address)
    ensures TopicAddress(AddressTopic(a)) == a
  {
  }

  // ---------------------------------------------------------------------------
  // Events, effects and the handlers

  /** The three events the contract emits, with their indexed arguments. */
  datatype Event =
    | LoanCreated(from: Address, loanIndex: int64)
    | LoanUpdated(loanIndex: int64)
    | LoanWithdraw(loanIndex: int64)

  /** What a handler does to the outside world, in order. */
  datatype Effect = LoanInfoRead(index: int64) | Saved(loan: Loan) | Deleted(key: Key)

  /** Why the process stops: a `log.Fatalf` after a failed `getLoanInfo`, or
      the runtime panic of indexing a missing topic. */
  datatype Fault = TopicOutOfRange | LoanInfoFailed(msg: string)

  /** The outcome of handling one log: the effects performed, the store
      afterwards, and the fault that stopped the process, if any. */
  datatype Step = Step(effects: seq<Effect>, store: Store, fault: Option<Fault>)

  /** The store one effect leaves behind; a read changes nothing. */
  function Apply(store: Store, e: Effect): Store {
    match e
    case LoanInfoRead(_) => store
    case Saved(loan) => SaveLoan(store, loan)
    case Deleted(key) => store - {key}
  }

  /** The store that performing `effects` in order leaves behind. */
  function Replay(store: Store, effects: seq<Effect>): Store
    decreases |effects|
  {
    if |effects| == 0 then store else Replay(Apply(store, effects[0]), effects[1..])
  }

  lemma {:induction false} ReplayAppend(store: Store, first: seq<Effect>, second: seq<Effect>)
    ensures Replay(store, first + second) == Replay(Replay(store, first), second)
    decreases |first|
  {
    if |first| > 0 {
      var next := Apply(store, first[0]);
      assert (first + second)[0] == first[0];
      assert (first + second)[1..] == first[1..] + second;
      assert Replay(store, first + second) == Replay(next, first[1..] + second);
      assert Replay(store, first) == Replay(next, first[1..]);
      ReplayAppend(next, first[1..], second);
    } else {
      assert first + second == second;
    }
  }

  /** Every effect keeps the store well keyed, so any replay does. */
  lemma {:induction false} ReplayKeepsWellKeyed(store: Store, effects: seq<Effect>)
    requires WellKeyed(store)
    ensures WellKeyed(Replay(store, effects))
    decreases |effects|
  {
    if |effects| > 0 {
      match effects[0] {
        case LoanInfoRead(_) =>
        case Saved(loan) => SaveLoanSingleRecord(store, loan);
        case Deleted(_) =>
      }
      ReplayKeepsWellKeyed(Apply(store, effects[0]), effects[1..]);
    }
  }

  /** The shared tail of the Created and Updated handlers: read the loan, stop
      the process if that fails, otherwise save exactly what was read. */
  function SaveSnapshot(env: Env, store: Store, index: int64): (r: Step)
    ensures |r.effects| >= 1 && r.effects[0] == LoanInfoRead(index)
    ensures r.fault.None? <==> GetLoanInfo(env.abi, env.node, index).Ok?
    ensures r.fault.Some? ==>
      && r.fault == Some(LoanInfoFailed(GetLoanInfo(env.abi, env.node, index).msg))
      && r.effects == [LoanInfoRead(index)]
    ensures r.fault.None? ==> r.effects == [LoanInfoRead(index), Saved(GetLoanInfo(env.abi, env.node, index).value)]
    ensures r.store == Replay(store, r.effects)
  {
    match GetLoanInfo(env.abi, env.node, index)
    case Err(msg) => Step([LoanInfoRead(index)], store, Some(LoanInfoFailed(msg)))
    case Ok(loan) =>
      var effects := [LoanInfoRead(index), Saved(loan)];
      assert Replay(store, effects) == Replay(store, effects[1..]);
      assert effects[1..][1..] == [];
      assert Replay(store, effects[1..]) == Replay(SaveLoan(store, loan), []);
      Step(effects, SaveLoan(store, loan), None)
  }

  /** `handleLoanCreatedEvent`: the index is `Topics[2]`; `Topics[1]` carries the
      sender, which is only logged. */
  function HandleLoanCreated(env: Env, store: Store, log: Log): (r: Step)
    ensures r.store == Replay(store, r.effects)
    ensures |log.topics| < 3 ==> r.fault == Some(TopicOutOfRange) && r.effects == []
    ensures |log.topics| >= 3 ==> |r.effects| >= 1 && r.effects[0] == LoanInfoRead(DecodeIndex(log.topics[2]))
    ensures |log.topics| >= 3 ==> (r.fault.None? <==> GetLoanInfo(env.abi, env.node, DecodeIndex(log.topics[2])).Ok?)
    ensures r.fault.None? ==> r.effects[1..] == [Saved(GetLoanInfo(env.abi, env.node, DecodeIndex(log.topics[2])).value)]
    ensures r.fault.Some? ==> r.store == store
  {
    if |log.topics| < 3 then Step([], store, Some(TopicOutOfRange))
    else SaveSnapshot(env, store, DecodeIndex(log.topics[2]))
  }

  /** `handleLoanUpdatedEvent`: the index is `Topics[1]`. */
  function HandleLoanUpdated(env: Env, store: Store, log: Log): (r: Step)
    ensures r.store == Replay(store, r.effects)
    ensures |log.topics| < 2 ==> r.fault == Some(TopicOutOfRange) && r.effects == []
    ensures |log.topics| >= 2 ==> |r.effects| >= 1 && r.effects[0] == LoanInfoRead(DecodeIndex(log.topics[1]))
    ensures |log.topics| >= 2 ==> (r.fault.None? <==> GetLoanInfo(env.abi, env.node, DecodeIndex(log.topics[1])).Ok?)
    ensures r.fault.None? ==> r.effects[1..] == [Saved(GetLoanInfo(env.abi, env.node, DecodeIndex(log.topics[1])).value)]
    ensures r.fault.Some? ==> r.store == store
  {
    if |log.topics| < 2 then Step([], store, Some(TopicOutOfRange))
    else SaveSnapshot(env, store, DecodeIndex(log.topics[1]))
  }

  /** `handleLoanWithdrawEvent`: one delete of the index in `Topics[1]`, and no
      read of the contract. */
  function HandleLoanWithdraw(store: Store, log: Log): (r: Step)
    ensures r.store == Replay(store, r.effects)
    ensures forall e :: e in r.effects ==> !e.LoanInfoRead? && !e.Saved?
    ensures r.fault.None? <==> |log.topics| >= 2
    ensures r.fault.None? ==> r.effects == [Deleted(DeleteKey(DecodeIndex(log.topics[1])))]
    ensures r.fault.Some? ==> r.effects == [] && r.store == store
  {
    if |log.topics| < 2 then Step([], store, Some(TopicOutOfRange))
    else
      var index := DecodeIndex(log.topics[1]);
      Step([Deleted(DeleteKey(index))], DeleteLoanByIndex(store, index), None)
  }

  /** Runs `next` after `first`, keeping both effect lists. */
  function Then(first: Step, next: Step): Step {
    Step(first.effects + next.effects, next.store, next.fault)
  }

  /** A step that does nothing. */
  function Idle(store: Store): Step {
    Step([], store, None)
  }

  /** The body of the receive loop for one log, as written: three independent
      `if`s, each comparing `Topics[0]` with one signature hash. A fault ends
      the process, so nothing runs after it. */
  function Dispatch(env: Env, store: Store, log: Log): (r: Step)
    ensures r.store == Replay(store, r.effects)
    ensures |log.topics| == 0 ==> r.fault == Some(TopicOutOfRange)
    ensures |log.topics| > 0 && log.topics[0] !in {env.sigs.created, env.sigs.updated, env.sigs.withdraw}
      ==> r == Idle(store)
  {
    if |log.topics| == 0 then Step([], store, Some(TopicOutOfRange))
    else
      var t0 := log.topics[0];
      var s1 := if t0 == env.sigs.created then HandleLoanCreated(env, store, log) else Idle(store);
      if s1.fault.Some? then s1
      else
        var s2 := Then(s1, if t0 == env.sigs.updated then HandleLoanUpdated(env, s1.store, log) else Idle(s1.store));
        ReplayAppend(store, s1.effects, s2.effects[|s1.effects|..]);
        assert s2.effects[|s1.effects|..] == (if t0 == env.sigs.updated then HandleLoanUpdated(env, s1.store, log) else Idle(s1.store)).effects;
        if s2.fault.Some? then s2
        else
          var last := if t0 == env.sigs.withdraw then HandleLoanWithdraw(s2.store, log) else Idle(s2.store);
          ReplayAppend(store, s2.effects, last.effects);
          Then(s2, last)
  }

  // ---------------------------------------------------------------------------
  // The classifier as a lookup, and what the three `if`s amount to

  /** How a log reads: malformed when a topic its kind needs is missing. */
  datatype Reading = Malformed | Unrecognised | Recognised(event: Event)

  /** The event classifier as one lookup: the kind named by the first topic,
      then the indexed arguments that kind carries. */
  function ParseLog(sigs: Signatures, log: Log): (r: Reading)
    ensures r.Unrecognised? <==>
      |log.topics| > 0 && log.topics[0] !in {sigs.created, sigs.updated, sigs.withdraw}
    ensures r.Recognised? ==> |log.topics| > (if r.event.LoanCreated? then 2 else 1)
    ensures r.Recognised? ==> (r.event.LoanCreated? <==> log.topics[0] == sigs.created)
    ensures r.Recognised? ==>
      r.event.loanIndex == DecodeIndex(log.topics[if r.event.LoanCreated? then 2 else 1])
  {
    if |log.topics| == 0 then Malformed
    else if log.topics[0] == sigs.created then
      if |log.topics| < 3 then Malformed
      else Recognised(LoanCreated(TopicAddress(log.topics[1]), DecodeIndex(log.topics[2])))
    else if log.topics[0] == sigs.updated then
      if |log.topics| < 2 then Malformed else Recognised(LoanUpdated(DecodeIndex(log.topics[1])))
    else if log.topics[0] == sigs.withdraw then
      if |log.topics| < 2 then Malformed else Recognised(LoanWithdraw(DecodeIndex(log.topics[1])))
    else Unrecognised
  }

  /** The topics the contract emits for an event: the signature hash, then
      each indexed argument as one topic. */
  function EventLog(sigs: Signatures, e: Event): Log
    requires 0 <= e.loanIndex
  {
    match e
    case LoanCreated(from, i) => Log([sigs.created, AddressTopic(from), IndexTopic(i)])
    case LoanUpdated(i) => Log([sigs.updated, IndexTopic(i)])
    case LoanWithdraw(i) => Log([sigs.withdraw, IndexTopic(i)])
  }

  /** Every event the contract emits is read back as that event: the sender
      from bytes 12..32 of the address topic, the index from its topic. */
  lemma ParseEventLog(sigs: Signatures, e: Event)
    requires sigs.Distinct() && 0 <= e.loanIndex
    ensures ParseLog(sigs, EventLog(sigs, e)) == Recognised(e)
  {
    IndexTopicRoundTrip(e.loanIndex);
    if e.LoanCreated? {
      AddressTopicRoundTrip(e.from);
    }
  }

  /** Reconciling one event: Created and Updated save a fresh snapshot,
      Withdraw deletes (with the key the code uses). */
  function Reconcile(env: Env, store: Store, e: Event): Step {
    match e
    case LoanCreated(_, i) => SaveSnapshot(env, store, i)
    case LoanUpdated(i) => SaveSnapshot(env, store, i)
    case LoanWithdraw(i) => Step([Deleted(DeleteKey(i))], DeleteLoanByIndex(store, i), None)
  }

  /** The store change a reading calls for. */
  function React(env: Env, store: Store, reading: Reading): Step {
    match reading
    case Malformed => Step([], store, Some(TopicOutOfRange))
    case Unrecognised => Idle(store)
    case Recognised(e) => Reconcile(env, store, e)
  }

  /** With distinct hashes the three independent `if`s run at most one
      handler: Dispatch is the lookup followed by that one reconciliation. */
  lemma DispatchRunsOneHandler(env: Env, store: Store, log: Log)
    requires env.sigs.Distinct()
    ensures Dispatch(env, store, log) == React(env, store, ParseLog(env.sigs, log))
  {
    if |log.topics| > 0 {
      var t0 := log.topics[0];
      if t0 == env.sigs.created {
        DispatchCreated(env, store, log);
      } else if t0 == env.sigs.updated {
        DispatchUpdated(env, store, log);
      } else if t0 == env.sigs.withdraw {
        assert Then(Idle(store), Idle(store)) == Idle(store);
        assert Then(Idle(store), HandleLoanWithdraw(store, log)) == HandleLoanWithdraw(store, log);
      } else {
        assert Then(Idle(store), Idle(store)) == Idle(store);
      }
    }
  }

  lemma DispatchCreated(env: Env, store: Store, log: Log)
    requires env.sigs.Distinct()
    requires |log.topics| > 0 && log.topics[0] == env.sigs.created
    ensures Dispatch(env, store, log) == React(env, store, ParseLog(env.sigs, log))
  {
    var s1 := HandleLoanCreated(env, store, log);
    if |log.topics| >= 3 {
      assert ParseLog(env.sigs, log) == Recognised(LoanCreated(TopicAddress(log.topics[1]), DecodeIndex(log.topics[2])));
      assert s1 == SaveSnapshot(env, store, DecodeIndex(log.topics[2]));
    }
    if s1.fault.None? {
      assert Then(s1, Idle(s1.store)) == s1;
    }
  }

  lemma DispatchUpdated(env: Env, store: Store, log: Log)
    requires env.sigs.Distinct()
    requires |log.topics| > 0 && log.topics[0] == env.sigs.updated
    ensures Dispatch(env, store, log) == React(env, store, ParseLog(env.sigs, log))
  {
    var handled := HandleLoanUpdated(env, store, log);
    if |log.topics| >= 2 {
      assert ParseLog(env.sigs, log) == Recognised(LoanUpdated(DecodeIndex(log.topics[1])));
      assert handled == SaveSnapshot(env, store, DecodeIndex(log.topics[1]));
    }
    var s2 := Then(Idle(store), handled);
    assert s2 == handled;
    if s2.fault.None? {
      assert Then(s2, Idle(s2.store)) == s2;
    }
  }

  /** A Withdraw log makes exactly one delete, of the 8-byte key of its
      index, and reads nothing from the contract. */
  lemma WithdrawDeletesOnce(env: Env, store: Store, log: Log)
    requires env.sigs.Distinct()
    requires |log.topics| >= 2 && log.topics[0] == env.sigs.withdraw
    ensures Dispatch(env, store, log).fault.None?
    ensures Dispatch(env, store, log).effects == [Deleted(DeleteKey(DecodeIndex(log.topics[1])))]
    ensures Dispatch(env, store, log).store == DeleteLoanByIndex(store, DecodeIndex(log.topics[1]))
  {
    DispatchRunsOneHandler(env, store, log);
  }

  /** A Created or Updated log reads the loan once; if the read fails the
      process stops with nothing saved, otherwise exactly the loan read is
      saved under its own index. */
  lemma SnapshotSaved(env: Env, store: Store, log: Log, index: int64)
    requires env.sigs.Distinct()
    requires || (|log.topics| >= 3 && log.topics[0] == env.sigs.created && index == DecodeIndex(log.topics[2]))
             || (|log.topics| >= 2 && log.topics[0] == env.sigs.updated && index == DecodeIndex(log.topics[1]))
    ensures Dispatch(env, store, log).effects[0] == LoanInfoRead(index)
    ensures GetLoanInfo(env.abi, env.node, index).Err? ==>
      && Dispatch(env, store, log).fault.Some?
      && Dispatch(env, store, log).store == store
      && forall e :: e in Dispatch(env, store, log).effects ==> !e.Saved?
    ensures GetLoanInfo(env.abi, env.node, index).Ok? ==>
      && Dispatch(env, store, log).fault.None?
      && Dispatch(env, store, log).store == SaveLoan(store, GetLoanInfo(env.abi, env.node, index).value)
  {
    DispatchRunsOneHandler(env, store, log);
  }

  /** Handling any log keeps the store well keyed. */
  lemma DispatchKeepsWellKeyed(env: Env, store: Store, log: Log)
    requires WellKeyed(store)
    ensures WellKeyed(Dispatch(env, store, log).store)
  {
    ReplayKeepsWellKeyed(store, Dispatch(env, store, log).effects);
  }

  /** Handling the same log a second time changes nothing more: the node
      answers the same index with the same loan, and a save or a delete
      repeated is a no-op. */
  lemma DispatchIdempotent(env: Env, store: Store, log: Log)
    requires env.sigs.Distinct()
    requires Dispatch(env, store, log).fault.None?
    ensures Dispatch(env, Dispatch(env, store, log).store, log).store == Dispatch(env, store, log).store
  {
    var once := Dispatch(env, store, log).store;
    DispatchRunsOneHandler(env, store, log);
    DispatchRunsOneHandler(env, once, log);
    match ParseLog(env.sigs, log)
    case Malformed =>
    case Unrecognised =>
    case Recognised(e) =>
      match e {
        case LoanCreated(_, i) =>
          SaveLoanIdempotent(store, GetLoanInfo(env.abi, env.node, i).value);
        case LoanUpdated(i) =>
          SaveLoanIdempotent(store, GetLoanInfo(env.abi, env.node, i).value);
        case LoanWithdraw(i) =>
          assert DeleteLoanByIndex(once, i) == once;
      }
  }

  /** As written, a Withdraw of index `i` leaves the record saved for `i`. */
  lemma WithdrawKeepsRecord(env: Env, store: Store, log: Log)
    requires env.sigs.Distinct()
    requires |log.topics| >= 2 && log.topics[0] == env.sigs.withdraw
    requires SaveKey(DecodeIndex(log.topics[1])) in store
    ensures SaveKey(DecodeIndex(log.topics[1])) in Dispatch(env, store, log).store
    ensures Dispatch(env, store, log).store[SaveKey(DecodeIndex(log.topics[1]))] == store[SaveKey(DecodeIndex(log.topics[1]))]
  {
    WithdrawDeletesOnce(env, store, log);
    DeleteKeepsSavedRecord(store, DecodeIndex(log.topics[1]));
  }

  /** The Withdraw handler deleting the key `SaveLoan` writes
      (`"loan:" + strconv.FormatInt(index, 10)`), the one the Created and
      Updated handlers save under. */
  function HandleLoanWithdrawIntended(store: Store, log: Log): (r: Step)
    ensures r.store == Replay(store, r.effects)
    ensures forall e :: e in r.effects ==> !e.LoanInfoRead? && !e.Saved?
    ensures r.fault.None? <==> |log.topics| >= 2
    ensures r.fault.None? ==> r.effects == [Deleted(SaveKey(DecodeIndex(log.topics[1])))]
    ensures r.fault.Some? ==> r.effects == [] && r.store == store
  {
    if |log.topics| < 2 then Step([], store, Some(TopicOutOfRange))
    else
      var index := DecodeIndex(log.topics[1]);
      Step([Deleted(SaveKey(index))], DeleteLoanIntended(store, index), None)
  }

  /** With the intended delete, no record of the withdrawn index remains. */
  lemma WithdrawIntendedRemovesRecord(store: Store, log: Log)
    requires WellKeyed(store)
    requires |log.topics| >= 2
    ensures WellKeyed(HandleLoanWithdrawIntended(store, log).store)
    ensures forall k :: k in HandleLoanWithdrawIntended(store, log).store && HasLoanPrefix(k) ==>
      HandleLoanWithdrawIntended(store, log).store[k].loan.loanIndex != DecodeIndex(log.topics[1])
  {
    DeleteLoanKeepsWellKeyed(store, DecodeIndex(log.topics[1]));
    DeleteLoanIntendedRemovesRecord(store, DecodeIndex(log.topics[1]));
  }
}
