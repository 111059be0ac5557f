/** The life of a transaction: MultisigWallet/MultisigWalletDomainModel/Transaction/Transaction.swift and
    TransactionStatus.swift, and how
    MultisigWallet/MultisigWalletImplementations/Repositories/DBTransactionRepository.swift restores one. */
module Transactions {
  import opened Outcomes
  import opened Sequences
  import opened Bytes
  import opened Hex
  import opened AbiCodec

  datatype StatusCode = Draft | Signing | Pending | Rejected | Failed | Succeeded | Discarded

  datatype Token = Ether | AtAddress(address: Address)
  datatype TokenAmount = TokenAmount(amount: int, token: Token)
  datatype FeeEstimate = FeeEstimate(gas: int, dataGas: int, operationalGas: int, gasPrice: TokenAmount)
  datatype WalletOperation = Call | DelegateCall | Create
  datatype Signature = Signature(data: Data, address: Address)

  type Date = real

  /** What may be edited in a draft. */
  datatype Parameters = Parameters(
    sender: Option<Address>, recipient: Option<Address>, amount: Option<TokenAmount>, fee: Option<TokenAmount>,
    feeEstimate: Option<FeeEstimate>, data: Option<Data>, operation: Option<WalletOperation>,
    nonce: Option<string>, hash: Option<Data>)

  datatype Timestamps = Timestamps(
    created: Option<Date>, updated: Option<Date>, rejected: Option<Date>, submitted: Option<Date>,
    processed: Option<Date>)

  datatype TransactionState = TransactionState(
    walletID: string, parameters: Parameters, status: StatusCode, signatures: seq<Signature>,
    transactionHash: Option<string>, dates: Timestamps)

  const NO_PARAMETERS := Parameters(None, None, None, None, None, None, None, None, None)

  function NewTransaction(walletID: string, now: Date): TransactionState {
    TransactionState(walletID, NO_PARAMETERS, Draft, [], None, Timestamps(Some(now), Some(now), None, None, None))
  }

  // ----- Commands -----

  datatype Edit =
    | Sender(sender: Option<Address>) | Recipient(recipient: Option<Address>)
    | Amount(amount: Option<TokenAmount>) | Fee(fee: Option<TokenAmount>)
    | Estimate(estimate: Option<FeeEstimate>) | TransactionData(data: Option<Data>)
    | Operation(operation: Option<WalletOperation>) | Nonce(nonce: Option<string>) | WalletHash(hash: Option<Data>)

  datatype Stamp = CreatedAt(date: Date) | UpdatedAt(date: Date) | RejectedAt(date: Date) | SubmittedAt(date: Date)
                 | ProcessedAt(date: Date)

  datatype Command =
    | Change(edit: Edit) | SetHash(transactionHash: string)
    | AddSignature(signature: Signature) | RemoveSignature(signature: Signature)
    | Proceed | StepBack | Reject | Succeed | Fail | Discard | Reset
    | SetStamp(stamp: Stamp)

  function Edited(p: Parameters, edit: Edit): Parameters {
    match edit
    case Sender(v) => p.(sender := v)
    case Recipient(v) => p.(recipient := v)
    case Amount(v) => p.(amount := v)
    case Fee(v) => p.(fee := v)
    case Estimate(v) => p.(feeEstimate := v)
    case TransactionData(v) => p.(data := v)
    case Operation(v) => p.(operation := v)
    case Nonce(v) => p.(nonce := v)
    case WalletHash(v) => p.(hash := v)
  }

  function Stamped(d: Timestamps, stamp: Stamp): Timestamps {
    match stamp
    case CreatedAt(date) => d.(created := Some(date))
    case UpdatedAt(date) => d.(updated := Some(date))
    case RejectedAt(date) => d.(rejected := Some(date))
    case SubmittedAt(date) => d.(submitted := Some(date))
    case ProcessedAt(date) => d.(processed := Some(date))
  }

  predicate CanChangeParameters(status: StatusCode) { status == Draft }
  predicate CanChangeHash(status: StatusCode) { status == Draft || status == Signing }
  predicate CanChangeSignatures(status: StatusCode) { status == Draft || status == Signing }

  function Touched(tx: TransactionState, now: Date): TransactionState {
    tx.(dates := tx.dates.(updated := Some(now)))
  }

  function Without(signatures: seq<Signature>, s: Signature): seq<Signature> {
    if signatures == [] then []
    else if signatures[0] == s then signatures[1..]
    else [signatures[0]] + Without(signatures[1..], s)
  }

  /** A command at a moment; an illegal one stops the process. */
  function Applied(tx: TransactionState, command: Command, now: Date): Outcome<TransactionState> {
    match command
    case Change(edit) =>
      if !CanChangeParameters(tx.status) then Traps
      else Returns(Touched(tx.(parameters := Edited(tx.parameters, edit)), now))
    case SetHash(hash) =>
      if !CanChangeHash(tx.status) then Traps else Returns(Touched(tx.(transactionHash := Some(hash)), now))
    case AddSignature(s) =>
      if !CanChangeSignatures(tx.status) then Traps
      else if s in tx.signatures then Returns(tx)
      else Returns(Touched(tx.(signatures := tx.signatures + [s]), now))
    case RemoveSignature(s) =>
      if !CanChangeSignatures(tx.status) then Traps
      else if s !in tx.signatures then Returns(tx)
      else Returns(Touched(tx.(signatures := Without(tx.signatures, s)), now))
    case Proceed =>
      if tx.status == Draft then
        if Complete(tx.parameters) then Returns(Touched(tx.(status := Signing), now)) else Traps
      else if tx.status == Signing then
        if tx.transactionHash.Some?
        then Returns(Touched(tx.(status := Pending, dates := tx.dates.(submitted := Some(now))), now))
        else Traps
      else Traps
    case StepBack =>
      if tx.status == Signing then Returns(tx.(status := Draft))
      else if tx.status == Pending then Returns(tx.(status := Signing))
      else Traps
    case Reject =>
      if tx.status == Signing
      then Returns(Touched(tx.(status := Rejected, dates := tx.dates.(rejected := Some(now))), now))
      else Traps
    case Succeed =>
      if tx.status == Pending
      then Returns(Touched(tx.(status := Succeeded, dates := tx.dates.(processed := Some(now))), now))
      else Traps
    case Fail =>
      if tx.status == Pending
      then Returns(Touched(tx.(status := Failed, dates := tx.dates.(processed := Some(now))), now))
      else Traps
    case Discard => if tx.status == Discarded then Traps else Returns(Touched(tx, now).(status := Discarded))
    case Reset =>
      if tx.status == Rejected || tx.status == Discarded
      then Returns(tx.(status := Draft, signatures := [], transactionHash := None,
                       dates := Timestamps(None, None, None, None, None)))
      else Traps
    case SetStamp(stamp) => Returns(tx.(dates := Stamped(tx.dates, stamp)))
  }

  /** What leaving the draft requires. */
  predicate Complete(p: Parameters) {
    p.sender.Some? && p.recipient.Some? && p.amount.Some? && p.fee.Some?
  }

  // ----- The entity -----

  class Transaction {
    const walletID: string
    var parameters: Parameters
    var status: StatusCode
    var signatures: seq<Signature>
    var transactionHash: Option<string>
    var dates: Timestamps

    ghost function State(): TransactionState
      reads this
    {
      TransactionState(walletID, parameters, status, signatures, transactionHash, dates)
    }

    constructor (walletID: string, now: Date)
      ensures State() == NewTransaction(walletID, now)
    {
      this.walletID, parameters, status, signatures, transactionHash := walletID, NO_PARAMETERS, Draft, [], None;
      dates := Timestamps(Some(now), Some(now), None, None, None);
    }

    /** A restored transaction. */
    constructor FromState(state: TransactionState)
      ensures State() == state
    {
      walletID, parameters, status := state.walletID, state.parameters, state.status;
      signatures, transactionHash, dates := state.signatures, state.transactionHash, state.dates;
    }

    /** The values a repository stores. */
    method Snapshot() returns (state: TransactionState)
      ensures state == State()
    {
      return TransactionState(walletID, parameters, status, signatures, transactionHash, dates);
    }

    method ChangeParameter(edit: Edit, now: Date)
      requires CanChangeParameters(status)
      modifies this
      ensures Returns(State()) == Applied(old(State()), Change(edit), now)
      ensures State() == Touched(old(State()).(parameters := Edited(old(parameters), edit)), now)
    {
      parameters := Edited(parameters, edit);
      dates := dates.(updated := Some(now));
    }

    method Sign(signature: Signature, now: Date)
      requires CanChangeSignatures(status)
      modifies this
      ensures Returns(State()) == Applied(old(State()), AddSignature(signature), now)
    {
      if signature in signatures {
        return;
      }
      signatures := signatures + [signature];
      dates := dates.(updated := Some(now));
    }

    method Proceed(now: Date)
      requires (status == Draft && Complete(parameters)) || (status == Signing && transactionHash.Some?)
      modifies this
      ensures Returns(State()) == Applied(old(State()), Command.Proceed, now)
    {
      if status == Draft {
        status := Signing;
      } else {
        status := Pending;
        dates := dates.(submitted := Some(now));
      }
      dates := dates.(updated := Some(now));
    }

    method SetTransactionHash(hash: string, now: Date)
      requires CanChangeHash(status)
      modifies this
      ensures Returns(State()) == Applied(old(State()), SetHash(hash), now)
    {
      transactionHash := Some(hash);
      dates := dates.(updated := Some(now));
    }

    method Unsign(signature: Signature, now: Date)
      requires CanChangeSignatures(status)
      modifies this
      ensures Returns(State()) == Applied(old(State()), RemoveSignature(signature), now)
    {
      if signature !in signatures {
        return;
      }
      signatures := Without(signatures, signature);
      dates := dates.(updated := Some(now));
    }

    method StepBack(now: Date)
      requires status == Signing || status == Pending
      modifies this
      ensures Returns(State()) == Applied(old(State()), Command.StepBack, now)
    {
      status := if status == Signing then Draft else Signing;
    }

    method Reject(now: Date)
      requires status == Signing
      modifies this
      ensures Returns(State()) == Applied(old(State()), Command.Reject, now)
    {
      status := Rejected;
      dates := dates.(rejected := Some(now), updated := Some(now));
    }

    method Succeed(now: Date)
      requires status == Pending
      modifies this
      ensures Returns(State()) == Applied(old(State()), Command.Succeed, now)
    {
      status := Succeeded;
      dates := dates.(processed := Some(now), updated := Some(now));
    }

    method Fail(now: Date)
      requires status == Pending
      modifies this
      ensures Returns(State()) == Applied(old(State()), Command.Fail, now)
    {
      status := Failed;
      dates := dates.(processed := Some(now), updated := Some(now));
    }

    method Discard(now: Date)
      requires status != Discarded
      modifies this
      ensures Returns(State()) == Applied(old(State()), Command.Discard, now)
    {
      dates := dates.(updated := Some(now));
      status := Discarded;
    }

    method Reset(now: Date)
      requires status == Rejected || status == Discarded
      modifies this
      ensures Returns(State()) == Applied(old(State()), Command.Reset, now)
    {
      signatures, transactionHash := [], None;
      dates := Timestamps(None, None, None, None, None);
      status := Draft;
    }
  }

  // ----- Runs -----

  datatype Act = Act(command: Command, now: Date)

  /** A run of commands on a new transaction; a trap ends it. */
  function RunOf(walletID: string, start: Date, acts: seq<Act>): Outcome<TransactionState> {
    if acts == [] then Returns(NewTransaction(walletID, start))
    else
      var tx :- RunOf(walletID, start, acts[..|acts| - 1]);
      Applied(tx, acts[|acts| - 1].command, acts[|acts| - 1].now)
  }

  /** What every reachable transaction satisfies, status by status. */
  predicate WellFormed(tx: TransactionState) {
    && Distinct(tx.signatures)
    && (tx.status != Draft && tx.status != Discarded ==> Complete(tx.parameters))
    && (tx.status == Pending || tx.status == Succeeded || tx.status == Failed ==>
          tx.transactionHash.Some? && tx.dates.submitted.Some?)
    && (tx.status == Rejected ==> tx.dates.rejected.Some?)
    && (tx.status == Succeeded || tx.status == Failed ==> tx.dates.processed.Some?)
  }

  lemma {:induction false} WithoutKeepsDistinct(signatures: seq<Signature>, s: Signature)
    requires Distinct(signatures)
    ensures Distinct(Without(signatures, s))
    ensures forall t | t in Without(signatures, s) :: t in signatures
  {
    if signatures != [] && signatures[0] != s {
      var rest := signatures[1..];
      assert forall i | 0 <= i < |rest| :: rest[i] == signatures[i + 1];
      WithoutKeepsDistinct(rest, s);
      forall j | 0 <= j < |Without(rest, s)| ensures Without(rest, s)[j] != signatures[0] {
        assert Without(rest, s)[j] in rest;
      }
    }
  }

  lemma AppliedWellFormed(tx: TransactionState, command: Command, now: Date)
    requires WellFormed(tx) && Applied(tx, command, now).Returns?
    ensures WellFormed(Applied(tx, command, now).value)
  {
    if command.RemoveSignature? {
      WithoutKeepsDistinct(tx.signatures, command.signature);
    }
  }

  lemma {:induction false} ReachableIsWellFormed(walletID: string, start: Date, acts: seq<Act>)
    requires RunOf(walletID, start, acts).Returns?
    ensures WellFormed(RunOf(walletID, start, acts).value)
  {
    if acts != [] {
      var before, last := acts[..|acts| - 1], acts[|acts| - 1];
      ReachableIsWellFormed(walletID, start, before);
      AppliedWellFormed(RunOf(walletID, start, before).value, last.command, last.now);
    }
  }

  // ----- The table of commands -----

  /** When a command is allowed, as the status classes say one by one. */
  predicate IsLegal(tx: TransactionState, command: Command) {
    match tx.status
    case Draft =>
      || command.Change? || command.SetHash? || command.AddSignature? || command.RemoveSignature?
      || command.Discard? || command.SetStamp?
      || (command.Proceed? && tx.parameters.sender.Some? && tx.parameters.recipient.Some? &&
          tx.parameters.amount.Some? && tx.parameters.fee.Some?)
    case Signing =>
      || command.SetHash? || command.AddSignature? || command.RemoveSignature?
      || command.StepBack? || command.Reject? || command.Discard? || command.SetStamp?
      || (command.Proceed? && tx.transactionHash.Some?)
    case Pending => command.StepBack? || command.Succeed? || command.Fail? || command.Discard? || command.SetStamp?
    case Rejected => command.Reset? || command.Discard? || command.SetStamp?
    case Failed => command.Discard? || command.SetStamp?
    case Succeeded => command.Discard? || command.SetStamp?
    case Discarded => command.Reset? || command.SetStamp?
  }

  /** Where it leads. */
  function Target(status: StatusCode, command: Command): StatusCode {
    match command
    case Proceed => if status == Draft then Signing else Pending
    case StepBack => if status == Signing then Draft else Signing
    case Reject => Rejected
    case Succeed => Succeeded
    case Fail => Failed
    case Discard => Discarded
    case Reset => Draft
    case _ => status
  }

  lemma FollowsTable(tx: TransactionState, command: Command, now: Date)
    ensures Applied(tx, command, now).Returns? <==> IsLegal(tx, command)
    ensures IsLegal(tx, command) ==> Applied(tx, command, now).value.status == Target(tx.status, command)
  {}

  /** What a command leaves alone, and what it sets. */
  lemma OnlyWhatIsAsked(tx: TransactionState, command: Command, now: Date)
    requires IsLegal(tx, command)
    ensures var r := Applied(tx, command, now).value;
      && r.walletID == tx.walletID
      && (!command.Change? ==> r.parameters == tx.parameters)
      && r.transactionHash == (match command
                               case SetHash(hash) => Some(hash) case Reset => None case _ => tx.transactionHash)
      && (!command.AddSignature? && !command.RemoveSignature? ==>
            r.signatures == if command.Reset? then [] else tx.signatures)
      && (command.AddSignature? ==>
            r.signatures == tx.signatures + (if command.signature in tx.signatures then [] else [command.signature]))
      && (command.RemoveSignature? && command.signature !in tx.signatures ==> r == tx)
      && (command.RemoveSignature? && command.signature in tx.signatures ==>
            exists k | 0 <= k < |tx.signatures| :: FirstAt(tx.signatures, command.signature, k) &&
              r.signatures == tx.signatures[..k] + tx.signatures[k + 1..])
  {
    if command.AddSignature? {
      assert tx.signatures + [] == tx.signatures;
    } else if command.RemoveSignature? && command.signature in tx.signatures {
      var k := WithoutFirst(tx.signatures, command.signature);
    }
  }

  predicate FirstAt(signatures: seq<Signature>, s: Signature, k: nat)
    requires k < |signatures|
  {
    signatures[k] == s && forall i | 0 <= i < k :: signatures[i] != s
  }

  lemma {:induction false} WithoutFirst(signatures: seq<Signature>, s: Signature) returns (k: nat)
    requires s in signatures
    ensures k < |signatures| && FirstAt(signatures, s, k)
    ensures Without(signatures, s) == signatures[..k] + signatures[k + 1..]
  {
    if signatures[0] == s {
      return 0;
    }
    var first, rest := signatures[0], signatures[1..];
    var j := WithoutFirst(rest, s);
    k := j + 1;
    assert signatures == [first] + rest;
    CutLater(first, rest, j);
  }

  lemma CutLater(first: Signature, rest: seq<Signature>, j: nat)
    requires j < |rest|
    ensures var all := [first] + rest;
      all[..j + 1] + all[j + 2..] == [first] + (rest[..j] + rest[j + 1..])
  {
    var all := [first] + rest;
    assert all[..j + 1] == [first] + rest[..j] && all[j + 2..] == rest[j + 1..];
  }

  /** Each date is set by its own step, cleared by a reset, and otherwise kept; the update date is set by every
      change but stepping back and setting another date. */
  lemma DatesTable(tx: TransactionState, command: Command, now: Date)
    requires IsLegal(tx, command)
    ensures var d, r := tx.dates, Applied(tx, command, now).value.dates;
      && r.created == (match command
                       case SetStamp(CreatedAt(date)) => Some(date) case Reset => None case _ => d.created)
      && r.rejected == (match command
                        case SetStamp(RejectedAt(date)) => Some(date) case Reject => Some(now) case Reset => None
                        case _ => d.rejected)
      && r.submitted == (match command
                         case SetStamp(SubmittedAt(date)) => Some(date) case Reset => None
                         case Proceed => if tx.status == Signing then Some(now) else d.submitted
                         case _ => d.submitted)
      && r.processed == (match command
                         case SetStamp(ProcessedAt(date)) => Some(date) case Reset => None
                         case Succeed => Some(now) case Fail => Some(now)
                         case _ => d.processed)
      && r.updated == (match command
                       case SetStamp(UpdatedAt(date)) => Some(date) case SetStamp(_) => d.updated
                       case StepBack => d.updated case Reset => None
                       case AddSignature(s) => if s in tx.signatures then d.updated else Some(now)
                       case RemoveSignature(s) => if s !in tx.signatures then d.updated else Some(now)
                       case _ => Some(now))
  {}

  /** Outside the draft no command changes the parameters that were signed. */
  lemma FrozenOutsideDraft(tx: TransactionState, command: Command, now: Date)
    requires tx.status != Draft && Applied(tx, command, now).Returns?
    ensures Applied(tx, command, now).value.parameters == tx.parameters
  {}

  function RunFrom(tx: TransactionState, acts: seq<Act>): Outcome<TransactionState> {
    if acts == [] then Returns(tx)
    else
      var before :- RunFrom(tx, acts[..|acts| - 1]);
      Applied(before, acts[|acts| - 1].command, acts[|acts| - 1].now)
  }

  predicate NeverDraft(tx: TransactionState, acts: seq<Act>) {
    forall k | 0 <= k <= |acts| :: RunFrom(tx, acts[..k]).Returns? ==> RunFrom(tx, acts[..k]).value.status != Draft
  }

  /** So they are the same at both ends of any run that does not pass through the draft. */
  lemma {:induction false} FrozenThroughRun(tx: TransactionState, acts: seq<Act>)
    requires RunFrom(tx, acts).Returns? && NeverDraft(tx, acts)
    ensures RunFrom(tx, acts).value.parameters == tx.parameters
  {
    if acts != [] {
      var before := acts[..|acts| - 1];
      assert forall k | 0 <= k <= |before| :: before[..k] == acts[..k];
      FrozenThroughRun(tx, before);
      assert acts[..|before|] == before;
      FrozenOutsideDraft(RunFrom(tx, before).value, acts[|acts| - 1].command, acts[|acts| - 1].now);
    }
  }

  // ----- Storing and restoring -----

  /** What `Address(_:)` demands of a text: the `0x` prefix, and 20 bytes or none. */
  predicate IsAddressText(a: Address) {
    "0x" <= a.text && a.Valid()
  }

  predicate IsTokenText(t: TokenAmount) {
    t.token.AtAddress? ==> IsAddressText(t.token.address)
  }

  /** The stored text of a value can be read back: every address in it passes the initialiser. */
  predicate Rebuildable(edit: Edit) {
    match edit
    case Sender(Some(a)) => IsAddressText(a)
    case Recipient(Some(a)) => IsAddressText(a)
    case Amount(Some(t)) => IsTokenText(t)
    case Fee(Some(t)) => IsTokenText(t)
    case Estimate(Some(e)) => IsTokenText(e.gasPrice)
    case _ => true
  }

  /** `data(at:)`: the database gives no pointer for an empty blob, so it is read as a missing one. */
  function ReadBlob(stored: Option<Data>): Option<Data> {
    if stored == Some([]) then None else stored
  }

  /** A setter that runs only for a stored value, rebuilt from its text first; a missing column is left alone. */
  function Maybe(tx: TransactionState, stored: bool, edit: Edit, now: Date): Outcome<TransactionState> {
    if !stored then Returns(tx)
    else if !Rebuildable(edit) then Traps
    else Applied(tx, Change(edit), now)
  }

  function LoadParameters(tx: TransactionState, row: Parameters, now: Date): Outcome<TransactionState> {
    var t1 :- Maybe(tx, row.sender.Some?, Sender(row.sender), now);
    var t2 :- Maybe(t1, row.recipient.Some?, Recipient(row.recipient), now);
    var t3 :- Maybe(t2, row.amount.Some?, Amount(row.amount), now);
    Maybe(t3, row.fee.Some?, Fee(row.fee), now)
  }

  function LoadSignatures(tx: TransactionState, signatures: seq<Signature>, now: Date): Outcome<TransactionState> {
    if signatures == [] then Returns(tx)
    else
      var last := signatures[|signatures| - 1];
      var before :- LoadSignatures(tx, signatures[..|signatures| - 1], now);
      if IsAddressText(last.address) then Applied(before, AddSignature(last), now) else Traps
  }

  function LoadRemaining(tx: TransactionState, row: TransactionState, now: Date): Outcome<TransactionState> {
    var p := row.parameters;
    var t0 :- if row.transactionHash.Some? then Applied(tx, SetHash(row.transactionHash.value), now) else Returns(tx);
    var t1 :- Maybe(t0, p.feeEstimate.Some?, Estimate(p.feeEstimate), now);
    var t2 :- Maybe(t1, ReadBlob(p.data).Some?, TransactionData(ReadBlob(p.data)), now);
    var t3 :- Maybe(t2, p.operation.Some?, Operation(p.operation), now);
    var t4 :- Maybe(t3, p.nonce.Some?, Nonce(p.nonce), now);
    Maybe(t4, ReadBlob(p.hash).Some?, WalletHash(ReadBlob(p.hash)), now)
  }

  /** The transitions that lead from a draft to the stored status. */
  function Replay(tx: TransactionState, target: StatusCode, now: Date): Outcome<TransactionState> {
    match target
    case Draft => Returns(tx)
    case Signing => Applied(tx, Proceed, now)
    case Pending => var s :- Applied(tx, Proceed, now); Applied(s, Proceed, now)
    case Rejected => var s :- Applied(tx, Proceed, now); Applied(s, Reject, now)
    case Failed => var s :- Applied(tx, Proceed, now); var p :- Applied(s, Proceed, now); Applied(p, Fail, now)
    case Succeeded => var s :- Applied(tx, Proceed, now); var p :- Applied(s, Proceed, now); Applied(p, Succeed, now)
    case Discarded => Applied(tx, Discard, now)
  }

  /** Stored dates replace those the transitions left behind; missing ones do not. */
  function LoadDates(d: Timestamps, row: Timestamps): Timestamps {
    Timestamps(if row.created.Some? then row.created else d.created,
               if row.updated.Some? then row.updated else d.updated,
               if row.rejected.Some? then row.rejected else d.rejected,
               if row.submitted.Some? then row.submitted else d.submitted,
               if row.processed.Some? then row.processed else d.processed)
  }

  function Restored(row: TransactionState, now: Date): Outcome<TransactionState> {
    var t1 :- LoadParameters(NewTransaction(row.walletID, now), row.parameters, now);
    var t2 :- LoadSignatures(t1, row.signatures, now);
    var t3 :- LoadRemaining(t2, row, now);
    var t4 :- Replay(t3, row.status, now);
    Returns(t4.(dates := LoadDates(t4.dates, row.dates)))
  }

  // ----- What restoring gives back -----

  predicate AllAddressTexts(signatures: seq<Signature>) {
    forall i | 0 <= i < |signatures| :: IsAddressText(signatures[i].address)
  }

  predicate Rebuilds(p: Parameters) {
    && Rebuildable(Sender(p.sender)) && Rebuildable(Recipient(p.recipient)) && Rebuildable(Amount(p.amount))
    && Rebuildable(Fee(p.fee)) && Rebuildable(Estimate(p.feeEstimate))
  }

  /** Every address in a stored transaction, its tokens and signers included, can be read back. */
  predicate Readable(tx: TransactionState) {
    Rebuilds(tx.parameters) && AllAddressTexts(tx.signatures)
  }

  lemma {:induction false} SignaturesLoad(tx: TransactionState, signatures: seq<Signature>, now: Date)
    requires tx.status == Draft && tx.signatures == [] && Distinct(signatures)
    requires tx.dates.updated == Some(now)
    ensures LoadSignatures(tx, signatures, now) ==
            if AllAddressTexts(signatures) then Returns(tx.(signatures := signatures)) else Traps
  {
    hide IsAddressText;
    if signatures != [] {
      var init, last := signatures[..|signatures| - 1], signatures[|signatures| - 1];
      SignaturesLoad(tx, init, now);
      assert last !in init;
      assert init + [last] == signatures;
      assert AllAddressTexts(signatures) <==> AllAddressTexts(init) && IsAddressText(last.address);
    }
  }

  lemma EditLoads(tx: TransactionState, stored: bool, edit: Edit, now: Date)
    requires tx.status == Draft && tx.dates.updated == Some(now)
    ensures Maybe(tx, stored, edit, now) ==
            if !stored then Returns(tx)
            else if !Rebuildable(edit) then Traps
            else Returns(tx.(parameters := Edited(tx.parameters, edit)))
  {
    hide Rebuildable;
  }

  lemma MissingRebuilds()
    ensures Rebuilds(NO_PARAMETERS)
  {}

  lemma ParametersLoad(tx: TransactionState, row: Parameters, now: Date)
    requires tx.status == Draft && tx.dates.updated == Some(now) && tx.parameters == NO_PARAMETERS
    ensures LoadParameters(tx, row, now) ==
            if Rebuildable(Sender(row.sender)) && Rebuildable(Recipient(row.recipient)) &&
               Rebuildable(Amount(row.amount)) && Rebuildable(Fee(row.fee))
            then Returns(tx.(parameters := NO_PARAMETERS.(sender := row.sender, recipient := row.recipient,
                                                          amount := row.amount, fee := row.fee)))
            else Traps
  {
    MissingRebuilds();
    hide Maybe, Rebuildable;
    EditLoads(tx, row.sender.Some?, Sender(row.sender), now);
    var t1 := tx.(parameters := NO_PARAMETERS.(sender := row.sender));
    EditLoads(t1, row.recipient.Some?, Recipient(row.recipient), now);
    var t2 := t1.(parameters := t1.parameters.(recipient := row.recipient));
    EditLoads(t2, row.amount.Some?, Amount(row.amount), now);
    var t3 := t2.(parameters := t2.parameters.(amount := row.amount));
    EditLoads(t3, row.fee.Some?, Fee(row.fee), now);
  }

  lemma HashLoads(tx: TransactionState, hash: Option<string>, now: Date)
    requires tx.status == Draft && tx.dates.updated == Some(now) && tx.transactionHash == None
    ensures (if hash.Some? then Applied(tx, SetHash(hash.value), now) else Returns(tx)) ==
            Returns(tx.(transactionHash := hash))
  {}

  /** The parameters as the columns give them back. */
  function ReadBlobs(p: Parameters): Parameters {
    p.(data := ReadBlob(p.data), hash := ReadBlob(p.hash))
  }

  lemma PlainRebuilds(data: Option<Data>, operation: Option<WalletOperation>, nonce: Option<string>)
    ensures Rebuildable(TransactionData(data)) && Rebuildable(WalletHash(data))
    ensures Rebuildable(Operation(operation)) && Rebuildable(Nonce(nonce))
  {}

  lemma RemainingLoad(tx: TransactionState, row: TransactionState, now: Date)
    requires tx.status == Draft && tx.dates.updated == Some(now) && tx.transactionHash == None
    requires tx.parameters == NO_PARAMETERS.(sender := row.parameters.sender, recipient := row.parameters.recipient,
                                             amount := row.parameters.amount, fee := row.parameters.fee)
    ensures LoadRemaining(tx, row, now) ==
            if Rebuildable(Estimate(row.parameters.feeEstimate))
            then Returns(tx.(parameters := ReadBlobs(row.parameters), transactionHash := row.transactionHash))
            else Traps
  {
    MissingRebuilds();
    hide Maybe, Applied, Rebuildable, ReadBlob;
    var p := row.parameters;
    var data, hash := ReadBlob(p.data), ReadBlob(p.hash);
    PlainRebuilds(data, p.operation, p.nonce);
    PlainRebuilds(hash, p.operation, p.nonce);
    var t0 := tx.(transactionHash := row.transactionHash);
    HashLoads(tx, row.transactionHash, now);
    EditLoads(t0, p.feeEstimate.Some?, Estimate(p.feeEstimate), now);
    var t1 := t0.(parameters := t0.parameters.(feeEstimate := p.feeEstimate));
    EditLoads(t1, data.Some?, TransactionData(data), now);
    var t2 := t1.(parameters := t1.parameters.(data := data));
    EditLoads(t2, p.operation.Some?, Operation(p.operation), now);
    var t3 := t2.(parameters := t2.parameters.(operation := p.operation));
    EditLoads(t3, p.nonce.Some?, Nonce(p.nonce), now);
    var t4 := t3.(parameters := t3.parameters.(nonce := p.nonce));
    EditLoads(t4, hash.Some?, WalletHash(hash), now);
  }

  /** What replaying the transitions promises for a draft with the contents of a stored transaction. */
  ghost predicate Replays(draft: TransactionState, tx: TransactionState, now: Date) {
    var r := Replay(draft, tx.status, now);
    && r.Returns? && r.value == tx.(dates := r.value.dates)
    && LoadDates(r.value.dates, tx.dates) == LoadDates(draft.dates, tx.dates)
  }

  lemma ReplayUnsubmitted(draft: TransactionState, tx: TransactionState, now: Date)
    requires WellFormed(tx) && tx.status in {Draft, Signing, Rejected, Discarded}
    requires draft == tx.(status := Draft, dates := Timestamps(Some(now), Some(now), None, None, None))
    ensures Replays(draft, tx, now)
  {
    hide Distinct;
  }

  lemma ReplaySubmitted(draft: TransactionState, tx: TransactionState, now: Date)
    requires WellFormed(tx) && tx.status in {Pending, Failed, Succeeded}
    requires draft == tx.(status := Draft, dates := Timestamps(Some(now), Some(now), None, None, None))
    ensures Replays(draft, tx, now)
  {
    hide Distinct;
  }

  lemma ReplayLoads(draft: TransactionState, tx: TransactionState, now: Date)
    requires WellFormed(tx)
    requires draft == tx.(status := Draft, dates := Timestamps(Some(now), Some(now), None, None, None))
    ensures Replays(draft, tx, now)
  {
    hide Replays;
    if tx.status in {Pending, Failed, Succeeded} {
      ReplaySubmitted(draft, tx, now);
    } else {
      ReplayUnsubmitted(draft, tx, now);
    }
  }

  function AddressIn(address: Option<Address>): set<Address> {
    if address.Some? then {address.value} else {}
  }

  function TokenIn(amount: Option<TokenAmount>): set<Address> {
    if amount.Some? && amount.value.token.AtAddress? then {amount.value.token.address} else {}
  }

  /** The parties, and the tokens spoken of. */
  function AddressesIn(p: Parameters): set<Address> {
    AddressIn(p.sender) + AddressIn(p.recipient) + TokenIn(p.amount) + TokenIn(p.fee) +
    TokenIn(if p.feeEstimate.Some? then Some(p.feeEstimate.value.gasPrice) else None)
  }

  /** Every address in a transaction, the signers' included. */
  function AddressesOf(tx: TransactionState): set<Address> {
    AddressesIn(tx.parameters) + (set i | 0 <= i < |tx.signatures| :: tx.signatures[i].address)
  }

  lemma ParametersReadableIff(p: Parameters)
    ensures Rebuilds(p) <==> forall a | a in AddressesIn(p) :: IsAddressText(a)
  {
    hide IsAddressText;
    PartyReadable(p.sender);
    PartyReadable(p.recipient);
    TokenReadable(p.amount);
    TokenReadable(p.fee);
    TokenReadable(if p.feeEstimate.Some? then Some(p.feeEstimate.value.gasPrice) else None);
    hide AddressIn, TokenIn;
  }

  lemma PartyReadable(party: Option<Address>)
    ensures Rebuildable(Sender(party)) <==> forall a | a in AddressIn(party) :: IsAddressText(a)
    ensures Rebuildable(Recipient(party)) <==> Rebuildable(Sender(party))
  {
    hide IsAddressText;
  }

  lemma TokenReadable(amount: Option<TokenAmount>)
    ensures Rebuildable(Amount(amount)) <==> forall a | a in TokenIn(amount) :: IsAddressText(a)
    ensures Rebuildable(Fee(amount)) <==> Rebuildable(Amount(amount))
  {
    hide IsAddressText;
  }

  /** The initialiser's two preconditions, for all of them. */
  lemma ReadableIff(tx: TransactionState)
    ensures Readable(tx) <==>
            forall a | a in AddressesOf(tx) :: "0x" <= a.text && (|EthHex(a.text)| == 20 || |EthHex(a.text)| == 0)
  {
    hide AddressesIn, Rebuilds, EthHex;
    ParametersReadableIff(tx.parameters);
    if forall a | a in AddressesOf(tx) :: IsAddressText(a) {
      forall i | 0 <= i < |tx.signatures| ensures IsAddressText(tx.signatures[i].address) {
        assert tx.signatures[i].address in AddressesOf(tx);
      }
    }
  }

  /** The transaction as the database gives it back: empty byte strings are missing, and the moment of
      restoring stands in for a missing creation or update date. */
  function AsRead(tx: TransactionState, now: Date): TransactionState {
    tx.(parameters := ReadBlobs(tx.parameters),
        dates := LoadDates(Timestamps(Some(now), Some(now), None, None, None), tx.dates))
  }

  /** Restoring a stored transaction traps exactly when some address in it does not pass the initialiser. */
  lemma RestoreStored(tx: TransactionState, now: Date)
    requires WellFormed(tx)
    ensures Restored(tx, now) == if Readable(tx) then Returns(AsRead(tx, now)) else Traps
  {
    hide LoadParameters, LoadSignatures, LoadRemaining, Replay, Rebuildable, ReadBlob, AllAddressTexts, Distinct,
         LoadDates;
    var start := NewTransaction(tx.walletID, now);
    var p := tx.parameters;
    ParametersLoad(start, p, now);
    var t1 := start.(parameters := NO_PARAMETERS.(sender := p.sender, recipient := p.recipient,
                                                  amount := p.amount, fee := p.fee));
    SignaturesLoad(t1, tx.signatures, now);
    var t2 := t1.(signatures := tx.signatures);
    RemainingLoad(t2, tx, now);
    var t3 := t2.(parameters := ReadBlobs(p), transactionHash := tx.transactionHash);
    ReplayLoads(t3, tx.(parameters := ReadBlobs(p)), now);
  }

  /** A reachable transaction is restored exactly when all its addresses can be read back, its data and hash
      are not empty byte strings, and it still has both dates: a reset clears them. */
  lemma RestoredExactlyIff(walletID: string, start: Date, acts: seq<Act>, now: Date)
    requires RunOf(walletID, start, acts).Returns?
    ensures var tx := RunOf(walletID, start, acts).value;
      Restored(tx, now) == Returns(tx) <==>
      && Readable(tx) && tx.parameters.data != Some([]) && tx.parameters.hash != Some([])
      && tx.dates.created.Some? && tx.dates.updated.Some?
  {
    hide Restored, Readable, RunOf;
    ReachableIsWellFormed(walletID, start, acts);
    RestoreStored(RunOf(walletID, start, acts).value, now);
  }

  lemma OneEdit(edit: Edit)
    ensures RunOf("wallet", 0.0, [Act(Change(edit), 0.0)]) ==
            Returns(NewTransaction("wallet", 0.0).(parameters := Edited(NO_PARAMETERS, edit)))
  {
    var acts := [Act(Change(edit), 0.0)];
    assert acts[..0] == [];
    assert RunOf("wallet", 0.0, acts[..0]) == Returns(NewTransaction("wallet", 0.0));
  }

  /** A draft whose data is the empty byte string comes back without data, and likewise its hash. */
  lemma EmptyBytesAreLost(edit: Edit)
    requires edit == TransactionData(Some([])) || edit == WalletHash(Some([]))
    ensures var tx := RunOf("wallet", 0.0, [Act(Change(edit), 0.0)]);
      && tx.Returns? && Edited(NO_PARAMETERS, edit) != NO_PARAMETERS
      && Restored(tx.value, 1.0) == Returns(tx.value.(parameters := NO_PARAMETERS))
  {
    hide Restored, RunOf;
    OneEdit(edit);
    RestoreStored(NewTransaction("wallet", 0.0).(parameters := Edited(NO_PARAMETERS, edit)), 1.0);
  }

  /** Forty hexadecimal digits without the prefix: an address a message may carry. */
  const UNPREFIXED := Address("00000000000000000000000000000000000000aa")

  /** A draft to such a recipient cannot be restored. */
  lemma UnprefixedRecipientTraps()
    ensures UNPREFIXED.Valid()
    ensures var tx := RunOf("wallet", 0.0, [Act(Change(Recipient(Some(UNPREFIXED))), 0.0)]);
      tx.Returns? && Restored(tx.value, 1.0) == Traps
  {
    hide Restored, RunOf, EthHex;
    UnprefixedIsValid();
    OneEdit(Recipient(Some(UNPREFIXED)));
    assert UNPREFIXED.text[1] == '0';
    RestoreStored(NewTransaction("wallet", 0.0).(parameters := NO_PARAMETERS.(recipient := Some(UNPREFIXED))), 1.0);
  }

  lemma UnprefixedIsValid()
    ensures UNPREFIXED.Valid()
  {
    hide EthHex, Pairs;
    EthHexOfPrefixed(UNPREFIXED.text);
  }
}
