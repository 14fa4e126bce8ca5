/** The transaction kinds: what each one requires, changes, and undoes. */
module Handlers {
  import opened Options
  import opened Ledgers
  import opened Movements

  datatype Asset =
    | Transfer
    | Registration(username: string)
    | Vote(votes: seq<Address>, unvotes: seq<Address>)
    | MultiSignatureRegistration(account: Address, multiSignature: MultiSignatureAsset)
    | MultiPayment(payments: seq<Payment>)
    | Resignation

  datatype Transaction = Transaction(sender: Address, nonce: int, fee: int, amount: int,
                                     recipient: Option<Address>, signatures: Option<nat>, asset: Asset)

  datatype Error =
    | MaxVotesExceeded | MaxUnvotesExceeded | EmptyVote | NoVote | UnvoteMismatch | AlreadyVoted
    | VotedForNonValidator | VotedForResignedValidator
    | NotSupportedForMultiSignatureWallet | WalletIsAlreadyValidator | UsernameAlreadyRegistered
    | WalletNotAValidator | WalletAlreadyResigned | NotEnoughValidators
    | MultiSignatureMinimumKeys | SignaturesUndefined | MultiSignatureKeyCountMismatch
    | MultiSignatureAlreadyRegistered | LegacyMultiSignature | UnsupportedMultiSignature
    | UnexpectedNonce | InsufficientBalance
    | ForgerNotAValidator | VoteBalanceUndefined | LastBlockUndefined | HeightGap

  /** What the transaction schemas guarantee: only transfers carry an amount, and they name a recipient. */
  predicate WellFormed(tx: Transaction) {
    if tx.asset.Transfer? then tx.recipient.Some? else tx.amount == 0
  }

  // ----- checks -----

  predicate UsernameTaken(l: Ledger, username: string) {
    exists a | a in l :: l[a].validator.Some? && l[a].validator.value.username == Some(username)
  }

  function ActiveValidators(l: Ledger): nat {
    |set a | a in l && l[a].validator.Some? && !l[a].validator.value.resigned|
  }

  function CheckUnvotes(l: Ledger, vote: Option<Address>, unvotes: seq<Address>): Result<Option<Address>, Error>
    decreases |unvotes|
  {
    if unvotes == [] then Ok(vote)
    else if vote.None? then Err(NoVote)
    else if vote.value != unvotes[0] then Err(UnvoteMismatch)
    else if At(l, unvotes[0]).validator.None? then Err(VotedForNonValidator)
    else CheckUnvotes(l, None, unvotes[1..])
  }

  function CheckVotes(l: Ledger, vote: Option<Address>, votes: seq<Address>): Option<Error>
    decreases |votes|
  {
    if votes == [] then None
    else if vote.Some? then Some(AlreadyVoted)
    else if At(l, votes[0]).validator.None? then Some(VotedForNonValidator)
    else if At(l, votes[0]).validator.value.resigned then Some(VotedForResignedValidator)
    else CheckVotes(l, vote, votes[1..])
  }

  function CheckAsset(l: Ledger, tx: Transaction, required: nat): Option<Error> {
    var w := At(l, tx.sender);
    match tx.asset
    case Transfer => None
    case Registration(username) =>
      if w.multiSignature.Some? then Some(NotSupportedForMultiSignatureWallet)
      else if w.validator.Some? then Some(WalletIsAlreadyValidator)
      else if UsernameTaken(l, username) then Some(UsernameAlreadyRegistered)
      else None
    case Vote(votes, unvotes) =>
      if |votes| > 1 then Some(MaxVotesExceeded)
      else if |unvotes| > 1 then Some(MaxUnvotesExceeded)
      else if |votes| + |unvotes| == 0 then Some(EmptyVote)
      else (match CheckUnvotes(l, w.vote, unvotes)
            case Err(e) => Some(e)
            case Ok(vote) => CheckVotes(l, vote, votes))
    case MultiSignatureRegistration(account, asset) =>
      if asset.min < 1 || asset.min > asset.publicKeys || asset.min > 16 then Some(MultiSignatureMinimumKeys)
      else if tx.signatures.None? then Some(SignaturesUndefined)
      else if asset.publicKeys != tx.signatures.value then Some(MultiSignatureKeyCountMismatch)
      else if At(l, account).multiSignature.Some? then Some(MultiSignatureAlreadyRegistered)
      else None
    case MultiPayment(payments) =>
      if w.balance - TotalOf(payments) - tx.fee < 0 then Some(InsufficientBalance) else None
    case Resignation =>
      if w.validator.None? then Some(WalletNotAValidator)
      else if w.validator.value.resigned then Some(WalletAlreadyResigned)
      else if ActiveValidators(l) - 1 < required then Some(NotEnoughValidators)
      else None
  }

  function CheckBase(l: Ledger, tx: Transaction): Option<Error> {
    var w := At(l, tx.sender);
    if w.nonce + 1 != tx.nonce then Some(UnexpectedNonce)
    else if w.balance - tx.amount - tx.fee < 0 then Some(InsufficientBalance)
    else if w.multiSignature.Some? then (if w.multiSignature.value.legacy then Some(LegacyMultiSignature) else None)
    else if tx.signatures.Some? && !tx.asset.MultiSignatureRegistration? then Some(UnsupportedMultiSignature)
    else None
  }

  /** Why `tx` cannot be applied, when `required` validators must stay active. */
  function Check(l: Ledger, tx: Transaction, required: nat): Option<Error> {
    if CheckAsset(l, tx, required).Some? then CheckAsset(l, tx, required) else CheckBase(l, tx)
  }

  // ----- applying -----

  function Last(xs: seq<Address>, default: Option<Address>): Option<Address> {
    if xs == [] then default else Some(xs[|xs| - 1])
  }

  function VoteAfter(vote: Option<Address>, votes: seq<Address>, unvotes: seq<Address>): Option<Address> {
    Last(votes, if unvotes == [] then vote else None)
  }

  function ResignedAs(w: Wallet, resigned: bool): Wallet {
    match w.validator
    case Some(d) => w.(validator := Some(d.(resigned := resigned)))
    case None => w.(validator := Some(Validator(None, 0, resigned)))
  }

  function ApplyBase(l: Ledger, tx: Transaction): Ledger {
    var w := At(l, tx.sender);
    Put(l, tx.sender, w.(nonce := tx.nonce, balance := w.balance - tx.amount - tx.fee))
  }

  function ApplyToSender(l: Ledger, tx: Transaction): Ledger {
    var m := ApplyBase(l, tx);
    var w := At(m, tx.sender);
    match tx.asset
    case Transfer => m
    case Registration(username) =>
      Put(m, tx.sender, w.(validator := Some(Validator(Some(username), 0, false))))
    case Vote(votes, unvotes) => Put(m, tx.sender, w.(vote := VoteAfter(w.vote, votes, unvotes)))
    case MultiSignatureRegistration(_, _) => m
    case MultiPayment(payments) => Credit(m, tx.sender, -TotalOf(payments))
    case Resignation => Put(m, tx.sender, ResignedAs(w, true))
  }

  function ApplyToRecipient(l: Ledger, tx: Transaction): Ledger
    requires WellFormed(tx)
  {
    match tx.asset
    case Transfer => Credit(l, tx.recipient.value, tx.amount)
    case MultiSignatureRegistration(account, asset) =>
      Put(l, account, At(l, account).(multiSignature := Some(asset)))
    case MultiPayment(payments) => CreditAll(l, payments)
    case _ => l
  }

  function ApplyHandler(l: Ledger, tx: Transaction): Ledger
    requires WellFormed(tx)
  {
    ApplyToRecipient(ApplyToSender(l, tx), tx)
  }

  // ----- reverting -----

  function RevertBase(l: Ledger, tx: Transaction): Ledger {
    var w := At(l, tx.sender);
    Put(l, tx.sender, w.(nonce := w.nonce - 1, balance := w.balance + (tx.amount + tx.fee)))
  }

  function RevertForSender(l: Ledger, tx: Transaction): Ledger {
    var m := RevertBase(l, tx);
    var w := At(m, tx.sender);
    match tx.asset
    case Transfer => m
    case Registration(_) => Put(m, tx.sender, w.(validator := None))
    case Vote(votes, unvotes) => Put(m, tx.sender, w.(vote := VoteAfter(w.vote, unvotes, votes)))
    case MultiSignatureRegistration(_, _) => m
    case MultiPayment(payments) => Credit(m, tx.sender, TotalOf(payments))
    case Resignation => Put(m, tx.sender, ResignedAs(w, false))
  }

  function RevertForRecipient(l: Ledger, tx: Transaction): Ledger
    requires WellFormed(tx)
  {
    match tx.asset
    case Transfer => Credit(l, tx.recipient.value, -tx.amount)
    case MultiSignatureRegistration(account, _) => Put(l, account, At(l, account).(multiSignature := None))
    case MultiPayment(payments) => CreditAll(l, Negated(payments))
    case _ => l
  }

  function RevertHandler(l: Ledger, tx: Transaction): Ledger
    requires WellFormed(tx)
  {
    RevertForRecipient(RevertForSender(l, tx), tx)
  }

  // ----- vote balances -----

  function PaymentsOf(tx: Transaction): seq<Payment> {
    if tx.asset.MultiPayment? then tx.asset.payments else []
  }

  /** The balance changes of a transaction, in the order their vote balances are updated. */
  function MovementsOf(tx: Transaction): seq<Payment> {
    var amount := if tx.asset.MultiPayment? then TotalOf(tx.asset.payments) else tx.amount;
    [Payment(tx.sender, -(amount + tx.fee))] + PaymentsOf(tx) +
    if tx.recipient.Some? then [Payment(tx.recipient.value, tx.amount)] else []
  }

  function Signed(amount: int, negative: bool): int {
    if negative then -amount else amount
  }

  /** A vote moves the sender's whole balance: from the old validator with the fee, to the new one without. */
  function MoveVote(l: Ledger, votes: seq<Address>, unvotes: seq<Address>,
                    amount: int, fee: int, revert: bool): Ledger {
    var m := if unvotes == [] then l else Bump(l, unvotes[0], Signed(amount + fee, !revert));
    if votes == [] then m else Bump(m, votes[0], Signed(amount, revert))
  }

  function UpdateVoteBalances(l: Ledger, tx: Transaction, revert: bool): Ledger {
    match tx.asset
    case Vote(votes, unvotes) =>
      MoveVote(l, votes, unvotes, At(l, tx.sender).balance - (if revert then tx.fee else 0), tx.fee, revert)
    case _ => BumpForAll(l, if revert then Negated(MovementsOf(tx)) else MovementsOf(tx))
  }

  // ----- whole transactions -----

  /** `applyTransaction`: a rejected transaction changes nothing. */
  function Apply(l: Ledger, tx: Transaction, required: nat): Ledger
    requires WellFormed(tx)
  {
    if Check(l, tx, required).Some? then l else UpdateVoteBalances(ApplyHandler(l, tx), tx, false)
  }

  predicate NonceMatches(l: Ledger, tx: Transaction) {
    At(l, tx.sender).nonce == tx.nonce
  }

  /** `revertTransaction`: it gives the amount and the fee back before it finds out about a wrong nonce. */
  function Revert(l: Ledger, tx: Transaction): Ledger
    requires WellFormed(tx)
  {
    if !NonceMatches(l, tx) then Credit(l, tx.sender, tx.amount + tx.fee)
    else UpdateVoteBalances(RevertHandler(l, tx), tx, true)
  }
}
