/**
 * The token-staking ledger as values: token balances, per-operator stakes and
 * delegation records, and one transition function per operation. Each
 * transition either fails with an error (the call reverts and nothing
 * changes) or returns the whole new ledger.
 *
 * Time is an abstract clock `now: nat` (the block height) handed to every
 * operation. The staking contract holds the delegated tokens in its own token
 * balance, at the address `custody`.
 */
module StakingLedger {
  import opened Wrappers
  import opened MapSum
  import opened Octets
  import opened StakingPayload

  /** Fixed at construction: the staking contract's own address and its two periods. */
  datatype Config = Config(custody: Address, initializationPeriod: nat, undelegationPeriod: nat)

  /** What the contract remembers about the stake delegated to one operator. */
  datatype Delegation = Delegation(
    owner: Address,
    magpie: Address,
    authorizer: Address,
    createdAt: nat,
    undelegatedAt: Option<nat>)

  datatype Ledger = Ledger(
    tokens: map<Address, nat>,           // token balances (absent means 0)
    stakes: map<Address, nat>,           // operator -> staked amount
    operators: map<Address, Delegation>) // operator -> delegation record

  datatype StakeError =
    | InsufficientBalance        // a token transfer would overdraw its sender
    | InvalidPayload             // the delegation data is not 60 bytes
    | InvalidAmount              // a delegation of zero tokens
    | OperatorAlreadyStaked      // the operator already holds a live stake
    | NoStakeFound               // no live stake for the operator
    | NotInInitializationPeriod  // cancel attempted once the stake is initialized
    | Unauthorized               // the caller lacks the role the operation needs
    | AlreadyUndelegating        // undelegate attempted twice
    | UndelegationPeriodNotElapsed

  /** `token.balanceOf(a)`. */
  function Balance(tokens: map<Address, nat>, a: Address): (b: nat)
    ensures a !in tokens ==> b == 0
  {
    if a in tokens then tokens[a] else 0
  }

  /** `stakingContract.balanceOf(operator)`. */
  function StakeOf(l: Ledger, operator: Address): (s: nat)
    ensures operator !in l.stakes ==> s == 0
  {
    if operator in l.stakes then l.stakes[operator] else 0
  }

  /**
   * The ledger's invariant: every live delegation has a positive stake entry
   * and vice versa, and the contract's own token balance covers all stakes.
   */
  ghost predicate Valid(cfg: Config, l: Ledger)
  {
    && l.stakes.Keys == l.operators.Keys
    && (forall o :: o in l.stakes ==> l.stakes[o] > 0)
    && Sum(l.stakes) <= Balance(l.tokens, cfg.custody)
  }

  /** The token contract's internal transfer of `amount` from `from` to `to`. */
  function Move(tokens: map<Address, nat>, from: Address, to: Address, amount: nat): (r: map<Address, nat>)
    requires amount <= Balance(tokens, from)
    ensures forall a :: (Balance(r, a)
      == Balance(tokens, a) - (if a == from then amount else 0) + (if a == to then amount else 0))
  {
    var debited := tokens[from := Balance(tokens, from) - amount];
    debited[to := Balance(debited, to) + amount]
  }

  /** `token.transfer(to, amount, {from})`. */
  function Transfer(l: Ledger, from: Address, to: Address, amount: nat): (r: Result<Ledger, StakeError>)
    ensures r.Success? <==> amount <= Balance(l.tokens, from)
    ensures r.Success? ==> r.value.stakes == l.stakes && r.value.operators == l.operators
  {
    if Balance(l.tokens, from) < amount then Failure(InsufficientBalance)
    else Success(l.(tokens := Move(l.tokens, from, to, amount)))
  }

  /**
   * `token.approveAndCall(stakingContract, amount, data, {from: owner})`: the
   * token contract hands the approval to the staking contract, which decodes
   * `data`, pulls `amount` from the owner into its own balance and records the
   * delegation, created at `now` and not undelegated.
   */
  function ApproveAndCall(cfg: Config, l: Ledger, owner: Address, amount: nat, data: seq<Byte>, now: nat)
    : (r: Result<Ledger, StakeError>)
    ensures Decode(data).None? ==> r == Failure(InvalidPayload)
    ensures r.Success? ==> 0 < amount <= Balance(l.tokens, owner) && Decode(data).value.operator !in l.operators
  {
    match Decode(data)
    case None => Failure(InvalidPayload)
    case Some(p) =>
      if amount == 0 then Failure(InvalidAmount)
      else if p.operator in l.operators then Failure(OperatorAlreadyStaked)
      else if Balance(l.tokens, owner) < amount then Failure(InsufficientBalance)
      else Success(Ledger(
        Move(l.tokens, owner, cfg.custody, amount),
        l.stakes[p.operator := amount],
        l.operators[p.operator := Delegation(owner, p.magpie, p.authorizer, now, None)]))
  }

  /** Pays a closed stake back to its owner and forgets the operator's record. */
  function Close(cfg: Config, l: Ledger, operator: Address): (r: Result<Ledger, StakeError>)
    requires operator in l.operators
    ensures r.Success? ==> operator !in r.value.stakes && operator !in r.value.operators
  {
    var amount := StakeOf(l, operator);
    if Balance(l.tokens, cfg.custody) < amount then Failure(InsufficientBalance)
    else Success(Ledger(
      Move(l.tokens, cfg.custody, l.operators[operator].owner, amount),
      l.stakes - {operator},
      l.operators - {operator}))
  }

  /**
   * `cancelStake(operator, {from: caller})`: only the owner, and only strictly
   * before `createdAt + initializationPeriod`.
   */
  function CancelStake(cfg: Config, l: Ledger, caller: Address, operator: Address, now: nat)
    : (r: Result<Ledger, StakeError>)
    ensures r.Success? ==> operator in l.operators && caller == l.operators[operator].owner
    ensures r.Success? ==> operator !in r.value.operators
  {
    if operator !in l.operators then Failure(NoStakeFound)
    else
      var d := l.operators[operator];
      if caller != d.owner then Failure(Unauthorized)
      else if now >= d.createdAt + cfg.initializationPeriod then Failure(NotInInitializationPeriod)
      else Close(cfg, l, operator)
  }

  /** `undelegate(operator, {from: caller})`: only the operator, and only once. */
  function Undelegate(l: Ledger, caller: Address, operator: Address, now: nat): (r: Result<Ledger, StakeError>)
    ensures r.Success? ==> caller == operator && r.value.tokens == l.tokens && r.value.stakes == l.stakes
  {
    if operator !in l.operators then Failure(NoStakeFound)
    else
      var d := l.operators[operator];
      if caller != operator then Failure(Unauthorized)
      else if d.undelegatedAt.Some? then Failure(AlreadyUndelegating)
      else Success(l.(operators := l.operators[operator := d.(undelegatedAt := Some(now))]))
  }

  /**
   * `recoverStake(operator)`, callable by anyone: only once the stake was
   * undelegated and `now >= undelegatedAt + undelegationPeriod`.
   */
  function RecoverStake(cfg: Config, l: Ledger, operator: Address, now: nat): (r: Result<Ledger, StakeError>)
    ensures r.Success? ==> operator in l.operators && l.operators[operator].undelegatedAt.Some?
    ensures r.Success? ==> operator !in r.value.operators
  {
    if operator !in l.operators then Failure(NoStakeFound)
    else
      var d := l.operators[operator];
      if d.undelegatedAt.None? then Failure(NoStakeFound)
      else if now < d.undelegatedAt.value + cfg.undelegationPeriod then Failure(UndelegationPeriodNotElapsed)
      else Close(cfg, l, operator)
  }

  /** One call made to the token or the staking contract. */
  datatype Call =
    | TransferCall(from: Address, to: Address, amount: nat)
    | ApproveAndCallCall(owner: Address, amount: nat, data: seq<Byte>)
    | CancelStakeCall(caller: Address, operator: Address)
    | UndelegateCall(caller: Address, operator: Address)
    | RecoverStakeCall(operator: Address)

  function Apply(cfg: Config, l: Ledger, c: Call, now: nat): Result<Ledger, StakeError>
  {
    match c
    case TransferCall(from, to, amount) => Transfer(l, from, to, amount)
    case ApproveAndCallCall(owner, amount, data) => ApproveAndCall(cfg, l, owner, amount, data, now)
    case CancelStakeCall(caller, operator) => CancelStake(cfg, l, caller, operator, now)
    case UndelegateCall(caller, operator) => Undelegate(l, caller, operator, now)
    case RecoverStakeCall(operator) => RecoverStake(cfg, l, operator, now)
  }

  /** Calls that only an external account makes: the staking contract itself never sends them. */
  predicate External(cfg: Config, c: Call)
  {
    match c
    case TransferCall(from, _, _) => from != cfg.custody
    case ApproveAndCallCall(owner, _, _) => owner != cfg.custody
    case _ => true
  }

  /** A call is atomic: on success the state becomes the new ledger, on failure it stays as it was. */
  predicate Committed(before: Ledger, r: Result<Ledger, StakeError>, after: Ledger, outcome: Outcome<StakeError>)
  {
    match r
    case Success(l) => after == l && outcome == Pass
    case Failure(e) => after == before && outcome == Fail(e)
  }

  // ---------------------------------------------------------------------------
  // Token transfers
  // ---------------------------------------------------------------------------

  /** Moving tokens keeps the total supply. */
  lemma MoveConservesSupply(tokens: map<Address, nat>, from: Address, to: Address, amount: nat)
    requires amount <= Balance(tokens, from)
    ensures Sum(Move(tokens, from, to, amount)) == Sum(tokens)
  {
    var debited := tokens[from := Balance(tokens, from) - amount];
    SumUpdate(tokens, from, Balance(tokens, from) - amount);
    SumUpdate(debited, to, Balance(debited, to) + amount);
  }

  /**
   * A transfer succeeds exactly when the sender holds `amount`; it then lowers
   * the sender's balance by exactly `amount`, raises the receiver's by exactly
   * `amount`, and touches no other balance and no stake.
   */
  lemma TransferMovesAmount(l: Ledger, from: Address, to: Address, amount: nat)
    requires from != to
    ensures Transfer(l, from, to, amount).Success? <==> amount <= Balance(l.tokens, from)
    ensures Transfer(l, from, to, amount).Failure? ==> Transfer(l, from, to, amount).error == InsufficientBalance
    ensures Transfer(l, from, to, amount).Success? ==>
      var r := Transfer(l, from, to, amount).value;
      && Balance(r.tokens, from) == Balance(l.tokens, from) - amount
      && Balance(r.tokens, to) == Balance(l.tokens, to) + amount
      && (forall a :: a != from && a != to ==> Balance(r.tokens, a) == Balance(l.tokens, a))
      && r.stakes == l.stakes && r.operators == l.operators
  {
  }

  // ---------------------------------------------------------------------------
  // Delegation
  // ---------------------------------------------------------------------------

  /**
   * Delegating succeeds exactly when the payload is 60 bytes, the amount is
   * positive, the operator holds no live stake and the owner has the tokens.
   * It then lowers the owner's balance by exactly `amount`, sets the
   * operator's stake to `amount` and records the decoded addresses.
   */
  lemma ApproveAndCallDelegates(cfg: Config, l: Ledger, owner: Address, amount: nat, m: Address, op: Address, au: Address, now: nat)
    requires owner != cfg.custody
    ensures var r := ApproveAndCall(cfg, l, owner, amount, Encode(Payload(m, op, au)), now);
      && (r.Success? <==> amount > 0 && op !in l.operators && amount <= Balance(l.tokens, owner))
      && (r.Failure? && amount == 0 ==> r.error == InvalidAmount)
      && (r.Failure? && amount > 0 && op in l.operators ==> r.error == OperatorAlreadyStaked)
      && (amount > 0 && op !in l.operators && Balance(l.tokens, owner) < amount ==> r == Failure(InsufficientBalance))
      && (r.Success? ==>
        && Balance(r.value.tokens, owner) == Balance(l.tokens, owner) - amount
        && Balance(r.value.tokens, cfg.custody) == Balance(l.tokens, cfg.custody) + amount
        && StakeOf(r.value, op) == amount
        && r.value.operators[op] == Delegation(owner, m, au, now, None)
        && (forall o :: o != op ==> StakeOf(r.value, o) == StakeOf(l, o))
        && (forall a :: a != owner && a != cfg.custody ==> Balance(r.value.tokens, a) == Balance(l.tokens, a))
        && r.value.operators.Keys == l.operators.Keys + {op}
        && (forall o :: o in l.operators && o != op ==> r.value.operators[o] == l.operators[o]))
  {
    DecodeEncode(Payload(m, op, au));
  }

  /** Data of any length but 60 bytes is refused. */
  lemma ApproveAndCallRejectsMalformedData(cfg: Config, l: Ledger, owner: Address, amount: nat, data: seq<Byte>, now: nat)
    requires |data| != PayloadLength
    ensures ApproveAndCall(cfg, l, owner, amount, data, now) == Failure(InvalidPayload)
  {
  }

  // ---------------------------------------------------------------------------
  // Cancelling, undelegating and recovering
  // ---------------------------------------------------------------------------

  /** Closing a stake pays exactly its amount from the contract back to the owner. */
  lemma CloseRefundsOwner(cfg: Config, l: Ledger, operator: Address)
    requires Valid(cfg, l) && operator in l.operators
    ensures var r := Close(cfg, l, operator);
      var owner := l.operators[operator].owner;
      var amount := StakeOf(l, operator);
      && r.Success?
      && (owner != cfg.custody ==>
        && Balance(r.value.tokens, owner) == Balance(l.tokens, owner) + amount
        && Balance(r.value.tokens, cfg.custody) == Balance(l.tokens, cfg.custody) - amount)
      && (forall a :: a != owner && a != cfg.custody ==> Balance(r.value.tokens, a) == Balance(l.tokens, a))
      && operator !in r.value.operators && StakeOf(r.value, operator) == 0
      && r.value.stakes == l.stakes - {operator} && r.value.operators == l.operators - {operator}
  {
    SumRemove(l.stakes, operator);
    SumNonNegative(l.stakes - {operator});
  }

  /**
   * `cancelStake` succeeds exactly for the owner strictly inside the
   * initialization period; once `initializationPeriod` has passed since the
   * delegation it fails with `NotInInitializationPeriod`.
   */
  lemma CancelStakeSucceedsIff(cfg: Config, l: Ledger, caller: Address, operator: Address, now: nat)
    requires Valid(cfg, l)
    ensures var r := CancelStake(cfg, l, caller, operator, now);
      && (r.Success? <==>
        && operator in l.operators
        && caller == l.operators[operator].owner
        && now < l.operators[operator].createdAt + cfg.initializationPeriod)
      && (operator !in l.operators ==> r == Failure(NoStakeFound))
      && (operator in l.operators && caller != l.operators[operator].owner ==> r == Failure(Unauthorized))
      && (operator in l.operators && caller == l.operators[operator].owner
          && now >= l.operators[operator].createdAt + cfg.initializationPeriod
          ==> r == Failure(NotInInitializationPeriod))
      && (r.Success? ==> r.value == Close(cfg, l, operator).value)
  {
    if operator in l.operators {
      CloseRefundsOwner(cfg, l, operator);
    }
  }

  /**
   * `undelegate` succeeds exactly for the operator itself on a live stake that
   * was not yet undelegated, and then stamps `undelegatedAt = now` and changes
   * nothing else.
   */
  lemma UndelegateSucceedsIff(l: Ledger, caller: Address, operator: Address, now: nat)
    ensures var r := Undelegate(l, caller, operator, now);
      && (r.Success? <==>
        operator in l.operators && caller == operator && l.operators[operator].undelegatedAt.None?)
      && (operator !in l.operators ==> r == Failure(NoStakeFound))
      && (operator in l.operators && caller != operator ==> r == Failure(Unauthorized))
      && (operator in l.operators && caller == operator && l.operators[operator].undelegatedAt.Some?
          ==> r == Failure(AlreadyUndelegating))
      && (r.Success? ==>
        && r.value.operators[operator] == l.operators[operator].(undelegatedAt := Some(now))
        && r.value.tokens == l.tokens && r.value.stakes == l.stakes
        && r.value.operators.Keys == l.operators.Keys
        && (forall o :: o in l.operators && o != operator ==> r.value.operators[o] == l.operators[o]))
  {
  }

  /**
   * `recoverStake` succeeds exactly on an undelegated stake once
   * `undelegationPeriod` has passed since the undelegation; before that it
   * fails with `UndelegationPeriodNotElapsed`.
   */
  lemma RecoverStakeSucceedsIff(cfg: Config, l: Ledger, operator: Address, now: nat)
    requires Valid(cfg, l)
    ensures var r := RecoverStake(cfg, l, operator, now);
      && (r.Success? <==>
        && operator in l.operators
        && l.operators[operator].undelegatedAt.Some?
        && now >= l.operators[operator].undelegatedAt.value + cfg.undelegationPeriod)
      && (operator !in l.operators ==> r == Failure(NoStakeFound))
      && (operator in l.operators && l.operators[operator].undelegatedAt.None? ==> r == Failure(NoStakeFound))
      && (operator in l.operators && l.operators[operator].undelegatedAt.Some?
          && now < l.operators[operator].undelegatedAt.value + cfg.undelegationPeriod
          ==> r == Failure(UndelegationPeriodNotElapsed))
      && (r.Success? ==> r.value == Close(cfg, l, operator).value)
  {
    if operator in l.operators {
      CloseRefundsOwner(cfg, l, operator);
    }
  }

  /**
   * Once a stake is closed (cancelled or recovered) nothing is left for its
   * operator: cancelling, undelegating or recovering again fails with
   * `NoStakeFound`, and the operator can be delegated to again as if fresh.
   */
  lemma ClosedOperatorIsFresh(cfg: Config, l: Ledger, operator: Address, caller: Address, now: nat)
    requires Valid(cfg, l) && operator in l.operators
    ensures Close(cfg, l, operator).Success?
    ensures var r := Close(cfg, l, operator).value;
      && StakeOf(r, operator) == 0
      && CancelStake(cfg, r, caller, operator, now) == Failure(NoStakeFound)
      && Undelegate(r, caller, operator, now) == Failure(NoStakeFound)
      && RecoverStake(cfg, r, operator, now) == Failure(NoStakeFound)
  {
    CloseRefundsOwner(cfg, l, operator);
  }

  // ---------------------------------------------------------------------------
  // Invariants over every call
  // ---------------------------------------------------------------------------

  /** Every successful call made by an external account keeps the ledger's invariant. */
  lemma ApplyPreservesValid(cfg: Config, l: Ledger, c: Call, now: nat)
    requires Valid(cfg, l) && External(cfg, c)
    ensures Apply(cfg, l, c, now).Success? ==> Valid(cfg, Apply(cfg, l, c, now).value)
  {
    var r := Apply(cfg, l, c, now);
    if r.Success? {
      match c
      case TransferCall(from, to, amount) =>
      case ApproveAndCallCall(owner, amount, data) =>
        var p := Decode(data).value;
        SumUpdate(l.stakes, p.operator, amount);
      case CancelStakeCall(caller, operator) =>
        CloseValid(cfg, l, operator);
      case UndelegateCall(caller, operator) =>
      case RecoverStakeCall(operator) =>
        CloseValid(cfg, l, operator);
    }
  }

  lemma CloseValid(cfg: Config, l: Ledger, operator: Address)
    requires Valid(cfg, l) && operator in l.operators
    ensures Close(cfg, l, operator).Success? && Valid(cfg, Close(cfg, l, operator).value)
  {
    CloseRefundsOwner(cfg, l, operator);
    SumRemove(l.stakes, operator);
  }

  /** No delegation belongs to the staking contract's own account. */
  ghost predicate NoCustodyOwner(cfg: Config, l: Ledger)
  {
    forall o :: o in l.operators ==> l.operators[o].owner != cfg.custody
  }

  /** The tokens the staking contract holds beyond the live stakes. */
  ghost function Surplus(cfg: Config, l: Ledger): int
  {
    Balance(l.tokens, cfg.custody) - Sum(l.stakes)
  }

  /**
   * The exact custody balance: a successful external call leaves the
   * contract's holdings beyond the live stakes unchanged, except that a plain
   * transfer to the contract's address raises them by exactly the amount.
   * Delegating, cancelling and recovering move the stake and the custody
   * balance together, so custody holds exactly the stakes plus what was sent
   * to it directly.
   */
  lemma ApplyKeepsSurplus(cfg: Config, l: Ledger, c: Call, now: nat)
    requires Valid(cfg, l) && NoCustodyOwner(cfg, l) && External(cfg, c)
    ensures Apply(cfg, l, c, now).Success? ==>
      var after := Apply(cfg, l, c, now).value;
      && NoCustodyOwner(cfg, after)
      && Surplus(cfg, after)
        == Surplus(cfg, l) + (if c.TransferCall? && c.to == cfg.custody then c.amount else 0)
  {
    var r := Apply(cfg, l, c, now);
    if r.Success? {
      match c
      case TransferCall(from, to, amount) =>
        assert r.value.stakes == l.stakes && r.value.operators == l.operators;
      case ApproveAndCallCall(owner, amount, data) =>
        ApproveAndCallKeepsSurplus(cfg, l, owner, amount, data, now);
      case CancelStakeCall(caller, operator) =>
        CloseKeepsSurplus(cfg, l, operator);
      case UndelegateCall(caller, operator) =>
      case RecoverStakeCall(operator) =>
        CloseKeepsSurplus(cfg, l, operator);
    }
  }

  /** A delegation raises custody's balance and the sum of stakes by the same amount. */
  lemma ApproveAndCallKeepsSurplus(cfg: Config, l: Ledger, owner: Address, amount: nat, data: seq<Byte>, now: nat)
    requires Valid(cfg, l) && NoCustodyOwner(cfg, l) && owner != cfg.custody
    requires ApproveAndCall(cfg, l, owner, amount, data, now).Success?
    ensures NoCustodyOwner(cfg, ApproveAndCall(cfg, l, owner, amount, data, now).value)
    ensures Surplus(cfg, ApproveAndCall(cfg, l, owner, amount, data, now).value) == Surplus(cfg, l)
  {
    var p := Decode(data).value;
    SumUpdate(l.stakes, p.operator, amount);
  }

  /** Closing a stake lowers custody's balance and the sum of stakes by the same amount. */
  lemma CloseKeepsSurplus(cfg: Config, l: Ledger, operator: Address)
    requires Valid(cfg, l) && NoCustodyOwner(cfg, l) && operator in l.operators
    ensures Close(cfg, l, operator).Success?
    ensures NoCustodyOwner(cfg, Close(cfg, l, operator).value)
    ensures Surplus(cfg, Close(cfg, l, operator).value) == Surplus(cfg, l)
  {
    CloseRefundsOwner(cfg, l, operator);
    SumRemove(l.stakes, operator);
  }

  /** No call creates or destroys tokens: the sum of all token balances is unchanged. */
  lemma ApplyConservesSupply(cfg: Config, l: Ledger, c: Call, now: nat)
    ensures Apply(cfg, l, c, now).Success? ==> Sum(Apply(cfg, l, c, now).value.tokens) == Sum(l.tokens)
  {
    var r := Apply(cfg, l, c, now);
    if r.Success? {
      match c
      case TransferCall(from, to, amount) =>
        MoveConservesSupply(l.tokens, from, to, amount);
      case ApproveAndCallCall(owner, amount, data) =>
        MoveConservesSupply(l.tokens, owner, cfg.custody, amount);
      case CancelStakeCall(caller, operator) =>
        MoveConservesSupply(l.tokens, cfg.custody, l.operators[operator].owner, StakeOf(l, operator));
      case UndelegateCall(caller, operator) =>
      case RecoverStakeCall(operator) =>
        MoveConservesSupply(l.tokens, cfg.custody, l.operators[operator].owner, StakeOf(l, operator));
    }
  }

  // ---------------------------------------------------------------------------
  // The two delegation scenarios
  // ---------------------------------------------------------------------------

  /**
   * Delegate, then cancel inside the initialization period: the owner's
   * balance is back to its value before the delegation, every other balance
   * too, and the operator's stake is 0.
   */
  lemma CancelUndoesDelegation(cfg: Config, l: Ledger, owner: Address, amount: nat, m: Address, op: Address, au: Address, t0: nat, t1: nat)
    requires Valid(cfg, l) && owner != cfg.custody
    requires 0 < amount <= Balance(l.tokens, owner) && op !in l.operators
    requires t1 < t0 + cfg.initializationPeriod
    ensures var d := ApproveAndCall(cfg, l, owner, amount, Encode(Payload(m, op, au)), t0);
      && d.Success?
      && Balance(d.value.tokens, owner) == Balance(l.tokens, owner) - amount
      && StakeOf(d.value, op) == amount
      && var c := CancelStake(cfg, d.value, owner, op, t1);
      && c.Success?
      && (forall a :: Balance(c.value.tokens, a) == Balance(l.tokens, a))
      && StakeOf(c.value, op) == 0
      && c.value.stakes == l.stakes && c.value.operators == l.operators
  {
    var data := Encode(Payload(m, op, au));
    DelegateToFreshOperator(cfg, l, owner, amount, m, op, au, t0);
    var d := ApproveAndCall(cfg, l, owner, amount, data, t0).value;
    CloseRefundsOwner(cfg, d, op);
    var c := CancelStake(cfg, d, owner, op, t1).value;
    assert c == Close(cfg, d, op).value;
    assert d.stakes - {op} == l.stakes;
    assert d.operators - {op} == l.operators;
  }

  /**
   * A delegation to an operator without a stake, by an owner holding the
   * amount, succeeds with exactly the ledger the contract builds and keeps
   * the invariant.
   */
  lemma DelegateToFreshOperator(cfg: Config, l: Ledger, owner: Address, amount: nat, m: Address, op: Address, au: Address, now: nat)
    requires Valid(cfg, l) && owner != cfg.custody
    requires 0 < amount <= Balance(l.tokens, owner) && op !in l.operators
    ensures var r := ApproveAndCall(cfg, l, owner, amount, Encode(Payload(m, op, au)), now);
      && r == Success(Ledger(
        Move(l.tokens, owner, cfg.custody, amount),
        l.stakes[op := amount],
        l.operators[op := Delegation(owner, m, au, now, None)]))
      && Valid(cfg, r.value)
  {
    DecodeEncode(Payload(m, op, au));
    SumUpdate(l.stakes, op, amount);
  }

  /**
   * Delegate; once the initialization period has passed cancelling fails; the
   * operator undelegates; recovering fails until the undelegation period has
   * passed, then succeeds once and a second recovery fails. No failed call
   * moves tokens, so the owner ends with its starting balance and the
   * operator's stake is 0; delegating to the operator again behaves as a
   * fresh delegation.
   */
  lemma UndelegateThenRecover(
    cfg: Config, l: Ledger, owner: Address, amount: nat, m: Address, op: Address, au: Address,
    tDelegate: nat, tCancel: nat, tUndelegate: nat, tEarly: nat, tRecover: nat, tAgain: nat, tRedelegate: nat)
    requires Valid(cfg, l) && owner != cfg.custody
    requires 0 < amount <= Balance(l.tokens, owner) && op !in l.operators
    requires tCancel >= tDelegate + cfg.initializationPeriod
    requires tEarly < tUndelegate + cfg.undelegationPeriod
    requires tRecover >= tUndelegate + cfg.undelegationPeriod
    ensures var data := Encode(Payload(m, op, au));
      var l1 := ApproveAndCall(cfg, l, owner, amount, data, tDelegate);
      && l1.Success?
      && CancelStake(cfg, l1.value, owner, op, tCancel) == Failure(NotInInitializationPeriod)
      && var l2 := Undelegate(l1.value, op, op, tUndelegate);
      && l2.Success?
      && RecoverStake(cfg, l2.value, op, tEarly) == Failure(UndelegationPeriodNotElapsed)
      && var l3 := RecoverStake(cfg, l2.value, op, tRecover);
      && l3.Success?
      && RecoverStake(cfg, l3.value, op, tAgain) == Failure(NoStakeFound)
      && Balance(l3.value.tokens, owner) == Balance(l.tokens, owner)
      && StakeOf(l3.value, op) == 0
      && var l4 := ApproveAndCall(cfg, l3.value, owner, amount, data, tRedelegate);
      && l4.Success?
      && Balance(l4.value.tokens, owner) == Balance(l3.value.tokens, owner) - amount
      && StakeOf(l4.value, op) == amount
  {
    var data := Encode(Payload(m, op, au));
    ApproveAndCallDelegates(cfg, l, owner, amount, m, op, au, tDelegate);
    var l1 := ApproveAndCall(cfg, l, owner, amount, data, tDelegate).value;
    ApplyPreservesValid(cfg, l, ApproveAndCallCall(owner, amount, data), tDelegate);
    CancelStakeSucceedsIff(cfg, l1, owner, op, tCancel);

    UndelegateSucceedsIff(l1, op, op, tUndelegate);
    var l2 := Undelegate(l1, op, op, tUndelegate).value;
    ApplyPreservesValid(cfg, l1, UndelegateCall(op, op), tUndelegate);
    RecoverStakeSucceedsIff(cfg, l2, op, tEarly);
    RecoverStakeSucceedsIff(cfg, l2, op, tRecover);
    CloseRefundsOwner(cfg, l2, op);
    var l3 := RecoverStake(cfg, l2, op, tRecover).value;
    ClosedOperatorIsFresh(cfg, l2, op, op, tAgain);
    ApplyPreservesValid(cfg, l2, RecoverStakeCall(op), tRecover);

    ApproveAndCallDelegates(cfg, l3, owner, amount, m, op, au, tRedelegate);
  }
}
