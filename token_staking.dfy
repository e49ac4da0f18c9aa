/**
 * The token and staking contracts as one object whose calls update its
 * balance maps and delegation records in place. Every method is proved
 * against the transition of the same name in StakingLedger: it either commits
 * that transition's new ledger or, on an error, reverts and changes nothing.
 */
module Staking {
  import opened Wrappers
  import opened Octets
  import opened StakingPayload
  import opened StakingLedger

  class TokenStaking {
    const custody: Address
    const initializationPeriod: nat
    const undelegationPeriod: nat

    var tokens: map<Address, nat>
    var stakes: map<Address, nat>
    var operators: map<Address, Delegation>

    function Settings(): Config
    {
      Config(custody, initializationPeriod, undelegationPeriod)
    }

    /** The whole state as a ledger value. */
    function State(): Ledger
      reads this
    {
      Ledger(tokens, stakes, operators)
    }

    ghost predicate Valid()
      reads this
    {
      StakingLedger.Valid(Settings(), State())
    }

    /**
     * Deploys the token, with its whole supply held by `holder`, and the
     * staking contract at address `custody` with the two periods (10 and 30
     * blocks in the test).
     */
    constructor (custody: Address, holder: Address, supply: nat, initializationPeriod: nat, undelegationPeriod: nat)
      ensures Valid()
      ensures Settings() == Config(custody, initializationPeriod, undelegationPeriod)
      ensures State() == Ledger(map[holder := supply], map[], map[])
    {
      this.custody := custody;
      this.initializationPeriod := initializationPeriod;
      this.undelegationPeriod := undelegationPeriod;
      tokens := map[holder := supply];
      stakes := map[];
      operators := map[];
      new;
      assert Valid() by {
        assert stakes == map[];
      }
    }

    /** `token.balanceOf(a)`. */
    function TokenBalanceOf(a: Address): (b: nat)
      reads this
      ensures a !in tokens ==> b == 0
    {
      Balance(tokens, a)
    }

    /** `stakingContract.balanceOf(operator)`: positive exactly while the operator holds a live stake. */
    function BalanceOf(operator: Address): (r: nat)
      reads this
      requires Valid()
      ensures r > 0 <==> operator in operators
    {
      if operator in stakes then stakes[operator] else 0
    }

    /** `token.transfer(to, amount, {from})`. */
    method Transfer(from: Address, to: Address, amount: nat) returns (outcome: Outcome<StakeError>)
      requires Valid() && from != custody
      modifies this
      ensures Valid()
      ensures Committed(old(State()), StakingLedger.Transfer(old(State()), from, to, amount), State(), outcome)
    {
      if TokenBalanceOf(from) < amount {
        return Fail(InsufficientBalance);
      }
      ApplyPreservesValid(Settings(), State(), TransferCall(from, to, amount), 0);
      tokens := Move(tokens, from, to, amount);
      outcome := Pass;
    }

    /** `token.approveAndCall(stakingContract, amount, data, {from: owner})` at block `now`. */
    method ApproveAndCall(owner: Address, amount: nat, data: seq<Byte>, now: nat) returns (outcome: Outcome<StakeError>)
      requires Valid() && owner != custody
      modifies this
      ensures Valid()
      ensures Committed(old(State()), StakingLedger.ApproveAndCall(Settings(), old(State()), owner, amount, data, now), State(), outcome)
    {
      var payload := Decode(data);
      if payload.None? {
        return Fail(InvalidPayload);
      }
      var p := payload.value;
      if amount == 0 {
        return Fail(InvalidAmount);
      }
      if p.operator in operators {
        return Fail(OperatorAlreadyStaked);
      }
      if TokenBalanceOf(owner) < amount {
        return Fail(InsufficientBalance);
      }
      ApplyPreservesValid(Settings(), State(), ApproveAndCallCall(owner, amount, data), now);
      tokens := Move(tokens, owner, custody, amount);
      stakes := stakes[p.operator := amount];
      operators := operators[p.operator := Delegation(owner, p.magpie, p.authorizer, now, None)];
      outcome := Pass;
    }

    /**
     * The step `cancelStake` and `recoverStake` share once their checks have
     * passed: returns the operator's stake to its owner and drops the record.
     * It is not an entry point of the contract; only those two calls use it.
     */
    method Close(operator: Address)
      requires Valid() && operator in operators
      modifies this
      ensures Valid()
      ensures StakingLedger.Close(Settings(), old(State()), operator) == Success(State())
    {
      CloseValid(Settings(), State(), operator);
      var amount := stakes[operator];
      tokens := Move(tokens, custody, operators[operator].owner, amount);
      stakes := stakes - {operator};
      operators := operators - {operator};
    }

    /** `stakingContract.cancelStake(operator, {from: caller})` at block `now`. */
    method CancelStake(caller: Address, operator: Address, now: nat) returns (outcome: Outcome<StakeError>)
      requires Valid()
      modifies this
      ensures Valid()
      ensures Committed(old(State()), StakingLedger.CancelStake(Settings(), old(State()), caller, operator, now), State(), outcome)
    {
      if operator !in operators {
        return Fail(NoStakeFound);
      }
      var d := operators[operator];
      if caller != d.owner {
        return Fail(Unauthorized);
      }
      if now >= d.createdAt + initializationPeriod {
        return Fail(NotInInitializationPeriod);
      }
      Close(operator);
      outcome := Pass;
    }

    /** `stakingContract.undelegate(operator, {from: caller})` at block `now`. */
    method Undelegate(caller: Address, operator: Address, now: nat) returns (outcome: Outcome<StakeError>)
      requires Valid()
      modifies this
      ensures Valid()
      ensures Committed(old(State()), StakingLedger.Undelegate(old(State()), caller, operator, now), State(), outcome)
    {
      if operator !in operators {
        return Fail(NoStakeFound);
      }
      var d := operators[operator];
      if caller != operator {
        return Fail(Unauthorized);
      }
      if d.undelegatedAt.Some? {
        return Fail(AlreadyUndelegating);
      }
      operators := operators[operator := d.(undelegatedAt := Some(now))];
      outcome := Pass;
    }

    /** `stakingContract.recoverStake(operator)` at block `now`. */
    method RecoverStake(operator: Address, now: nat) returns (outcome: Outcome<StakeError>)
      requires Valid()
      modifies this
      ensures Valid()
      ensures Committed(old(State()), StakingLedger.RecoverStake(Settings(), old(State()), operator, now), State(), outcome)
    {
      if operator !in operators {
        return Fail(NoStakeFound);
      }
      var d := operators[operator];
      if d.undelegatedAt.None? {
        return Fail(NoStakeFound);
      }
      if now < d.undelegatedAt.value + undelegationPeriod {
        return Fail(UndelegationPeriodNotElapsed);
      }
      Close(operator);
      outcome := Pass;
    }
  }

  /**
   * The first delegation scenario driven through the contract object: the
   * owner delegates and cancels within the initialization period. It starts
   * from a fresh deployment, whereas the test suite deploys once and runs its
   * cases one after another; `CancelUndoesDelegation` covers any valid ledger
   * whose operator has no stake.
   */
  method CancelDuringInitialization(owner: Address, op: Address, m: Address, au: Address, custody: Address, supply: nat, amount: nat)
    returns (delegatedBalance: nat, delegatedStake: nat, cancelledBalance: nat, cancelledStake: nat)
    requires owner != custody && 0 < amount <= supply
    ensures delegatedBalance == supply - amount && delegatedStake == amount
    ensures cancelledBalance == supply && cancelledStake == 0
  {
    var staking := new TokenStaking(custody, owner, supply, 10, 30);
    var block := 0;
    DelegateToFreshOperator(staking.Settings(), staking.State(), owner, amount, m, op, au, block);
    var o := staking.ApproveAndCall(owner, amount, Encode(Payload(m, op, au)), block);
    delegatedBalance, delegatedStake := staking.TokenBalanceOf(owner), staking.BalanceOf(op);

    block := block + 1;
    CancelStakeSucceedsIff(staking.Settings(), staking.State(), owner, op, block);
    CloseRefundsOwner(staking.Settings(), staking.State(), op);
    o := staking.CancelStake(owner, op, block);
    cancelledBalance, cancelledStake := staking.TokenBalanceOf(owner), staking.BalanceOf(op);
  }

  /**
   * The second delegation scenario driven through the contract object, with
   * the test's periods and a block counter that advances one block per
   * transaction and per mined block. It returns the owner's token balance and
   * the operator's stake after the recovery and after the second delegation.
   * Like the scenario above it starts from a fresh deployment;
   * `UndelegateThenRecover` covers any valid ledger whose operator has no stake.
   */
  method DelegationLifecycle(owner: Address, op: Address, m: Address, au: Address, custody: Address, supply: nat, amount: nat)
    returns (recoveredBalance: nat, recoveredStake: nat, redelegatedBalance: nat, redelegatedStake: nat)
    requires owner != custody && 0 < amount <= supply
    ensures recoveredBalance == supply && recoveredStake == 0
    ensures redelegatedBalance == supply - amount && redelegatedStake == amount
  {
    var staking := new TokenStaking(custody, owner, supply, 10, 30);
    var data := Encode(Payload(m, op, au));
    var block := 0;

    DelegateToFreshOperator(staking.Settings(), staking.State(), owner, amount, m, op, au, block);
    var o := staking.ApproveAndCall(owner, amount, data, block);
    assert o == Pass;
    assert staking.TokenBalanceOf(owner) == supply - amount && staking.BalanceOf(op) == amount;

    block := block + 10 + 1;  // mineBlocks(initializationPeriod), then the call's own block
    o := staking.CancelStake(owner, op, block);
    assert o == Fail(NotInInitializationPeriod);

    block := block + 1;
    o := staking.Undelegate(op, op, block);
    assert o == Pass;

    block := block + 1;
    o := staking.RecoverStake(op, block);
    assert o == Fail(UndelegationPeriodNotElapsed);

    block := block + 30 + 1;  // mineBlocks(undelegationPeriod), then the call's own block
    RecoverStakeSucceedsIff(staking.Settings(), staking.State(), op, block);
    CloseRefundsOwner(staking.Settings(), staking.State(), op);
    o := staking.RecoverStake(op, block);
    assert o == Pass;

    block := block + 1;
    o := staking.RecoverStake(op, block);
    assert o == Fail(NoStakeFound);
    recoveredBalance, recoveredStake := staking.TokenBalanceOf(owner), staking.BalanceOf(op);

    block := block + 1;
    DelegateToFreshOperator(staking.Settings(), staking.State(), owner, amount, m, op, au, block);
    o := staking.ApproveAndCall(owner, amount, data, block);
    redelegatedBalance, redelegatedStake := staking.TokenBalanceOf(owner), staking.BalanceOf(op);
  }
}
