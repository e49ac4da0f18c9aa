# Keep random beacon: staking ledger, DKG share messages and group joining

This project models four pieces of the Keep random beacon in Dafny and
proves properties of the models.

- **Token staking.** Owners stake tokens for an operator through the
  token's `approveAndCall`. The call's data is a 60-byte payload: the magpie,
  operator and authorizer addresses. The owner can cancel during the
  initialization period. After the operator undelegates, anyone can recover
  the stake back to the owner once the undelegation period is over. The
  contracts' behaviour is the one their test suite (`TestTokenStake.js`)
  depends on. It is modelled twice:
  - as pure transitions over a `Ledger` value (`StakingLedger`);
  - as a `TokenStaking` class whose methods update its maps in place and are
    proved to commit exactly those transitions or to revert (`Staking`).
- **DKG messages** (`GjkrMessage`). The `PeerSharesMessage` stores, for each
  receiver, the shares `s_ij` and `t_ij` encrypted with a symmetric key. A
  share is encrypted as the big-endian bytes of the number and read back with
  `SetBytes` (`BigInt`).
- **DKG sharing test helpers** (`GjkrSharing`):
  - dropping a member's own public-key-share-points message;
  - combining received shares into the group private key share;
  - building a group of sharing members whose received shares come from every
    qualified member.
- **Relay node** (`RelayNode`):
  - which positions among the selected stakers belong to this node;
  - what `JoinGroupIfEligible` then asks of the network and the DKG protocol;
  - the broadcast-channel filter built by `createGroupMemberFilter`, which
    compares hex-encoded addresses (`Hex`).

Shared modules:

- `Wrappers` holds `Option`, `Result` and `Outcome`.
- `Octets` holds the `Byte` type.
- `MapSum` holds a ghost sum over the values of a map. The staking invariant
  and `CombineMemberShares` both use it.

Decisions where the test suite leaves the contract's behaviour open:

- **Cancel window.** Cancelling is allowed while `now < createdAt + initializationPeriod`.
- **Recovery.** Recovery is allowed once `now >= undelegatedAt + undelegationPeriod`.
- **Who may call.** Only the owner may cancel and only the operator may undelegate.
- **Repeated undelegation.** A second undelegation is rejected.
- **Recovery without undelegation.** Recovering a stake that was never
  undelegated fails with `NoStakeFound`, the same as a missing stake.
- **Bad payload.** A payload that is not exactly 60 bytes is rejected.

The test suite never exercises the equality boundaries of the two periods:
it mines a whole period plus the block of the call itself.

## Model

| member | source | states |
|---|---|---|
| StakingPayload.Encode | contracts/solidity/test/TestTokenStake.js:64-68 | the delegation data is the three 20-byte addresses concatenated, 60 bytes long |
| StakingPayload.Decode | contracts/solidity/test/TestTokenStake.js:64-68 | a payload is parsed exactly when the data is 60 bytes long |
| StakingPayload.DecodeEncode | contracts/solidity/test/TestTokenStake.js:64-68 | decoding the encoded magpie/operator/authorizer gives them back |
| StakingPayload.EncodeDecode | contracts/solidity/test/TestTokenStake.js:64-68 | every 60-byte payload is the encoding of what it decodes to |
| StakingLedger.Move | contracts/solidity/test/TestTokenStake.js:44 | a transfer debits the sender, credits the receiver and leaves every other balance alone |
| StakingLedger.Balance | contracts/solidity/test/TestTokenStake.js:40-48 | `token.balanceOf`: an account that never held tokens has balance 0 |
| StakingLedger.StakeOf | contracts/solidity/test/TestTokenStake.js:78 | `stakingContract.balanceOf`: an operator without a stake entry has stake 0 |
| StakingLedger.Transfer | contracts/solidity/test/TestTokenStake.js:44 | `token.transfer` succeeds iff the sender holds the amount and never touches stakes or records; `TransferMovesAmount` states the balances |
| StakingLedger.ApproveAndCall | contracts/solidity/test/TestTokenStake.js:70-74 | data that does not decode fails with `InvalidPayload`; a success needs a positive amount the owner holds and an operator without a stake; `ApproveAndCallDelegates` states when it succeeds, with which error it fails and the new ledger |
| StakingLedger.Close | contracts/solidity/test/TestTokenStake.js:89-133 | the step cancel and recover share: on success the operator's stake and record are gone; `CloseRefundsOwner` states the refund |
| StakingLedger.CancelStake | contracts/solidity/test/TestTokenStake.js:90 | a success is by the stake's owner and removes the operator's record; `CancelStakeSucceedsIff` states when it succeeds and with which error it fails |
| StakingLedger.Undelegate | contracts/solidity/test/TestTokenStake.js:121 | a success is by the operator itself and moves no tokens and no stake; `UndelegateSucceedsIff` states when it succeeds and with which error it fails |
| StakingLedger.RecoverStake | contracts/solidity/test/TestTokenStake.js:124-133 | a success needs an undelegated stake and removes the operator's record; `RecoverStakeSucceedsIff` states when it succeeds and with which error it fails |
| StakingLedger.MoveConservesSupply | contracts/solidity/test/TestTokenStake.js:36-57 | moving tokens keeps the total supply |
| StakingLedger.TransferMovesAmount | contracts/solidity/test/TestTokenStake.js:36-57 | between distinct accounts, `transfer` succeeds iff the sender has the amount (otherwise `InsufficientBalance`); the sender's balance drops and the receiver's rises by the amount, nothing else changes |
| StakingLedger.ApproveAndCallDelegates | contracts/solidity/test/TestTokenStake.js:70-87 | staking with a well-formed payload succeeds iff the amount is positive, the operator has no stake and the owner holds the amount, failing with `InvalidAmount`, `OperatorAlreadyStaked` or `InsufficientBalance` in that order; the owner's balance drops and custody's rises by the amount, the operator's stake becomes the amount, the delegation records owner, magpie, authorizer and block, and every other account's balance, stake and delegation record is unchanged |
| StakingLedger.DelegateToFreshOperator | contracts/solidity/test/TestTokenStake.js:70-74 | an owner holding the amount delegating to an operator without a stake yields exactly the debited balances, the new stake and the new record, and the invariant still holds |
| StakingLedger.ApproveAndCallRejectsMalformedData | contracts/solidity/test/TestTokenStake.js:64-74 | data that is not 60 bytes is rejected with no state change |
| StakingLedger.CloseRefundsOwner | contracts/solidity/test/TestTokenStake.js:89-98 | closing a stake returns it to its owner and removes the operator's stake and record |
| StakingLedger.CancelStakeSucceedsIff | contracts/solidity/test/TestTokenStake.js:89-98 | cancel succeeds iff the stake exists, the caller is its owner and the initialization period has not ended; a missing stake gives `NoStakeFound`, a caller other than the owner `Unauthorized`, and a late cancel `NotInInitializationPeriod` |
| StakingLedger.UndelegateSucceedsIff | contracts/solidity/test/TestTokenStake.js:120-121 | undelegate succeeds iff the stake exists, the operator calls and it is not already undelegating, failing otherwise with `NoStakeFound`, `Unauthorized` or `AlreadyUndelegating`; it records the block and changes nothing else |
| StakingLedger.RecoverStakeSucceedsIff | contracts/solidity/test/TestTokenStake.js:123-133 | recover succeeds iff the stake was undelegated and the undelegation period has passed; no record or a stake never undelegated gives `NoStakeFound`, too early gives `UndelegationPeriodNotElapsed` |
| StakingLedger.ClosedOperatorIsFresh | contracts/solidity/test/TestTokenStake.js:148-171 | closing always succeeds on a valid ledger; afterwards the operator's stake is 0 and any further cancel, undelegate or recover for it fails with `NoStakeFound` |
| StakingLedger.CloseValid | contracts/solidity/test/TestTokenStake.js:89-98 | closing always succeeds on a valid ledger and keeps the custody invariant |
| StakingLedger.ApplyPreservesValid | contracts/solidity/test/TestTokenStake.js:14-172 | every call not sent from the staking contract's own account keeps the invariant: stakes and records have the same operators, stakes are positive, and the custody account holds at least the sum of all stakes (a bound, since anyone may send tokens to the contract's address; `ApplyKeepsSurplus` states the exact balance) |
| StakingLedger.ApplyKeepsSurplus | contracts/solidity/test/TestTokenStake.js:14-172 | custody holds exactly the live stakes plus what was sent to it directly: every successful call not sent from the staking contract's own account keeps custody's balance minus the sum of stakes unchanged, except a plain transfer to the contract's address, which raises it by exactly the amount; no delegation ever belongs to the contract's own account |
| StakingLedger.ApproveAndCallKeepsSurplus | contracts/solidity/test/TestTokenStake.js:70-74 | a delegation raises custody's balance and the sum of stakes by the same amount |
| StakingLedger.CloseKeepsSurplus | contracts/solidity/test/TestTokenStake.js:89-133 | a cancel or recover lowers custody's balance and the sum of stakes by the same amount |
| StakingLedger.ApplyConservesSupply | contracts/solidity/test/TestTokenStake.js:14-172 | no call creates or destroys tokens |
| StakingLedger.CancelUndoesDelegation | contracts/solidity/test/TestTokenStake.js:60-99 | delegating and then cancelling within the initialization period restores every balance, stake and record |
| StakingLedger.UndelegateThenRecover | contracts/solidity/test/TestTokenStake.js:101-171 | the second test's sequence, at any blocks that respect the periods: late cancel fails, undelegate succeeds, early recover fails, recover succeeds and refunds the owner, a second recover fails, and staking again succeeds; the owner may be its own operator |
| Staking.TokenStaking.constructor | contracts/solidity/test/TestTokenStake.js:28-34 | a fresh deployment: the holder owns the supply, there are no stakes, and the periods are 10 and 30 in the test |
| Staking.TokenStaking.TokenBalanceOf | contracts/solidity/test/TestTokenStake.js:40-48 | `token.balanceOf(a)` on the object's state: 0 for an account that never held tokens |
| Staking.TokenStaking.BalanceOf | contracts/solidity/test/TestTokenStake.js:78 | an operator's stake is positive exactly while it has a delegation |
| Staking.TokenStaking.Transfer | contracts/solidity/test/TestTokenStake.js:44 | commits `StakingLedger.Transfer` or reverts, keeping the invariant |
| Staking.TokenStaking.ApproveAndCall | contracts/solidity/test/TestTokenStake.js:70-74 | commits `StakingLedger.ApproveAndCall` or reverts, keeping the invariant |
| Staking.TokenStaking.Close | contracts/solidity/test/TestTokenStake.js:89-133 | the shared last step of `cancelStake` and `recoverStake` once their checks pass: performs `StakingLedger.Close` in place |
| Staking.TokenStaking.CancelStake | contracts/solidity/test/TestTokenStake.js:90 | commits `StakingLedger.CancelStake` or reverts, keeping the invariant |
| Staking.TokenStaking.Undelegate | contracts/solidity/test/TestTokenStake.js:121 | commits `StakingLedger.Undelegate` or reverts, keeping the invariant |
| Staking.TokenStaking.RecoverStake | contracts/solidity/test/TestTokenStake.js:124-133 | commits `StakingLedger.RecoverStake` or reverts, keeping the invariant |
| Staking.CancelDuringInitialization | contracts/solidity/test/TestTokenStake.js:60-99 | through the contract object: after delegating, the owner has `supply - amount` and the operator `amount`; after cancelling, the owner has `supply` and the operator 0 |
| Staking.DelegationLifecycle | contracts/solidity/test/TestTokenStake.js:101-171 | through the contract object with periods 10 and 30 and the test's block counts: after recovery the owner has `supply` and the operator 0; after staking again, `supply - amount` and `amount`; the owner may be its own operator |
| BigInt.Bytes | pkg/beacon/relay/gjkr/message.go:99 | the minimal big-endian encoding: empty exactly for zero, never a leading zero byte |
| BigInt.SetBytes | pkg/beacon/relay/gjkr/message.go:128 | reading `n` bytes gives a number below 256^n |
| BigInt.SetBytesOfBytes | pkg/beacon/relay/gjkr/message.go:99-128 | `SetBytes(Bytes(x)) == x` for every non-negative share |
| BigInt.BytesOfSetBytes | pkg/beacon/relay/gjkr/message.go:99-128 | a byte string with no leading zero is the encoding of the number it reads as |
| BigInt.SetBytesLeadingZero | pkg/beacon/relay/gjkr/message.go:128 | leading zero bytes do not change the value read |
| GjkrMessage.PeerSharesMessage.constructor | pkg/beacon/relay/gjkr/message.go:87-92 | a new message has the sender's ID and no shares |
| GjkrMessage.PeerSharesMessage.AddShares | pkg/beacon/relay/gjkr/message.go:94-112 | if the S or the T encryption fails, that error and no change; otherwise the receiver's entry holds both ciphertexts and no other entry changes |
| GjkrMessage.PeerSharesMessage.DecryptShareS | pkg/beacon/relay/gjkr/message.go:114-129 | no entry gives "no shares for receiver"; success iff there is an entry and its S ciphertext decrypts |
| GjkrMessage.PeerSharesMessage.DecryptShareT | pkg/beacon/relay/gjkr/message.go:131-146 | the same for the T share |
| GjkrMessage.PeerSharesMessage.CanDecrypt | pkg/beacon/relay/gjkr/message.go:148-166 | true iff there is an entry for the receiver and both its ciphertexts decrypt |
| GjkrMessage.CanDecryptIffBothDecrypt | pkg/beacon/relay/gjkr/message.go:148-166 | `CanDecrypt` is exactly "both decrypt calls succeed" |
| GjkrMessage.DecryptAfterAddShares | pkg/beacon/relay/gjkr/message.go:94-146 | with a key whose decryption undoes its encryption, the stored entry decrypts to the original shares and `CanDecrypt` holds |
| GjkrMessage.ExchangeShares | pkg/beacon/relay/gjkr/message.go:87-146 | a fresh message with shares added for a receiver gives the receiver back exactly `(s, t)`, unless an encryption failed |
| GjkrSharing.FilterMemberPublicKeySharePointsMessages | pkg/beacon/relay/gjkr/protocol_sharing_test.go:232-242 | the loop yields `Filtered`: the messages not sent by the receiver, in their order |
| GjkrSharing.FilteredKeepsExactlyOthers | pkg/beacon/relay/gjkr/protocol_sharing_test.go:236-240 | a message is kept iff it is in the input and its sender is not the receiver |
| GjkrSharing.FilteredDistributes | pkg/beacon/relay/gjkr/protocol_sharing_test.go:236-240 | filtering a concatenation is concatenating the filtered parts, so order is kept |
| GjkrSharing.FilteredLength | pkg/beacon/relay/gjkr/protocol_sharing_test.go:232-242 | the result is shorter by exactly the number of the receiver's own messages |
| GjkrSharing.CountFromZero | pkg/beacon/relay/gjkr/protocol_sharing_test.go:236-240 | no own message is counted iff no message has the receiver as sender |
| GjkrSharing.CountFromDistinct | pkg/beacon/relay/gjkr/protocol_sharing_test.go:143-152 | with one message per member, the receiver's own message is counted once |
| GjkrSharing.FilteredDropsOwnMessage | pkg/beacon/relay/gjkr/protocol_sharing_test.go:143-152 | with one message per member, filtering removes exactly one message |
| GjkrSharing.CombineMemberShares | pkg/beacon/relay/gjkr/protocol_sharing_test.go:39-44 | the group private key share is the member's own share plus the sum of all received shares |
| GjkrSharing.SumFromPairs | pkg/beacon/relay/gjkr/protocol_sharing_test.go:20-26 | a map built from distinct IDs and values has those IDs as keys, and its sum is the sum of the values |
| GjkrSharing.CombinedShareIgnoresIDs | pkg/beacon/relay/gjkr/protocol_sharing_test.go:21-23 | the combined share depends only on the received values, not on which distinct IDs carry them |
| GjkrSharing.CombineReceivedSharesExample | pkg/beacon/relay/gjkr/protocol_sharing_test.go:14-49 | own share 9 plus shares 10..15 from members 100..105 combine to 84 |
| GjkrSharing.InitializeSharingMembersGroup | pkg/beacon/relay/gjkr/protocol_sharing_test.go:202-230 | one sharing member per qualified member, with the same ID; each draws threshold+1 coefficients; each has received exactly one share from every qualified member, the share that member evaluates for it |
| RelayNode.PositionsAreMatches | pkg/beacon/relay/node.go:57-63 | the collected indexes are exactly the positions holding this staker's ID, strictly increasing |
| RelayNode.PositionsEmpty | pkg/beacon/relay/node.go:57-65 | no index is collected iff the staker was not selected |
| RelayNode.SelectIndexes | pkg/beacon/relay/node.go:57-63 | the loop collects `Positions` |
| RelayNode.DKGRuns | pkg/beacon/relay/node.go:85-117 | one DKG run per index, in order, each starting at the group selection end block |
| RelayNode.JoinGroupIfEligible | pkg/beacon/relay/node.go:49-121 | not selected: nothing; selected without a channel: only the channel request; otherwise channel, filter for the selected stakers, then one DKG run per own index |
| RelayNode.CreateGroupMemberFilter | pkg/beacon/relay/node.go:123-147 | the filter admits an author iff its derived address is one of the members; an empty member list admits nobody |
| Hex.EncodeToString | pkg/beacon/relay/node.go:129 | the hex string has two characters per byte |
| Hex.EncodeToStringInjective | pkg/beacon/relay/node.go:127-136 | distinct addresses have distinct hex strings |
| MapSum.SumRemove | pkg/beacon/relay/gjkr/protocol_sharing_test.go:28 | a map's sum is any one entry plus the sum of the rest, whatever order the sum takes |

## Left out

- The Solidity contracts' own code (`KeepToken.sol`, `TokenStaking.sol`,
  `Registry.sol`) is not part of this model. The ledger is what the test
  suite observes, plus the policy choices listed above.
- ERC20 allowances, events, the registry and the zero-address check are not
  modelled. `approveAndCall` is modelled as one atomic transfer into custody.
- Gas and block production are not modelled. The block number is the `now`
  parameter, and the test's `mineBlocks` has the client advance a counter.
- Staking.TokenStaking.Transfer: requires that the sender is not the staking
  contract's own account, because only the contract moves custody funds.
- Staking.TokenStaking.ApproveAndCall: requires that the owner is not the
  staking contract's own account, for the same reason.
- Token amounts are unbounded naturals: 256-bit overflow is not modelled.
- GjkrSharing.CombineMemberShares: the body of `CombineMemberShares` (in
  `member.go`) is not part of this model. It is modelled as the plain integer
  sum the test checks. Any reduction modulo the group order is not modelled.
- GjkrSharing.InitializeSharingMembersGroup: `crand.Int` is the `draw`
  parameter, and its failure path is not modelled.
- GjkrSharing.InitializeSharingMembersGroup: `evaluateMemberShare` is a
  parameter.
- GjkrSharing.InitializeSharingMembersGroup: the received-shares map starts
  empty instead of being inherited from earlier phases.
- GjkrSharing.InitializeSharingMembersGroup: the only qualified-member field
  modelled is the ID.
- `initializeQualifiedMembersGroup`, the earlier protocol phases, bn256 curve
  arithmetic, `CalculatePublicKeySharePoints`, `VerifyPublicKeySharePoints`
  and accusations are not modelled. Curve points are the type parameter `P`.
- Messages are values here: pointer aliasing of message structs is not
  captured. The test's modification of filtered messages through those
  pointers is one example.
- GjkrMessage.PeerSharesMessage.AddShares: shares are non-negative naturals.
  `big.Int.Bytes` drops the sign of a negative number, and that case is not
  modelled.
- ECDH key derivation and the cipher are abstract. `SymmetricKey` is a pair
  of partial functions, and correct keys are assumed to satisfy
  `DecryptInvertsEncrypt`.
- Only the message declarations the core uses are modelled. The other
  message declarations in `message.go` are types without operations.
- The node's goroutines, mutex and logging are not modelled.
- The network provider is not modelled. Whether `ChannelFor` succeeds is a
  parameter, and a failed `SetFilter` is only logged, so it has no effect.
- `dkg.ExecuteDKG`, group registration and `IsInGroup` are not modelled.
  `JoinGroupIfEligible` returns the requests it would issue.
- `bytes.Compare(a, b) == 0` is modelled as sequence equality.
- `newEntry.Text(16)` is abstracted: the channel request carries the entry
  itself.
- `signing.PublicKeyToAddress` is a parameter, and public keys are a type
  parameter.
- `MemberID` is an unbounded natural, not the source's fixed-width integer.
