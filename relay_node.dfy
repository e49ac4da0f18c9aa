/**
 * The relay node's decision to join a group (package relay): which of the
 * selected stakers are this node, what it then asks of the network and the
 * DKG protocol, and the filter that admits only group members' messages on
 * the group's broadcast channel.
 */
module RelayNode {
  import opened Octets
  import opened Hex

  /** An on-chain staker address or staker ID, as raw bytes. */
  type StakerAddress = seq<Byte>

  // ---------------------------------------------------------------------------
  // Index selection in JoinGroupIfEligible
  // ---------------------------------------------------------------------------

  /** The positions of `stakerID` in `selectedStakers`, in increasing order. */
  function Positions(selectedStakers: seq<StakerAddress>, stakerID: StakerAddress): seq<nat>
  {
    if selectedStakers == [] then []
    else
      var n := |selectedStakers| - 1;
      Positions(selectedStakers[..n], stakerID) + (if selectedStakers[n] == stakerID then [n] else [])
  }

  /** The collected positions are exactly those holding `stakerID`, each once and in increasing order. */
  lemma {:induction false} PositionsAreMatches(selectedStakers: seq<StakerAddress>, stakerID: StakerAddress)
    ensures var ps := Positions(selectedStakers, stakerID);
      && (forall k :: 0 <= k < |ps| ==> ps[k] < |selectedStakers| && selectedStakers[ps[k]] == stakerID)
      && (forall i :: 0 <= i < |selectedStakers| && selectedStakers[i] == stakerID ==> i in ps)
      && (forall k, k' :: 0 <= k < k' < |ps| ==> ps[k] < ps[k'])
  {
    if selectedStakers != [] {
      var n := |selectedStakers| - 1;
      var init := selectedStakers[..n];
      PositionsAreMatches(init, stakerID);
      assert forall i :: 0 <= i < n ==> selectedStakers[i] == init[i];
      // The positions of the prefix all lie below `n`, the one position that may be appended.
      assert var ps := Positions(init, stakerID);
        forall k :: 0 <= k < |ps| ==> ps[k] < n && selectedStakers[ps[k]] == stakerID;
      assert selectedStakers[n] == stakerID ==> n in Positions(selectedStakers, stakerID);
    }
  }

  /** There is no position exactly when the staker was not selected. */
  lemma {:induction false} PositionsEmpty(selectedStakers: seq<StakerAddress>, stakerID: StakerAddress)
    ensures Positions(selectedStakers, stakerID) == [] <==> stakerID !in selectedStakers
  {
    if selectedStakers != [] {
      var n := |selectedStakers| - 1;
      PositionsEmpty(selectedStakers[..n], stakerID);
      assert selectedStakers == selectedStakers[..n] + [selectedStakers[n]];
    }
  }

  /** The loop of `JoinGroupIfEligible` that collects this node's indexes among the selected stakers. */
  method SelectIndexes(selectedStakers: seq<StakerAddress>, stakerID: StakerAddress) returns (indexes: seq<nat>)
    ensures indexes == Positions(selectedStakers, stakerID)
  {
    indexes := [];
    for index := 0 to |selectedStakers|
      invariant indexes == Positions(selectedStakers[..index], stakerID)
    {
      assert selectedStakers[..index + 1][..index] == selectedStakers[..index];
      if selectedStakers[index] == stakerID {
        indexes := indexes + [index];
      }
    }
    assert selectedStakers[..|selectedStakers|] == selectedStakers;
  }

  // ---------------------------------------------------------------------------
  // What JoinGroupIfEligible asks for
  // ---------------------------------------------------------------------------

  /** A request the node makes of its network provider or of the DKG protocol. */
  datatype Request =
    | BroadcastChannelFor(entry: nat)                  // netProvider.ChannelFor(newEntry.Text(16))
    | SetMemberFilter(members: seq<StakerAddress>)     // SetFilter(createGroupMemberFilter(...))
    | ExecuteDKG(playerIndex: nat, startBlock: nat)    // one goroutine running dkg.ExecuteDKG

  /** One DKG run per index, in the order of the indexes. */
  function DKGRuns(indexes: seq<nat>, startBlock: nat): (runs: seq<Request>)
    ensures |runs| == |indexes|
    ensures forall k :: 0 <= k < |indexes| ==> runs[k] == ExecuteDKG(indexes[k], startBlock)
  {
    if indexes == [] then [] else DKGRuns(indexes[..|indexes| - 1], startBlock) + [ExecuteDKG(indexes[|indexes| - 1], startBlock)]
  }

  /**
   * `JoinGroupIfEligible`: when this node is not among the selected stakers it
   * requests nothing; otherwise it asks for the broadcast channel named after
   * the new entry and, if it gets one, installs the member filter (a failure
   * to install it is only logged) and starts one DKG run per index, at the
   * block where group selection ended. `channelAvailable` stands for the
   * network provider's answer.
   */
  method JoinGroupIfEligible(
    selectedStakers: seq<StakerAddress>,
    groupSelectionEndBlock: nat,
    stakerID: StakerAddress,
    newEntry: nat,
    channelAvailable: bool)
    returns (requests: seq<Request>)
    ensures stakerID !in selectedStakers ==> requests == []
    ensures stakerID in selectedStakers && !channelAvailable ==> requests == [BroadcastChannelFor(newEntry)]
    ensures stakerID in selectedStakers && channelAvailable ==>
      requests == [BroadcastChannelFor(newEntry), SetMemberFilter(selectedStakers)]
        + DKGRuns(Positions(selectedStakers, stakerID), groupSelectionEndBlock)
  {
    var dkgStartBlockHeight := groupSelectionEndBlock;
    var indexes := SelectIndexes(selectedStakers, stakerID);
    PositionsEmpty(selectedStakers, stakerID);
    requests := [];
    if |indexes| > 0 {
      requests := [BroadcastChannelFor(newEntry)];
      if !channelAvailable {
        return;
      }
      requests := requests + [SetMemberFilter(selectedStakers)];
      for k := 0 to |indexes|
        invariant requests == [BroadcastChannelFor(newEntry), SetMemberFilter(selectedStakers)]
          + DKGRuns(indexes[..k], dkgStartBlockHeight)
      {
        assert indexes[..k + 1][..k] == indexes[..k];
        requests := requests + [ExecuteDKG(indexes[k], dkgStartBlockHeight)];
      }
      assert indexes[..|indexes|] == indexes;
    }
  }

  // ---------------------------------------------------------------------------
  // createGroupMemberFilter
  // ---------------------------------------------------------------------------

  /**
   * `createGroupMemberFilter`: records the hexadecimal form of every member
   * address, and returns the predicate that admits a message author exactly
   * when the hexadecimal form of its address was recorded. Because hex
   * encoding is injective, that is exactly when the author's address is one
   * of the members: member order and repeats do not matter, and an empty
   * member list admits nobody. `publicKeyToAddress` is the signer's address
   * derivation.
   */
  method CreateGroupMemberFilter<PublicKey>(members: seq<StakerAddress>, publicKeyToAddress: PublicKey -> StakerAddress)
    returns (filter: PublicKey -> bool)
    ensures forall author :: filter(author) <==> publicKeyToAddress(author) in members
    ensures members == [] ==> forall author :: !filter(author)
  {
    var authorizations: map<string, bool> := map[];
    for i := 0 to |members|
      invariant authorizations.Keys == set j | 0 <= j < i :: EncodeToString(members[j])
    {
      authorizations := authorizations[EncodeToString(members[i]) := true];
    }
    filter := (author: PublicKey) => EncodeToString(publicKeyToAddress(author)) in authorizations;
    forall author
      ensures filter(author) <==> publicKeyToAddress(author) in members
    {
      var address := publicKeyToAddress(author);
      if filter(author) {
        var j :| 0 <= j < |members| && EncodeToString(members[j]) == EncodeToString(address);
        EncodeToStringInjective(members[j], address);
      }
    }
  }
}
