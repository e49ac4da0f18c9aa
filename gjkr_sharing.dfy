/**
 * The sharing phase helpers of the distributed key generation protocol
 * (package gjkr): dropping a member's own public key share points message,
 * combining the shares a member received into its group private key share,
 * and building a group of sharing members.
 */
module GjkrSharing {
  import opened MapSum
  import opened GjkrMessage

  // ---------------------------------------------------------------------------
  // filterMemberPublicKeySharePointsMessages
  // ---------------------------------------------------------------------------

  /** The messages not sent by `receiverID`, in their original order. */
  function Filtered<P>(messages: seq<MemberPublicKeySharePointsMessage<P>>, receiverID: MemberID)
    : seq<MemberPublicKeySharePointsMessage<P>>
  {
    if messages == [] then []
    else
      var last := messages[|messages| - 1];
      Filtered(messages[..|messages| - 1], receiverID) + (if last.senderID != receiverID then [last] else [])
  }

  /** The number of messages sent by `senderID`. */
  function CountFrom<P>(messages: seq<MemberPublicKeySharePointsMessage<P>>, senderID: MemberID): nat
  {
    if messages == [] then 0
    else
      CountFrom(messages[..|messages| - 1], senderID) + (if messages[|messages| - 1].senderID == senderID then 1 else 0)
  }

  /** No two messages come from the same sender. */
  predicate DistinctSenders<P>(messages: seq<MemberPublicKeySharePointsMessage<P>>)
  {
    forall i, j :: 0 <= i < j < |messages| ==> messages[i].senderID != messages[j].senderID
  }

  /** `filterMemberPublicKeySharePointsMessages`: appends every message whose sender is not the receiver. */
  method FilterMemberPublicKeySharePointsMessages<P>(messages: seq<MemberPublicKeySharePointsMessage<P>>, receiverID: MemberID)
    returns (result: seq<MemberPublicKeySharePointsMessage<P>>)
    ensures result == Filtered(messages, receiverID)
  {
    result := [];
    for i := 0 to |messages|
      invariant result == Filtered(messages[..i], receiverID)
    {
      assert messages[..i + 1][..i] == messages[..i];
      var msg := messages[i];
      if msg.senderID != receiverID {
        result := result + [msg];
      }
    }
    assert messages[..|messages|] == messages;
  }

  /** A message is kept exactly when it is one of the input messages and its sender is not the receiver. */
  lemma {:induction false} FilteredKeepsExactlyOthers<P>(messages: seq<MemberPublicKeySharePointsMessage<P>>, receiverID: MemberID)
    ensures forall m :: m in Filtered(messages, receiverID) <==> m in messages && m.senderID != receiverID
  {
    if messages != [] {
      var init := messages[..|messages| - 1];
      FilteredKeepsExactlyOthers(init, receiverID);
      assert messages == init + [messages[|messages| - 1]];
    }
  }

  /**
   * Filtering keeps the relative order and never alters a message: filtering
   * a concatenation is concatenating the filtered parts, and a single message
   * is either kept unchanged or dropped.
   */
  lemma {:induction false} FilteredDistributes<P>(a: seq<MemberPublicKeySharePointsMessage<P>>, b: seq<MemberPublicKeySharePointsMessage<P>>, receiverID: MemberID)
    ensures Filtered(a + b, receiverID) == Filtered(a, receiverID) + Filtered(b, receiverID)
    decreases |b|
  {
    if b == [] {
      assert a + b == a;
    } else {
      var bInit := b[..|b| - 1];
      assert (a + b)[..|a + b| - 1] == a + bInit;
      FilteredDistributes(a, bInit, receiverID);
    }
  }

  /** The result is as long as the input minus the receiver's own messages. */
  lemma {:induction false} FilteredLength<P>(messages: seq<MemberPublicKeySharePointsMessage<P>>, receiverID: MemberID)
    ensures |Filtered(messages, receiverID)| == |messages| - CountFrom(messages, receiverID)
  {
    if messages != [] {
      FilteredLength(messages[..|messages| - 1], receiverID);
    }
  }

  /** No message from `senderID` exactly when the count is zero. */
  lemma {:induction false} CountFromZero<P>(messages: seq<MemberPublicKeySharePointsMessage<P>>, senderID: MemberID)
    ensures CountFrom(messages, senderID) == 0 <==> forall i :: 0 <= i < |messages| ==> messages[i].senderID != senderID
  {
    if messages != [] {
      CountFromZero(messages[..|messages| - 1], senderID);
    }
  }

  /** With distinct senders among which is the receiver, exactly one message is the receiver's. */
  lemma {:induction false} CountFromDistinct<P>(messages: seq<MemberPublicKeySharePointsMessage<P>>, receiverID: MemberID, k: nat)
    requires DistinctSenders(messages)
    requires k < |messages| && messages[k].senderID == receiverID
    ensures CountFrom(messages, receiverID) == 1
  {
    var n := |messages| - 1;
    var init := messages[..n];
    if k == n {
      CountFromZero(init, receiverID);
    } else {
      CountFromDistinct(init, receiverID, k);
    }
  }

  /**
   * The test's setting: every member sent one message, the senders are
   * distinct and include the receiver, so `groupSize - 1` messages remain.
   */
  lemma FilteredDropsOwnMessage<P>(messages: seq<MemberPublicKeySharePointsMessage<P>>, receiverID: MemberID, k: nat)
    requires DistinctSenders(messages)
    requires k < |messages| && messages[k].senderID == receiverID
    ensures |Filtered(messages, receiverID)| == |messages| - 1
  {
    FilteredLength(messages, receiverID);
    CountFromDistinct(messages, receiverID, k);
  }

  // ---------------------------------------------------------------------------
  // CombineMemberShares
  // ---------------------------------------------------------------------------

  /** The group private key share: the member's own share plus every share it received. */
  method CombineMemberShares(selfSecretShareS: int, receivedValidSharesS: map<MemberID, int>)
    returns (groupPrivateKeyShare: int)
    ensures groupPrivateKeyShare == selfSecretShareS + Sum(receivedValidSharesS)
  {
    groupPrivateKeyShare := selfSecretShareS;
    var remaining := receivedValidSharesS;
    while remaining != map[]
      invariant groupPrivateKeyShare + Sum(remaining) == selfSecretShareS + Sum(receivedValidSharesS)
      decreases |remaining|
    {
      var id :| id in remaining;
      SumRemove(remaining, id);
      groupPrivateKeyShare := groupPrivateKeyShare + remaining[id];
      remaining := remaining - {id};
    }
  }

  /** The map built by storing `values[i]` under `ids[i]`, for i = 0, 1, ... in turn. */
  function FromPairs(ids: seq<MemberID>, values: seq<int>): map<MemberID, int>
    requires |ids| == |values|
  {
    if ids == [] then map[]
    else FromPairs(ids[..|ids| - 1], values[..|values| - 1])[ids[|ids| - 1] := values[|values| - 1]]
  }

  function SeqSum(values: seq<int>): int
  {
    if values == [] then 0 else SeqSum(values[..|values| - 1]) + values[|values| - 1]
  }

  predicate DistinctIDs(ids: seq<MemberID>)
  {
    forall i, j :: 0 <= i < j < |ids| ==> ids[i] != ids[j]
  }

  /**
   * The received shares sum to the sum of the share values whatever distinct
   * member IDs they are stored under: the combined share depends only on the
   * values, not on the IDs.
   */
  lemma {:induction false} SumFromPairs(ids: seq<MemberID>, values: seq<int>)
    requires |ids| == |values| && DistinctIDs(ids)
    ensures FromPairs(ids, values).Keys == set i | 0 <= i < |ids| :: ids[i]
    ensures Sum(FromPairs(ids, values)) == SeqSum(values)
  {
    if ids != [] {
      var n := |ids| - 1;
      SumFromPairs(ids[..n], values[..n]);
      var m := FromPairs(ids[..n], values[..n]);
      assert ids[n] !in m;
      SumUpdate(m, ids[n], values[n]);
    }
  }

  /** Two members holding the same share values under different IDs combine to the same share. */
  lemma CombinedShareIgnoresIDs(ids1: seq<MemberID>, ids2: seq<MemberID>, values: seq<int>, self: int)
    requires |ids1| == |values| && |ids2| == |values|
    requires DistinctIDs(ids1) && DistinctIDs(ids2)
    ensures self + Sum(FromPairs(ids1, values)) == self + Sum(FromPairs(ids2, values))
  {
    SumFromPairs(ids1, values);
    SumFromPairs(ids2, values);
  }

  /**
   * `TestCombineReceivedShares`: own share 9 and shares 10..15 received from
   * members 100..105 combine to 84.
   */
  method CombineReceivedSharesExample() returns (combined: int)
    ensures combined == 84
  {
    var received: map<MemberID, int> := map[];
    for i := 0 to 6
      invariant forall id :: id in received <==> 100 <= id < 100 + i
      invariant Sum(received) == 10 * i + i * (i - 1) / 2
    {
      assert 100 + i !in received;
      SumUpdate(received, 100 + i, 10 + i);
      received := received[100 + i := 10 + i];
    }
    combined := CombineMemberShares(9, received);
  }

  // ---------------------------------------------------------------------------
  // initializeSharingMembersGroup
  // ---------------------------------------------------------------------------

  /** A member in the sharing phase: its ID, its secret coefficients and the valid shares it received. */
  datatype SharingMember = SharingMember(
    id: MemberID,
    secretCoefficients: seq<int>,
    receivedValidSharesS: map<MemberID, int>)

  /**
   * `initializeSharingMembersGroup` over the qualified members `qualified`:
   * each member draws `threshold + 1` secret coefficients (`draw(k, i)` is
   * the i-th random value of member k), then stores, for every qualified
   * member, the share that member evaluates for it. Randomness and share
   * evaluation are parameters.
   */
  method InitializeSharingMembersGroup(
    threshold: nat,
    qualified: seq<MemberID>,
    draw: (nat, nat) -> int,
    evaluateMemberShare: (MemberID, seq<int>) -> int)
    returns (sharingMembers: seq<SharingMember>)
    ensures |sharingMembers| == |qualified|
    ensures forall k :: 0 <= k < |qualified| ==>
      && sharingMembers[k].id == qualified[k]
      && |sharingMembers[k].secretCoefficients| == threshold + 1
      && (forall i :: 0 <= i <= threshold ==> sharingMembers[k].secretCoefficients[i] == draw(k, i))
      && (forall id :: id in sharingMembers[k].receivedValidSharesS <==> id in qualified)
    ensures DistinctIDs(qualified) ==>
      forall k, j :: 0 <= k < |qualified| && 0 <= j < |qualified| ==>
        sharingMembers[k].receivedValidSharesS[qualified[j]]
          == evaluateMemberShare(qualified[k], sharingMembers[j].secretCoefficients)
  {
    sharingMembers := [];
    for k := 0 to |qualified|
      invariant |sharingMembers| == k
      invariant forall m :: 0 <= m < k ==>
        && sharingMembers[m].id == qualified[m]
        && |sharingMembers[m].secretCoefficients| == threshold + 1
        && (forall i :: 0 <= i <= threshold ==> sharingMembers[m].secretCoefficients[i] == draw(m, i))
        && sharingMembers[m].receivedValidSharesS == map[]
    {
      var coefficients := [];
      for i := 0 to threshold + 1
        invariant |coefficients| == i
        invariant forall c :: 0 <= c < i ==> coefficients[c] == draw(k, c)
      {
        coefficients := coefficients + [draw(k, i)];
      }
      sharingMembers := sharingMembers + [SharingMember(qualified[k], coefficients, map[])];
    }

    ghost var drawn := sharingMembers;
    for k := 0 to |sharingMembers|
      invariant |sharingMembers| == |qualified|
      invariant forall m :: 0 <= m < |qualified| ==>
        sharingMembers[m].id == drawn[m].id && sharingMembers[m].secretCoefficients == drawn[m].secretCoefficients
      invariant forall m :: 0 <= m < k ==> HasSharesFrom(sharingMembers[m], qualified, |qualified|, drawn, evaluateMemberShare)
      invariant forall m :: k <= m < |qualified| ==> sharingMembers[m].receivedValidSharesS == map[]
    {
      for j := 0 to |qualified|
        invariant |sharingMembers| == |qualified|
        invariant forall m :: 0 <= m < |qualified| ==>
          sharingMembers[m].id == drawn[m].id && sharingMembers[m].secretCoefficients == drawn[m].secretCoefficients
        invariant forall m :: 0 <= m < k ==> HasSharesFrom(sharingMembers[m], qualified, |qualified|, drawn, evaluateMemberShare)
        invariant forall m :: k < m < |qualified| ==> sharingMembers[m].receivedValidSharesS == map[]
        invariant HasSharesFrom(sharingMembers[k], qualified, j, drawn, evaluateMemberShare)
      {
        var sm := sharingMembers[k];
        var share := evaluateMemberShare(sm.id, sharingMembers[j].secretCoefficients);
        HasSharesFromStep(sm, qualified, j, drawn, evaluateMemberShare, share);
        sharingMembers := sharingMembers[k := sm.(receivedValidSharesS := sm.receivedValidSharesS[qualified[j] := share])];
      }
    }
  }

  /**
   * `sm` holds exactly one entry per sender among the first `count`
   * qualified members and, when their IDs are distinct, each entry is the
   * share that sender evaluated for `sm` from its coefficients.
   */
  ghost predicate HasSharesFrom(
    sm: SharingMember, qualified: seq<MemberID>, count: nat, senders: seq<SharingMember>,
    evaluateMemberShare: (MemberID, seq<int>) -> int)
    requires count <= |qualified| && |senders| == |qualified|
  {
    && sm.receivedValidSharesS.Keys == (set j | 0 <= j < count :: qualified[j])
    && (DistinctIDs(qualified) ==>
      forall j :: 0 <= j < count ==>
        sm.receivedValidSharesS[qualified[j]] == evaluateMemberShare(sm.id, senders[j].secretCoefficients))
  }

  /** Storing the share of sender `j` extends `HasSharesFrom` from the first `j` senders to the first `j + 1`. */
  lemma HasSharesFromStep(
    sm: SharingMember, qualified: seq<MemberID>, j: nat, senders: seq<SharingMember>,
    evaluateMemberShare: (MemberID, seq<int>) -> int, share: int)
    requires j < |qualified| && |senders| == |qualified|
    requires HasSharesFrom(sm, qualified, j, senders, evaluateMemberShare)
    requires share == evaluateMemberShare(sm.id, senders[j].secretCoefficients)
    ensures HasSharesFrom(
      sm.(receivedValidSharesS := sm.receivedValidSharesS[qualified[j] := share]),
      qualified, j + 1, senders, evaluateMemberShare)
  {
    assert (set i | 0 <= i < j + 1 :: qualified[i]) == (set i | 0 <= i < j :: qualified[i]) + {qualified[j]};
  }
}
