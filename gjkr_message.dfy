/**
 * Messages of the distributed key generation protocol (package gjkr): the
 * public key share points message and the peer shares message, whose shares
 * `s_ij` and `t_ij` are encrypted per receiver with the symmetric key the
 * sender shares with that receiver.
 */
module GjkrMessage {
  import opened Wrappers
  import opened Octets
  import opened BigInt

  /** A group member's identifier. */
  type MemberID = nat

  /**
   * The sender's public key share points `A_ik`. The points are curve
   * elements and are kept abstract as the type parameter `P`.
   */
  datatype MemberPublicKeySharePointsMessage<P> = MemberPublicKeySharePointsMessage(
    senderID: MemberID,
    publicKeySharePoints: seq<P>)

  /**
   * The symmetric key two members derived by ECDH, seen only through its two
   * partial operations: each may fail.
   */
  datatype SymmetricKey = SymmetricKey(
    encrypt: seq<Byte> -> Option<seq<Byte>>,
    decrypt: seq<Byte> -> Option<seq<Byte>>)

  /** The assumption a correct key meets: decrypting what it encrypted gives the plaintext back. */
  ghost predicate DecryptInvertsEncrypt(key: SymmetricKey)
  {
    forall plain :: key.encrypt(plain).Some? ==> key.decrypt(key.encrypt(plain).value) == Some(plain)
  }

  /** The encrypted shares `s_ij` and `t_ij` meant for one receiver `j`. */
  datatype PeerShares = PeerShares(encryptedShareS: seq<Byte>, encryptedShareT: seq<Byte>)

  datatype ShareError =
    | CouldNotEncryptS
    | CouldNotEncryptT
    | NoSharesForReceiver(receiverID: MemberID)
    | CouldNotDecryptS
    | CouldNotDecryptT

  /** The shares calculated by the sender `i` for every other member, keyed by receiver. */
  class PeerSharesMessage {
    const senderID: MemberID
    var shares: map<MemberID, PeerShares>

    /** `newPeerSharesMessage(senderID)`: the sender's ID and no shares yet. */
    constructor (senderID: MemberID)
      ensures this.senderID == senderID && shares == map[]
    {
      this.senderID := senderID;
      shares := map[];
    }

    /**
     * `addShares`: encrypts both shares' big-endian bytes for `receiverID`. If
     * either encryption fails nothing is stored; otherwise the receiver's
     * entry is set, replacing any earlier one, and no other entry changes.
     */
    method AddShares(receiverID: MemberID, shareS: nat, shareT: nat, key: SymmetricKey) returns (err: Option<ShareError>)
      modifies this
      ensures key.encrypt(Bytes(shareS)).None? ==> err == Some(CouldNotEncryptS) && shares == old(shares)
      ensures key.encrypt(Bytes(shareS)).Some? && key.encrypt(Bytes(shareT)).None? ==>
        err == Some(CouldNotEncryptT) && shares == old(shares)
      ensures key.encrypt(Bytes(shareS)).Some? && key.encrypt(Bytes(shareT)).Some? ==>
        && err == None
        && receiverID in shares
        && shares[receiverID] == PeerShares(key.encrypt(Bytes(shareS)).value, key.encrypt(Bytes(shareT)).value)
        && shares.Keys == old(shares).Keys + {receiverID}
        && (forall j :: j in old(shares) && j != receiverID ==> shares[j] == old(shares)[j])
    {
      var encryptedS := key.encrypt(Bytes(shareS));
      if encryptedS.None? {
        return Some(CouldNotEncryptS);
      }
      var encryptedT := key.encrypt(Bytes(shareT));
      if encryptedT.None? {
        return Some(CouldNotEncryptT);
      }
      shares := shares[receiverID := PeerShares(encryptedS.value, encryptedT.value)];
      err := None;
    }

    /**
     * `decryptShareS`: fails when there is no entry for the receiver or the
     * key cannot decrypt it; otherwise the decrypted bytes read as a number.
     */
    function DecryptShareS(receiverID: MemberID, key: SymmetricKey): (r: Result<nat, ShareError>)
      reads this
      ensures receiverID !in shares <==> r == Failure(NoSharesForReceiver(receiverID))
      ensures r.Success? <==> receiverID in shares && key.decrypt(shares[receiverID].encryptedShareS).Some?
    {
      if receiverID !in shares then Failure(NoSharesForReceiver(receiverID))
      else
        match key.decrypt(shares[receiverID].encryptedShareS)
        case None => Failure(CouldNotDecryptS)
        case Some(decrypted) => Success(SetBytes(decrypted))
    }

    /** `decryptShareT`, the same for the share `t_ij`. */
    function DecryptShareT(receiverID: MemberID, key: SymmetricKey): (r: Result<nat, ShareError>)
      reads this
      ensures receiverID !in shares <==> r == Failure(NoSharesForReceiver(receiverID))
      ensures r.Success? <==> receiverID in shares && key.decrypt(shares[receiverID].encryptedShareT).Some?
    {
      if receiverID !in shares then Failure(NoSharesForReceiver(receiverID))
      else
        match key.decrypt(shares[receiverID].encryptedShareT)
        case None => Failure(CouldNotDecryptT)
        case Some(decrypted) => Success(SetBytes(decrypted))
    }

    /**
     * `CanDecrypt`: the message holds shares for the receiver and the key
     * decrypts both of them.
     */
    function CanDecrypt(receiverID: MemberID, key: SymmetricKey): (b: bool)
      reads this
      ensures b <==> && receiverID in shares
                     && key.decrypt(shares[receiverID].encryptedShareS).Some?
                     && key.decrypt(shares[receiverID].encryptedShareT).Some?
    {
      if DecryptShareS(receiverID, key).Failure? then false
      else if DecryptShareT(receiverID, key).Failure? then false
      else true
    }
  }

  /** `CanDecrypt` is true exactly when both decryptions succeed. */
  lemma CanDecryptIffBothDecrypt(m: PeerSharesMessage, receiverID: MemberID, key: SymmetricKey)
    ensures m.CanDecrypt(receiverID, key) <==>
      m.DecryptShareS(receiverID, key).Success? && m.DecryptShareT(receiverID, key).Success?
  {
  }

  /**
   * With a key whose decryption inverts its encryption, the entry stored by a
   * successful `addShares` decrypts to the original non-negative shares: the
   * `Bytes`/`SetBytes` round trip.
   */
  lemma DecryptAfterAddShares(m: PeerSharesMessage, receiverID: MemberID, shareS: nat, shareT: nat, key: SymmetricKey)
    requires DecryptInvertsEncrypt(key)
    requires key.encrypt(Bytes(shareS)).Some? && key.encrypt(Bytes(shareT)).Some?
    requires receiverID in m.shares
    requires m.shares[receiverID] == PeerShares(key.encrypt(Bytes(shareS)).value, key.encrypt(Bytes(shareT)).value)
    ensures m.DecryptShareS(receiverID, key) == Success(shareS)
    ensures m.DecryptShareT(receiverID, key) == Success(shareT)
    ensures m.CanDecrypt(receiverID, key)
  {
    SetBytesOfBytes(shareS);
    SetBytesOfBytes(shareT);
  }

  /**
   * A sender adds shares for a receiver and the receiver decrypts them with
   * the same (correct) key: it gets back exactly the shares the sender put in.
   */
  method ExchangeShares(senderID: MemberID, receiverID: MemberID, shareS: nat, shareT: nat, key: SymmetricKey)
    returns (err: Option<ShareError>, received: Option<(nat, nat)>)
    requires DecryptInvertsEncrypt(key)
    ensures err.None? <==> key.encrypt(Bytes(shareS)).Some? && key.encrypt(Bytes(shareT)).Some?
    ensures err.None? ==> received == Some((shareS, shareT))
    ensures err.Some? ==> received == None
  {
    var message := new PeerSharesMessage(senderID);
    err := message.AddShares(receiverID, shareS, shareT, key);
    if err.Some? {
      return err, None;
    }
    DecryptAfterAddShares(message, receiverID, shareS, shareT, key);
    var s := message.DecryptShareS(receiverID, key);
    var t := message.DecryptShareT(receiverID, key);
    received := Some((s.value, t.value));
  }
}
