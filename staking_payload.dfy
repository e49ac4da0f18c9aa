/**
 * The data carried by `approveAndCall` when an owner delegates a stake: the
 * 20-byte addresses of the magpie (reward beneficiary), the operator and the
 * authorizer, concatenated in that order into 60 bytes.
 */
module StakingPayload {
  import opened Wrappers
  import opened Octets

  const AddressLength: nat := 20
  const PayloadLength: nat := 3 * AddressLength

  /** An account address: 20 bytes. */
  type Address = a: seq<Byte> | |a| == AddressLength witness seq(20, _ => 0)

  datatype Payload = Payload(magpie: Address, operator: Address, authorizer: Address)

  /** `magpie ‖ operator ‖ authorizer`, as the owner builds it before calling `approveAndCall`. */
  function Encode(p: Payload): (data: seq<Byte>)
    ensures |data| == PayloadLength
  {
    p.magpie + p.operator + p.authorizer
  }

  /** Splits a payload into its three addresses; any length other than 60 bytes is refused. */
  function Decode(data: seq<Byte>): (r: Option<Payload>)
    ensures r.Some? <==> |data| == PayloadLength
  {
    if |data| != PayloadLength then None
    else Some(Payload(data[..AddressLength], data[AddressLength..2 * AddressLength], data[2 * AddressLength..]))
  }

  /** Decoding an encoded payload gives back the three addresses in their order. */
  lemma DecodeEncode(p: Payload)
    ensures Decode(Encode(p)) == Some(p)
  {
    var data := Encode(p);
    assert data[..AddressLength] == p.magpie;
    assert data[AddressLength..2 * AddressLength] == p.operator;
    assert data[2 * AddressLength..] == p.authorizer;
  }

  /** Every 60-byte string is the encoding of the payload it decodes to. */
  lemma EncodeDecode(data: seq<Byte>)
    requires |data| == PayloadLength
    ensures Decode(data).Some? && Encode(Decode(data).value) == data
  {
    var p := Decode(data).value;
    assert data == data[..AddressLength] + data[AddressLength..2 * AddressLength] + data[2 * AddressLength..];
  }
}
