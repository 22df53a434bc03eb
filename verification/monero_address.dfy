/** Monero address acceptance: base 58 text, a network prefix and a Keccak checksum. */
module MoneroAddress {
  import opened Options
  import opened ByteStrings
  import opened MoneroBase58
  import opened MoneroKeccak

  datatype Kind = Primary | Integrated | Subaddress

  const PRIMARY_PREFIX := 0x12
  const INTEGRATED_PREFIX := 0x13
  const SUBADDRESS_PREFIX := 0x2A

  const PRIMARY_RAW_LEN := 69
  const INTEGRATED_RAW_LEN := 77

  function ClassifyPrefix(prefix: Byte): Option<Kind> {
    if prefix == PRIMARY_PREFIX then Some(Primary)
    else if prefix == INTEGRATED_PREFIX then Some(Integrated)
    else if prefix == SUBADDRESS_PREFIX then Some(Subaddress)
    else None
  }

  /** The first four bytes of the Keccak-256 digest. */
  function Checksum(payload: seq<Byte>): (checksum: seq<Byte>)
    ensures |checksum| == 4
  {
    KeccakBytes(payload)[..4]
  }

  function ValidateDecoded(raw: seq<Byte>, expected: Option<Kind>): Option<Kind> {
    hide Checksum;
    if |raw| != PRIMARY_RAW_LEN && |raw| != INTEGRATED_RAW_LEN then None
    else
      match ClassifyPrefix(raw[0])
      case None => None
      case Some(kind) =>
        if kind != Integrated && |raw| != PRIMARY_RAW_LEN then None
        else if kind == Integrated && |raw| != INTEGRATED_RAW_LEN then None
        else if Checksum(raw[..|raw| - 4]) != raw[|raw| - 4..] then None
        else if expected.Some? && kind != expected.value then None
        else Some(kind)
  }

  /** is_valid_monero_address on text already trimmed. */
  predicate IsValidAddress(s: string) {
    && (|s| == 95 || |s| == 106)
    && AllBase58(s)
    && Decoded(s).Ok?
    && ValidateDecoded(Decoded(s).value, None).Some?
  }

  predicate IsPrimaryOrSubaddress(s: string) {
    && |s| == 95
    && AllBase58(s)
    && Decoded(s).Ok?
    && ValidateDecoded(Decoded(s).value, None) in {Some(Primary), Some(Subaddress)}
  }

  /** What an address of one kind carries before its checksum. */
  predicate PayloadOf(kind: Kind, payload: seq<Byte>) {
    match kind
    case Primary => |payload| == 65 && payload[0] == PRIMARY_PREFIX
    case Integrated => |payload| == 73 && payload[0] == INTEGRATED_PREFIX
    case Subaddress => |payload| == 65 && payload[0] == SUBADDRESS_PREFIX
  }

  ghost predicate IsAddressOf(s: string, kind: Kind, payload: seq<Byte>) {
    PayloadOf(kind, payload) && s == Encoded(payload + Checksum(payload))
  }

  lemma ValidRawIsPayload(raw: seq<Byte>, kind: Kind)
    ensures ValidateDecoded(raw, None) == Some(kind) <==>
            |raw| >= 5 && PayloadOf(kind, raw[..|raw| - 4]) && raw == raw[..|raw| - 4] + Checksum(raw[..|raw| - 4])
    ensures ValidateDecoded(raw, Some(kind)) == if ValidateDecoded(raw, None) == Some(kind) then Some(kind) else None
  {
    hide Checksum;
    if |raw| >= 5 {
      assert raw == raw[..|raw| - 4] + raw[|raw| - 4..];
    }
  }

  lemma {:induction false} DecodedAllBase58(s: string)
    requires DecodedChunks(s).Ok?
    ensures AllBase58(s)
  {
    if s != "" {
      DecodedAllBase58(s[|Chunk(s)|..]);
      BlockAllBase58(Chunk(s));
      assert s == Chunk(s) + s[|Chunk(s)|..];
    }
  }

  lemma BlockAllBase58(block: string)
    requires block != "" && DecodedBlock(block).Ok?
    ensures AllBase58(block)
  {}

  lemma AcceptedPayload(s: string, kind: Kind)
    requires IsValidAddress(s) && ValidateDecoded(Decoded(s).value, None) == Some(kind)
    ensures exists payload :: IsAddressOf(s, kind, payload)
  {
    hide Checksum, Encoded, Decoded;
    var raw := Decoded(s).value;
    AcceptedIsEncoded(s);
    ValidRawIsPayload(raw, kind);
    assert IsAddressOf(s, kind, raw[..|raw| - 4]);
  }

  lemma PayloadAccepted(s: string, kind: Kind, payload: seq<Byte>)
    requires IsAddressOf(s, kind, payload)
    ensures IsValidAddress(s) && ValidateDecoded(Decoded(s).value, None) == Some(kind)
    ensures |s| == if kind == Integrated then 106 else 95
  {
    hide Checksum, Encoded, ValidateDecoded;
    var raw := payload + Checksum(payload);
    DecodeInvertsEncode(raw);
    DecodedAllBase58(s);
    AddressLengths(s);
    assert raw[..|raw| - 4] == payload;
    ValidRawIsPayload(raw, kind);
  }

  /** A trimmed string is an accepted address of a kind exactly when it is the encoding of
      that kind's payload followed by the payload's own Keccak checksum. */
  lemma AddressAccepted(s: string, kind: Kind)
    ensures IsValidAddress(s) && ValidateDecoded(Decoded(s).value, None) == Some(kind)
            <==> exists payload :: IsAddressOf(s, kind, payload)
    ensures IsPrimaryOrSubaddress(s) <==>
            exists k, payload :: k != Integrated && IsAddressOf(s, k, payload)
  {
    hide Checksum, Encoded, Decoded, ValidateDecoded, IsAddressOf;
    if IsValidAddress(s) {
      AcceptedPayload(s, ValidateDecoded(Decoded(s).value, None).value);
    }
    forall k, payload | IsAddressOf(s, k, payload)
      ensures IsValidAddress(s) && ValidateDecoded(Decoded(s).value, None) == Some(k)
      ensures |s| == if k == Integrated then 106 else 95
    {
      PayloadAccepted(s, k, payload);
    }
    if IsPrimaryOrSubaddress(s) {
      assert IsValidAddress(s);
    }
  }
}
