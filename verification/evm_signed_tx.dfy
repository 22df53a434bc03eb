/** Binding of a signed legacy Ethereum transaction to a drafted one: hexadecimal, RLP,
    EIP-155 and the field-by-field check of evm_signed_tx_verify.py. Signer recovery is a
    parameter: any function of the signed text. */
module EvmSignedTx {
  import opened Options
  import opened ByteStrings
  import opened Text
  import opened Rlp
  import opened MoneroKeccak

  type Recover = string -> Option<string>

  datatype DecodedTx = DecodedTx(
    nonce: nat, gasPrice: nat, gasLimit: nat, toLower: string, valueWei: nat, dataHex: string,
    v: nat, r: nat, s: nat, chainIdFromV: int, senderLower: string, localTxHash: string)

  datatype Draft = Draft(
    chainId: int, nonce: int, gasPrice: int, gasLimit: int, valueWei: int,
    transactionTo: string, dataHex: string, sender: string)

  datatype Reason =
    | UnsupportedTxType | DecodeOrRecoverFailed | ChainIdMismatch | NonceMismatch
    | GasPriceMismatch | GasLimitMismatch | ValueMismatch | DestinationMismatch
    | CalldataMismatch | SignerMismatch

  datatype VerifyResult =
    | Verified(decoded: DecodedTx)
    | Refused(reason: Reason)
    | IndexRaised

  // ----- the pieces -----

  function ChainIdFromV(v: nat): int {
    if v == 27 || v == 28 then 0
    else if v < 35 then -1
    else (v - 35) / 2
  }

  function Without0x(s: string): string {
    if "0x" <= s || "0X" <= s then s[2..] else s
  }

  function WithPrefix(s: string): string {
    if "0x" <= s || "0X" <= s then s else "0x" + s
  }

  function NormHex(s: string): string {
    var t := Lower(Trim(s));
    "0x" + (if "0x" <= t then t[2..] else t)
  }

  datatype TypedPrefix = Typed | NotTyped | EmptyPair

  /** Only two white-space characters make an empty pair, whose first byte does not exist. */
  function TypedTransactionPrefix(body: string): TypedPrefix {
    if |body| < 2 then NotTyped
    else
      match FromHex(body[..2])
      case None => NotTyped
      case Some(pair) =>
        if pair == [] then EmptyPair
        else if pair[0] < 0xc0 then Typed
        else NotTyped
  }

  /** An integer field; the decoder's own falsy test makes an empty list count as zero. */
  function FieldInt(x: Item): Option<nat> {
    match x
    case Bytes(b) => Some(IntOf(b))
    case List(items) => if items == [] then Some(0) else None
  }

  function FieldBytes(x: Item): Option<seq<Byte>> {
    match x
    case Bytes(b) => Some(b)
    case List(items) => if items == [] then Some([]) else None
  }

  function LocalTxHash(raw: seq<Byte>): string {
    "0x" + ToHex(KeccakBytes(raw))
  }

  /** The nine fields, or None when one of them is not readable. */
  function ReadFields(f: seq<Item>, sender: string, hash: string): Option<DecodedTx>
    requires |f| == 9
  {
    if FieldInt(f[0]).None? || FieldInt(f[1]).None? || FieldInt(f[2]).None? || FieldBytes(f[3]).None?
       || FieldInt(f[4]).None? || FieldBytes(f[5]).None? || FieldInt(f[6]).None?
       || FieldInt(f[7]).None? || FieldInt(f[8]).None? then None
    else if |FieldBytes(f[3]).value| != 20 then None
    else
      var v := FieldInt(f[6]).value;
      Some(DecodedTx(
             FieldInt(f[0]).value, FieldInt(f[1]).value, FieldInt(f[2]).value,
             NormHex(ToHex(FieldBytes(f[3]).value)),
             FieldInt(f[4]).value,
             NormHex(ToHex(FieldBytes(f[5]).value)),
             v, FieldInt(f[7]).value, FieldInt(f[8]).value,
             ChainIdFromV(v), sender, hash))
  }

  function DecodeAndRecover(signedHex: string, recover: Recover): Option<DecodedTx> {
    var s := WithPrefix(Trim(signedHex));
    var body := s[2..];
    match FromHex(body)
    case None => None
    case Some(raw) =>
      if raw == [] || TypedTransactionPrefix(body) == Typed then None
      else
        match Decode(raw)
        case None => None
        case Some(Bytes(_)) => None
        case Some(List(f)) =>
          if |f| != 9 then None
          else
            match recover(s)
            case None => None
            case Some(sender) => ReadFields(f, Lower(Trim(sender)), LocalTxHash(raw))
  }

  /** The decoded fields against the draft, in the order they are compared. */
  function Compared(d: DecodedTx, draft: Draft): VerifyResult {
    if d.chainIdFromV != draft.chainId then Refused(ChainIdMismatch)
    else if draft.nonce != d.nonce then Refused(NonceMismatch)
    else if draft.gasPrice != d.gasPrice then Refused(GasPriceMismatch)
    else if draft.gasLimit != d.gasLimit then Refused(GasLimitMismatch)
    else if draft.valueWei != d.valueWei then Refused(ValueMismatch)
    else if d.toLower != NormHex(draft.transactionTo) then Refused(DestinationMismatch)
    else if d.dataHex != NormHex(draft.dataHex) && !(NormHex(draft.dataHex) in {"0x", ""} && d.dataHex == "0x") then
      Refused(CalldataMismatch)
    else if d.senderLower != NormHex(draft.sender) then Refused(SignerMismatch)
    else Verified(d)
  }

  function VerifySignedTx(signedHex: string, draft: Draft, recover: Recover): VerifyResult {
    match TypedTransactionPrefix(Without0x(Trim(signedHex)))
    case EmptyPair => IndexRaised
    case Typed => Refused(UnsupportedTxType)
    case NotTyped =>
      match DecodeAndRecover(signedHex, recover)
      case None => Refused(DecodeOrRecoverFailed)
      case Some(d) => Compared(d, draft)
  }

  // ----- EIP-155 -----

  /** v = 35 + 2 * chain + parity names its chain, and no other v names a positive chain. */
  lemma ChainIdRoundTrip(chain: nat, v: nat)
    ensures v == 35 + 2 * chain || v == 36 + 2 * chain ==> ChainIdFromV(v) == chain
    ensures chain > 0 && ChainIdFromV(v) == chain ==> v == 35 + 2 * chain || v == 36 + 2 * chain
    ensures ChainIdFromV(v) == 0 <==> v == 27 || v == 28 || v == 35 || v == 36
    ensures ChainIdFromV(v) < 0 <==> v < 35 && v != 27 && v != 28
  {}

  // ----- the text of a signed transaction -----

  datatype SignedTx = SignedTx(
    nonce: nat, gasPrice: nat, gasLimit: nat, to: seq<Byte>, value: nat, data: seq<Byte>,
    v: nat, r: nat, s: nat)

  function Fields(t: SignedTx): seq<Item> {
    [Bytes(Minimal(t.nonce)), Bytes(Minimal(t.gasPrice)), Bytes(Minimal(t.gasLimit)), Bytes(t.to),
     Bytes(Minimal(t.value)), Bytes(t.data), Bytes(Minimal(t.v)), Bytes(Minimal(t.r)), Bytes(Minimal(t.s))]
  }

  function RawTx(t: SignedTx): seq<Byte> {
    Encode(List(Fields(t)))
  }

  function SignedText(t: SignedTx): string {
    "0x" + ToHex(RawTx(t))
  }

  lemma NormHexOfHex(b: seq<Byte>)
    ensures NormHex(ToHex(b)) == "0x" + ToHex(b)
  {
    HexIsCleanLower(b);
    TrimClean(ToHex(b));
    if |ToHex(b)| >= 2 {
      assert ToHex(b)[1] != 'x';
    }
  }

  /** An RLP list is never taken for a typed transaction. */
  lemma ListIsNotTyped(items: seq<Item>)
    ensures TypedTransactionPrefix(ToHex(Encode(List(items)))) == NotTyped
  {
    hide Encode;
    var raw := Encode(List(items));
    assert ToHex(raw)[..2] == [NibbleChar(raw[0] / 16), NibbleChar(raw[0] % 16)];
    assert ToHex(raw)[..2][2..] == "";
  }

  lemma SignedTextParts(raw: seq<Byte>)
    ensures Trim("0x" + ToHex(raw)) == "0x" + ToHex(raw)
    ensures WithPrefix("0x" + ToHex(raw)) == "0x" + ToHex(raw)
    ensures Without0x("0x" + ToHex(raw)) == ToHex(raw)
    ensures FromHex(ToHex(raw)) == Some(raw)
  {
    hide ToHex, FromHex;
    HexIsCleanLower(raw);
    HexRoundTrip(raw);
    TrimClean("0x" + ToHex(raw));
  }

  function DecodedOf(t: SignedTx, sender: string): DecodedTx {
    DecodedTx(t.nonce, t.gasPrice, t.gasLimit, "0x" + ToHex(t.to), t.value, "0x" + ToHex(t.data),
              t.v, t.r, t.s, ChainIdFromV(t.v), sender, LocalTxHash(RawTx(t)))
  }

  lemma FieldsRead(t: SignedTx, sender: string)
    requires |t.to| == 20
    ensures ReadFields(Fields(t), sender, LocalTxHash(RawTx(t))) == Some(DecodedOf(t, sender))
  {
    hide Minimal, IntOf, NormHex, ToHex, LocalTxHash, RawTx, ChainIdFromV;
    MinimalIsCanonical(t.nonce);
    MinimalIsCanonical(t.gasPrice);
    MinimalIsCanonical(t.gasLimit);
    MinimalIsCanonical(t.value);
    MinimalIsCanonical(t.v);
    MinimalIsCanonical(t.r);
    MinimalIsCanonical(t.s);
    NormHexOfHex(t.to);
    NormHexOfHex(t.data);
  }

  /** Encoding any fields, then decoding the text, gives back the same nine fields. */
  lemma SignedTextDecodes(t: SignedTx, recover: Recover)
    requires |t.to| == 20 && Encodable(List(Fields(t)))
    ensures TypedTransactionPrefix(Without0x(Trim(SignedText(t)))) == NotTyped
    ensures DecodeAndRecover(SignedText(t), recover) ==
            match recover(SignedText(t))
            case None => None
            case Some(sender) => Some(DecodedOf(t, Lower(Trim(sender))))
  {
    hide Encode, Encodable, Decode, ToHex, FromHex, Trim, Lower, ReadFields, DecodedOf, TypedTransactionPrefix,
      LocalTxHash;
    var raw := RawTx(t);
    SignedTextParts(raw);
    ListIsNotTyped(Fields(t));
    DecodeIsInverse(raw, List(Fields(t)));
    if recover(SignedText(t)).Some? {
      FieldsRead(t, Lower(Trim(recover(SignedText(t)).value)));
    }
  }

  predicate DraftedFieldsMatch(d: DecodedTx, draft: Draft) {
    && d.chainIdFromV == draft.chainId
    && d.nonce == draft.nonce && d.gasPrice == draft.gasPrice && d.gasLimit == draft.gasLimit
    && d.valueWei == draft.valueWei
    && d.toLower == NormHex(draft.transactionTo)
    && d.dataHex == NormHex(draft.dataHex)
    && d.senderLower == NormHex(draft.sender)
  }

  /** Every check counts and nothing else does: the exemption for empty call data admits
      nothing that equality does not. */
  lemma VerifiedExactly(signedHex: string, draft: Draft, recover: Recover, d: DecodedTx)
    ensures VerifySignedTx(signedHex, draft, recover) == Verified(d) <==>
            && TypedTransactionPrefix(Without0x(Trim(signedHex))) == NotTyped
            && DecodeAndRecover(signedHex, recover) == Some(d)
            && DraftedFieldsMatch(d, draft)
  {
    hide DecodeAndRecover, TypedTransactionPrefix, Trim, Lower;
  }

  /** The signing app's own text is verified exactly when it signs what was drafted. */
  lemma SignedTextVerified(t: SignedTx, draft: Draft, recover: Recover)
    requires |t.to| == 20 && Encodable(List(Fields(t)))
    ensures VerifySignedTx(SignedText(t), draft, recover).Verified? <==>
            && ChainIdFromV(t.v) == draft.chainId
            && t.nonce == draft.nonce && t.gasPrice == draft.gasPrice && t.gasLimit == draft.gasLimit
            && t.value == draft.valueWei
            && "0x" + ToHex(t.to) == NormHex(draft.transactionTo)
            && "0x" + ToHex(t.data) == NormHex(draft.dataHex)
            && recover(SignedText(t)).Some?
            && Lower(Trim(recover(SignedText(t)).value)) == NormHex(draft.sender)
  {
    hide VerifySignedTx, DecodeAndRecover, TypedTransactionPrefix, SignedText, NormHex, Encodable, ToHex, Trim, Lower,
      ChainIdFromV, LocalTxHash;
    SignedTextDecodes(t, recover);
    var text := SignedText(t);
    if VerifySignedTx(text, draft, recover).Verified? {
      VerifiedExactly(text, draft, recover, VerifySignedTx(text, draft, recover).decoded);
    }
    if DecodeAndRecover(text, recover).Some? {
      VerifiedExactly(text, draft, recover, DecodeAndRecover(text, recover).value);
    }
  }

  // ----- what one draft admits -----

  /** The signed text carries this RLP list of nine fields. */
  ghost predicate Carries(signedHex: string, raw: seq<Byte>, f: seq<Item>) {
    && FromHex(WithPrefix(Trim(signedHex))[2..]) == Some(raw)
    && Decode(raw) == Some(List(f))
    && |f| == 9
  }

  predicate CanonicalInt(x: Item) {
    x.Bytes? && Canonical(x.bytes)
  }

  /** The drafted fields are byte strings, the integers among them without leading zeros. */
  predicate CanonicalFields(f: seq<Item>)
    requires |f| == 9
  {
    && CanonicalInt(f[0]) && CanonicalInt(f[1]) && CanonicalInt(f[2]) && CanonicalInt(f[4])
    && f[5].Bytes?
  }

  lemma SameInt(x: Item, y: Item)
    requires CanonicalInt(x) && CanonicalInt(y) && FieldInt(x) == FieldInt(y)
    ensures x == y
  {
    hide IntOf, Minimal;
    CanonicalIsMinimal(x.bytes);
    CanonicalIsMinimal(y.bytes);
  }

  lemma SameBytes(x: Item, y: Item)
    requires x.Bytes? && y.Bytes? && NormHex(ToHex(x.bytes)) == NormHex(ToHex(y.bytes))
    ensures x == y
  {
    hide NormHex, ToHex;
    NormHexOfHex(x.bytes);
    NormHexOfHex(y.bytes);
    assert ToHex(x.bytes) == ("0x" + ToHex(x.bytes))[2..];
    assert ToHex(y.bytes) == ("0x" + ToHex(y.bytes))[2..];
    ToHexInjective(x.bytes, y.bytes);
  }

  /** What ReadFields found in the six drafted places. */
  lemma FieldsOfDecoded(f: seq<Item>, sender: string, hash: string)
    requires |f| == 9 && ReadFields(f, sender, hash).Some?
    ensures var d := ReadFields(f, sender, hash).value;
            && FieldInt(f[0]) == Some(d.nonce) && FieldInt(f[1]) == Some(d.gasPrice)
            && FieldInt(f[2]) == Some(d.gasLimit)
            && FieldInt(f[4]) == Some(d.valueWei)
            && f[3].Bytes? && d.toLower == NormHex(ToHex(f[3].bytes))
            && (f[5].Bytes? ==> d.dataHex == NormHex(ToHex(f[5].bytes)))
  {
    hide NormHex, ToHex, IntOf, ChainIdFromV;
  }

  lemma VerifiedCarries(signedHex: string, draft: Draft, recover: Recover)
    returns (raw: seq<Byte>, f: seq<Item>)
    requires VerifySignedTx(signedHex, draft, recover).Verified?
    ensures Carries(signedHex, raw, f)
    ensures FieldInt(f[0]) == Some(draft.nonce) && FieldInt(f[1]) == Some(draft.gasPrice)
    ensures FieldInt(f[2]) == Some(draft.gasLimit) && FieldInt(f[4]) == Some(draft.valueWei)
    ensures f[3].Bytes? && NormHex(ToHex(f[3].bytes)) == NormHex(draft.transactionTo)
    ensures f[5].Bytes? ==> NormHex(ToHex(f[5].bytes)) == NormHex(draft.dataHex)
  {
    hide VerifySignedTx, DecodeAndRecover, NormHex, ToHex, ReadFields, FieldInt, TypedTransactionPrefix, Carries;
    var d := VerifySignedTx(signedHex, draft, recover).decoded;
    VerifiedExactly(signedHex, draft, recover, d);
    var sender, hash;
    raw, f, sender, hash := DecodedCarries(signedHex, recover);
    FieldsOfDecoded(f, sender, hash);
  }

  lemma DecodedCarries(signedHex: string, recover: Recover)
    returns (raw: seq<Byte>, f: seq<Item>, sender: string, hash: string)
    requires DecodeAndRecover(signedHex, recover).Some?
    ensures Carries(signedHex, raw, f) && |f| == 9
    ensures ReadFields(f, sender, hash) == DecodeAndRecover(signedHex, recover)
  {
    hide NormHex, ToHex, FromHex, Trim, Lower, ReadFields, FieldInt, TypedTransactionPrefix, Decode, LocalTxHash;
    var s := WithPrefix(Trim(signedHex));
    raw := FromHex(s[2..]).value;
    f := Decode(raw).value.items;
    sender := Lower(Trim(recover(s).value));
    hash := LocalTxHash(raw);
  }

  /** Two signed texts verified for one draft, with canonical fields, carry the same six
      drafted fields; with the same signature fields too they are the same bytes. */
  lemma VerifiedDifferOnlyInSignature(
    one: string, two: string, draft: Draft, recover: Recover,
    raw1: seq<Byte>, f1: seq<Item>, raw2: seq<Byte>, f2: seq<Item>)
    requires VerifySignedTx(one, draft, recover).Verified? && VerifySignedTx(two, draft, recover).Verified?
    requires Carries(one, raw1, f1) && Carries(two, raw2, f2)
    requires CanonicalFields(f1) && CanonicalFields(f2)
    ensures f1[..6] == f2[..6]
    ensures f1[6..] == f2[6..] ==> raw1 == raw2
  {
    hide VerifySignedTx, NormHex, ToHex, FromHex, Trim, FieldInt, Decode, CanonicalInt;
    var r1, g1 := VerifiedCarries(one, draft, recover);
    var r2, g2 := VerifiedCarries(two, draft, recover);
    SameInt(f1[0], f2[0]);
    SameInt(f1[1], f2[1]);
    SameInt(f1[2], f2[2]);
    SameInt(f1[4], f2[4]);
    SameBytes(f1[3], f2[3]);
    SameBytes(f1[5], f2[5]);
    DecodeIsInverse(raw1, List(f1));
    DecodeIsInverse(raw2, List(f2));
    if f1[6..] == f2[6..] {
      assert f1 == f1[..6] + f1[6..] && f2 == f2[..6] + f2[6..];
    }
  }

  lemma CanonicalIntExactly(x: Item, n: nat)
    requires FieldInt(x) == Some(n)
    ensures CanonicalInt(x) <==> x == Bytes(Minimal(n))
  {
    hide IntOf, Minimal;
    MinimalIsCanonical(n);
    if CanonicalInt(x) {
      CanonicalIsMinimal(x.bytes);
    }
  }

  /** In every verified text the fields are canonical if and only if they are the minimal encodings
      of the draft's own integers, with byte-string data: the draft fixes what canonical is. */
  lemma CanonicalExactly(signedHex: string, draft: Draft, recover: Recover, raw: seq<Byte>, f: seq<Item>)
    requires VerifySignedTx(signedHex, draft, recover).Verified? && Carries(signedHex, raw, f)
    ensures draft.nonce >= 0 && draft.gasPrice >= 0 && draft.gasLimit >= 0 && draft.valueWei >= 0
    ensures CanonicalFields(f) <==>
            && f[0] == Bytes(Minimal(draft.nonce)) && f[1] == Bytes(Minimal(draft.gasPrice))
            && f[2] == Bytes(Minimal(draft.gasLimit)) && f[4] == Bytes(Minimal(draft.valueWei))
            && f[5].Bytes?
  {
    hide VerifySignedTx, NormHex, ToHex, FromHex, Trim, FieldInt, Decode, CanonicalInt, Minimal;
    var r, g := VerifiedCarries(signedHex, draft, recover);
    CanonicalIntExactly(f[0], draft.nonce);
    CanonicalIntExactly(f[1], draft.gasPrice);
    CanonicalIntExactly(f[2], draft.gasLimit);
    CanonicalIntExactly(f[4], draft.valueWei);
  }

  // ----- texts that verify without being canonical -----

  /** The text of any nine items. */
  function TextOf(f: seq<Item>): string {
    "0x" + ToHex(Encode(List(f)))
  }

  lemma TextCarries(f: seq<Item>)
    requires |f| == 9 && Encodable(List(f))
    ensures Carries(TextOf(f), Encode(List(f)), f)
  {
    hide Encode, Encodable, Decode, ToHex, FromHex, Trim;
    SignedTextParts(Encode(List(f)));
    DecodeIsInverse(Encode(List(f)), List(f));
    assert ("0x" + ToHex(Encode(List(f))))[2..] == ToHex(Encode(List(f)));
  }

  lemma TextDecodes(f: seq<Item>, recover: Recover)
    requires |f| == 9 && Encodable(List(f))
    ensures TypedTransactionPrefix(Without0x(Trim(TextOf(f)))) == NotTyped
    ensures DecodeAndRecover(TextOf(f), recover) ==
            match recover(TextOf(f))
            case None => None
            case Some(sender) => ReadFields(f, Lower(Trim(sender)), LocalTxHash(Encode(List(f))))
  {
    hide Encode, Encodable, Decode, ToHex, FromHex, Trim, Lower, ReadFields, TypedTransactionPrefix, LocalTxHash;
    var raw := Encode(List(f));
    SignedTextParts(raw);
    ListIsNotTyped(f);
    DecodeIsInverse(raw, List(f));
  }

  lemma {:induction false} LeadingZero(b: seq<Byte>)
    ensures IntOf([0] + b) == IntOf(b)
  {
    if b != [] {
      LeadingZero(b[..|b| - 1]);
      assert ([0] + b)[..|b|] == [0] + b[..|b| - 1];
    }
  }

  /** A zero byte in front of an integer field, at the place of one of the four drafted integers. */
  function Padded(f: seq<Item>, k: nat): (g: seq<Item>)
    requires |f| == 9 && k in {0, 1, 2, 4} && f[k].Bytes?
    ensures |g| == 9 && g[k] != f[k] && !CanonicalInt(g[k])
  {
    assert |[0] + f[k].bytes| == |f[k].bytes| + 1;
    f[k := Bytes([0] + f[k].bytes)]
  }

  lemma PaddedReadsSame(f: seq<Item>, k: nat, sender: string, hash: string)
    requires |f| == 9 && k in {0, 1, 2, 4} && f[k].Bytes?
    ensures ReadFields(Padded(f, k), sender, hash) == ReadFields(f, sender, hash)
  {
    hide NormHex, ToHex, ChainIdFromV, IntOf;
    LeadingZero(f[k].bytes);
  }

  lemma MatchIgnoresHash(f: seq<Item>, sender: string, hash: string, other: string)
    requires |f| == 9
    ensures ReadFields(f, sender, hash).Some? <==> ReadFields(f, sender, other).Some?
    ensures ReadFields(f, sender, hash).Some? ==>
              ReadFields(f, sender, other).value == ReadFields(f, sender, hash).value.(localTxHash := other)
  {
    hide NormHex, ToHex, ChainIdFromV, IntOf;
  }

  /** Canonical fields are needed: whenever a text is verified, so is the text with a zero byte in
      front of any one of its drafted integers, if the same account signed that one. The two carry
      different fields for one draft. */
  lemma PaddedTextVerified(f: seq<Item>, k: nat, draft: Draft, recover: Recover)
    requires |f| == 9 && k in {0, 1, 2, 4} && f[k].Bytes?
    requires Encodable(List(f)) && Encodable(List(Padded(f, k)))
    requires VerifySignedTx(TextOf(f), draft, recover).Verified? && recover(TextOf(Padded(f, k))) == recover(TextOf(f))
    ensures VerifySignedTx(TextOf(Padded(f, k)), draft, recover).Verified?
    ensures Carries(TextOf(f), Encode(List(f)), f)
    ensures Carries(TextOf(Padded(f, k)), Encode(List(Padded(f, k))), Padded(f, k))
    ensures Padded(f, k)[..6] != f[..6]
  {
    hide VerifySignedTx, DecodeAndRecover, NormHex, ToHex, ReadFields, TypedTransactionPrefix, Carries, TextOf,
      Encode, Encodable, Trim, Lower, LocalTxHash, Padded, CanonicalInt, FieldInt;
    var g := Padded(f, k);
    TextCarries(f);
    TextCarries(g);
    assert g[..6][k] == g[k] && f[..6][k] == f[k];
    TextDecodes(f, recover);
    TextDecodes(g, recover);
    var d := VerifySignedTx(TextOf(f), draft, recover).decoded;
    VerifiedExactly(TextOf(f), draft, recover, d);
    var sender := Lower(Trim(recover(TextOf(f)).value));
    PaddedReadsSame(f, k, sender, LocalTxHash(Encode(List(g))));
    MatchIgnoresHash(f, sender, LocalTxHash(Encode(List(f))), LocalTxHash(Encode(List(g))));
    VerifiedExactly(TextOf(g), draft, recover, d.(localTxHash := LocalTxHash(Encode(List(g)))));
  }

  lemma LowerHex(b: seq<Byte>)
    ensures Lower(Trim("0x" + ToHex(b))) == "0x" + ToHex(b)
  {
    hide ToHex, Trim, Lower;
    SignedTextParts(b);
    HexIsCleanLower(b);
    LowerAppend("0x", ToHex(b));
    LowerPrefix();
  }

  lemma LowerPrefix()
    ensures Lower("0x") == "0x"
  {}

  lemma TextOfFields(t: SignedTx)
    ensures TextOf(Fields(t)) == SignedText(t)
    ensures |Fields(t)| == 9 && forall k :: k in {0, 1, 2, 4} ==> Fields(t)[k].Bytes?
  {}

  /** For every transaction there is a draft that two different texts of it are verified for. */
  lemma TwoTextsForOneDraft(t: SignedTx, k: nat, account: seq<Byte>)
    returns (draft: Draft, recover: Recover)
    requires |t.to| == 20 && k in {0, 1, 2, 4}
    requires Encodable(List(Fields(t))) && Encodable(List(Padded(Fields(t), k)))
    ensures VerifySignedTx(TextOf(Fields(t)), draft, recover).Verified?
    ensures VerifySignedTx(TextOf(Padded(Fields(t), k)), draft, recover).Verified?
    ensures Padded(Fields(t), k)[..6] != Fields(t)[..6]
  {
    hide VerifySignedTx, TextOf, SignedText, Padded, Encodable, NormHex, ToHex, Fields, ChainIdFromV, Lower, Trim;
    TextOfFields(t);
    draft := Draft(ChainIdFromV(t.v), t.nonce, t.gasPrice, t.gasLimit, t.value, ToHex(t.to), ToHex(t.data),
      ToHex(account));
    recover := s => Some("0x" + ToHex(account));
    NormHexOfHex(t.to);
    NormHexOfHex(t.data);
    NormHexOfHex(account);
    LowerHex(account);
    SignedTextVerified(t, draft, recover);
    PaddedTextVerified(Fields(t), k, draft, recover);
  }

  /** Zero has a third spelling: an empty list reads as the same field too. */
  lemma ZeroHasThreeSpellings(f: seq<Item>, sender: string, hash: string)
    requires |f| == 9 && f[0] == Bytes([])
    ensures ReadFields(f[0 := List([])], sender, hash) == ReadFields(f, sender, hash)
    ensures ReadFields(f[0 := Bytes([0])], sender, hash) == ReadFields(f, sender, hash)
    ensures CanonicalInt(f[0]) && !CanonicalInt(List([])) && !CanonicalInt(Bytes([0]))
  {
    hide NormHex, ToHex, ChainIdFromV;
    assert IntOf([0]) == 0;
  }
}
