/** The texts that stand for bytes in a draft and in a signed transaction, and the answer of the
    verification for every one of them. */
module EvmSpelling {
  import opened Options
  import opened ByteStrings
  import opened Text
  import opened Rlp
  import opened MoneroKeccak
  import opened EvmSignedTx

  // ----- spellings of byte strings -----

  /** Hexadecimal digits of either case, with a prefix of either case or none, and any white space
      around. */
  ghost predicate Spells(s: string, b: seq<Byte>) {
    exists left: string, prefix: string, digits: string, right: string :: SpeltAs(s, b, left, prefix, digits, right)
  }

  predicate SpeltAs(s: string, b: seq<Byte>, left: string, prefix: string, digits: string, right: string) {
    && s == left + (prefix + digits) + right && AllSpace(left) && AllSpace(right)
    && (prefix == "" || prefix == "0x" || prefix == "0X") && Lower(digits) == ToHex(b)
  }

  lemma DigitsAreClean(b: seq<Byte>, digits: string)
    requires Lower(digits) == ToHex(b)
    ensures forall i :: 0 <= i < |digits| ==> !IsSpace(digits[i]) && NibbleOf(digits[i]).Some?
    ensures !("0x" <= digits) && !("0X" <= digits)
  {
    HexIsCleanLower(b);
    forall i | 0 <= i < |digits|
      ensures !IsSpace(digits[i]) && NibbleOf(digits[i]).Some?
    {
      assert NibbleOf(ToHex(b)[i]).Some? && ToHex(b)[i] == LowerChar(digits[i]);
    }
    assert |digits| >= 2 ==> NibbleOf(digits[1]).Some?;
  }

  lemma TrimmedSpelling(s: string, b: seq<Byte>, left: string, prefix: string, digits: string, right: string)
    requires SpeltAs(s, b, left, prefix, digits, right)
    ensures Trim(s) == prefix + digits
  {
    DigitsAreClean(b, digits);
    hide Trim, ToHex, Lower;
    TrimAround(left, prefix + digits, right);
  }

  /** A text normalizes to the canonical one of some bytes exactly when it spells them. */
  lemma NormHexExactly(s: string, b: seq<Byte>)
    ensures NormHex(s) == "0x" + ToHex(b) <==> Spells(s, b)
  {
    hide ToHex, Trim;
    if left, prefix, digits, right :| SpeltAs(s, b, left, prefix, digits, right) {
      TrimmedSpelling(s, b, left, prefix, digits, right);
      DigitsAreClean(b, digits);
      SpellingNormalizes(s, b, prefix, digits);
    }
    if NormHex(s) == "0x" + ToHex(b) {
      var left, right := TrimParts(s);
      NormalizedIsSpelling(s, b, left, right);
    }
  }

  lemma SpellingNormalizes(s: string, b: seq<Byte>, prefix: string, digits: string)
    requires Trim(s) == prefix + digits && (prefix == "" || prefix == "0x" || prefix == "0X")
    requires Lower(digits) == ToHex(b) && !("0x" <= digits) && !("0X" <= digits)
    ensures NormHex(s) == "0x" + ToHex(b)
  {
    hide ToHex, Trim;
    LowerAppend(prefix, digits);
    PrefixInLowerCase(digits);
    LowerPrefixes();
    hide Lower;
    if prefix == "" {
      assert prefix + digits == digits && Lower(digits) == ToHex(b);
    } else {
      assert ("0x" + ToHex(b))[2..] == ToHex(b);
    }
  }

  lemma LowerPrefixes()
    ensures Lower("") == "" && Lower("0x") == "0x" && Lower("0X") == "0x"
  {}

  lemma PrefixInLowerCase(s: string)
    ensures "0x" <= Lower(s) <==> "0x" <= s || "0X" <= s
  {
    if |s| >= 2 {
      assert Lower(s)[..2] == "0x" <==> Lower(s)[0] == '0' && Lower(s)[1] == 'x';
    }
  }

  /** The prefix is stripped, in either case, and the rest put in lower case behind one in lower case. */
  lemma NormHexParts(s: string)
    ensures var m := Trim(s);
            NormHex(s) == "0x" + Lower(if "0x" <= m || "0X" <= m then m[2..] else m)
  {
    hide Trim;
    var m := Trim(s);
    PrefixInLowerCase(m);
    if "0x" <= m || "0X" <= m {
      assert Lower(m)[2..] == Lower(m[2..]);
    }
  }

  lemma NormalizedIsSpelling(s: string, b: seq<Byte>, left: string, right: string)
    requires NormHex(s) == "0x" + ToHex(b)
    requires AllSpace(left) && AllSpace(right) && s == left + Trim(s) + right
    ensures Spells(s, b)
  {
    NormHexParts(s);
    hide ToHex, Trim, AllSpace, Lower, NormHex;
    var m := Trim(s);
    if "0x" <= m || "0X" <= m {
      SamePrefix("0x", Lower(m[2..]), ToHex(b));
      assert m == m[..2] + m[2..];
      assert SpeltAs(s, b, left, m[..2], m[2..], right);
    } else {
      SamePrefix("0x", Lower(m), ToHex(b));
      assert "" + m == m;
      assert SpeltAs(s, b, left, "", m, right);
    }
  }

  lemma SamePrefix(prefix: string, a: string, b: string)
    requires prefix + a == prefix + b
    ensures a == b
  {
    assert (prefix + a)[|prefix|..] == a && (prefix + b)[|prefix|..] == b;
  }

  // ----- the answer for every spelling -----

  lemma LowerNibble(c: char)
    ensures NibbleOf(LowerChar(c)) == NibbleOf(c) && (IsSpace(LowerChar(c)) <==> IsSpace(c))
  {}

  lemma {:induction false} FromHexLower(s: string)
    ensures FromHex(Lower(s)) == FromHex(s)
  {
    if s != "" {
      LowerNibble(s[0]);
      if IsSpace(s[0]) {
        assert Lower(s)[1..] == Lower(s[1..]);
        FromHexLower(s[1..]);
      } else if |s| > 1 {
        LowerNibble(s[1]);
        assert Lower(s)[2..] == Lower(s[2..]);
        FromHexLower(s[2..]);
      }
    }
  }

  lemma DigitsRead(digits: string, raw: seq<Byte>)
    requires Lower(digits) == ToHex(raw)
    ensures FromHex(digits) == Some(raw)
    ensures TypedTransactionPrefix(digits) == TypedTransactionPrefix(ToHex(raw))
  {
    FromHexLower(digits);
    HexRoundTrip(raw);
    if |digits| >= 2 {
      FromHexLower(digits[..2]);
      assert Lower(digits[..2]) == Lower(digits)[..2];
    }
    hide FromHex, ToHex, Lower;
  }

  /** What every spelling of the signed bytes is read as. */
  lemma SpelledBody(text: string, raw: seq<Byte>)
    requires Spells(text, raw)
    ensures var body := Without0x(Trim(text));
            && WithPrefix(Trim(text))[2..] == body && FromHex(body) == Some(raw)
            && TypedTransactionPrefix(body) == TypedTransactionPrefix(ToHex(raw))
    ensures Spells(WithPrefix(Trim(text)), raw)
  {
    hide FromHex, ToHex, Lower, Trim, TypedTransactionPrefix, WithPrefix, Without0x, AllSpace;
    var left, prefix, digits, right :| SpeltAs(text, raw, left, prefix, digits, right);
    TrimmedSpelling(text, raw, left, prefix, digits, right);
    DigitsAreClean(raw, digits);
    PrefixComesOff(prefix, digits);
    DigitsRead(digits, raw);
    var sent := WithPrefix(prefix + digits);
    SentIsSpelt(sent, raw, sent[..2], digits);
  }

  lemma SentIsSpelt(sent: string, raw: seq<Byte>, prefix: string, digits: string)
    requires sent == prefix + digits && prefix in {"0x", "0X"} && Lower(digits) == ToHex(raw)
    ensures Spells(sent, raw)
  {
    hide Lower, ToHex;
    assert sent == "" + (prefix + digits) + "";
    assert SpeltAs(sent, raw, "", prefix, digits, "");
  }

  lemma PrefixComesOff(prefix: string, digits: string)
    requires prefix == "" || prefix == "0x" || prefix == "0X"
    requires !("0x" <= digits) && !("0X" <= digits)
    ensures Without0x(prefix + digits) == digits && WithPrefix(prefix + digits)[2..] == digits
    ensures var sent := WithPrefix(prefix + digits);
            |sent| >= 2 && sent[..2] in {"0x", "0X"} && sent == sent[..2] + digits
  {
    assert "" + digits == digits;
  }

  /** The recovery reads the bytes, however they are spelled. */
  ghost predicate ReadsBytes(recover: Recover, raw: seq<Byte>, signer: Option<string>) {
    forall s :: Spells(s, raw) ==> recover(s) == signer
  }

  lemma SpellingDecodesAlike(one: string, two: string, raw: seq<Byte>, recover: Recover, signer: Option<string>)
    requires Spells(one, raw) && Spells(two, raw) && ReadsBytes(recover, raw, signer)
    ensures DecodeAndRecover(one, recover) == DecodeAndRecover(two, recover)
    ensures TypedTransactionPrefix(Without0x(Trim(one))) == TypedTransactionPrefix(Without0x(Trim(two)))
  {
    SpelledBody(one, raw);
    SpelledBody(two, raw);
    hide Spells, Without0x, WithPrefix, TypedTransactionPrefix, Trim, ToHex, FromHex, Decode, ReadFields, LocalTxHash,
      NormHex, Lower;
    assert recover(WithPrefix(Trim(one))) == signer && recover(WithPrefix(Trim(two))) == signer;
  }

  /** All spellings of one signed transaction get the same answer. */
  lemma SpellingDoesNotMatter(one: string, two: string, raw: seq<Byte>, draft: Draft, recover: Recover,
    signer: Option<string>)
    requires Spells(one, raw) && Spells(two, raw) && ReadsBytes(recover, raw, signer)
    ensures VerifySignedTx(one, draft, recover) == VerifySignedTx(two, draft, recover)
  {
    SpellingDecodesAlike(one, two, raw, recover, signer);
    hide Spells, ReadsBytes, Without0x, TypedTransactionPrefix, Trim, DecodeAndRecover, Compared;
  }

  // ----- every answer -----

  lemma RawIsSpelled(raw: seq<Byte>)
    ensures Spells("0x" + ToHex(raw), raw)
  {
    HexIsCleanLower(raw);
    hide ToHex, Lower;
    SentIsSpelt("0x" + ToHex(raw), raw, "0x", ToHex(raw));
  }

  lemma CanonicalSigner(digits: string, account: seq<Byte>)
    requires Lower(digits) == ToHex(account)
    ensures Lower(Trim("0x" + digits)) == "0x" + ToHex(account)
  {
    DigitsAreClean(account, digits);
    LowerAppend("0x", digits);
    LowerPrefixes();
    hide ToHex, Lower;
    TrimClean("0x" + digits);
  }

  lemma SameText(a: seq<Byte>, s: string)
    ensures "0x" + ToHex(a) == NormHex(s) <==> Spells(s, a)
  {
    NormHexExactly(s, a);
  }

  /** The text of a signed transaction in any spelling, signed by an account that the recovery may
      report in any letter case: the first field that is not the drafted one is reported, and with
      none the fields are handed back in canonical spelling with the hash of the signed bytes. */
  lemma SpelledTxDecides(t: SignedTx, text: string, draft: Draft, recover: Recover, digits: string, account: seq<Byte>)
    requires |t.to| == 20 && Encodable(List(Fields(t))) && Spells(text, RawTx(t))
    requires Lower(digits) == ToHex(account) && ReadsBytes(recover, RawTx(t), Some("0x" + digits))
    ensures VerifySignedTx(text, draft, recover) ==
            if draft.chainId != ChainIdFromV(t.v) then Refused(ChainIdMismatch)
            else if draft.nonce != t.nonce then Refused(NonceMismatch)
            else if draft.gasPrice != t.gasPrice then Refused(GasPriceMismatch)
            else if draft.gasLimit != t.gasLimit then Refused(GasLimitMismatch)
            else if draft.valueWei != t.value then Refused(ValueMismatch)
            else if !Spells(draft.transactionTo, t.to) then Refused(DestinationMismatch)
            else if !Spells(draft.dataHex, t.data) then Refused(CalldataMismatch)
            else if !Spells(draft.sender, account) then Refused(SignerMismatch)
            else Verified(DecodedTx(
                            t.nonce, t.gasPrice, t.gasLimit, "0x" + ToHex(t.to), t.value, "0x" + ToHex(t.data),
                            t.v, t.r, t.s, ChainIdFromV(t.v), "0x" + ToHex(account),
                            "0x" + ToHex(KeccakBytes(Encode(List(Fields(t)))))))
  {
    hide Spells, Encode, Encodable, Lower, Trim, ToHex, VerifySignedTx, NormHex, KeccakBytes, DecodedOf, Fields,
      ChainIdFromV, Compared;
    RawIsSpelled(RawTx(t));
    assert recover(SignedText(t)) == Some("0x" + digits);
    SpellingDoesNotMatter(text, SignedText(t), RawTx(t), draft, recover, Some("0x" + digits));
    SignedTextDecodes(t, recover);
    CanonicalSigner(digits, account);
    VerifiedByComparison(SignedText(t), draft, recover, DecodedOf(t, "0x" + ToHex(account)));
    ComparedExactly(t, draft, account);
  }

  lemma VerifiedByComparison(text: string, draft: Draft, recover: Recover, d: DecodedTx)
    requires TypedTransactionPrefix(Without0x(Trim(text))) == NotTyped && DecodeAndRecover(text, recover) == Some(d)
    ensures VerifySignedTx(text, draft, recover) == Compared(d, draft)
  {
    hide TypedTransactionPrefix, DecodeAndRecover, Compared;
  }

  lemma ComparedExactly(t: SignedTx, draft: Draft, account: seq<Byte>)
    ensures var d := DecodedOf(t, "0x" + ToHex(account));
            && d == DecodedTx(
                      t.nonce, t.gasPrice, t.gasLimit, "0x" + ToHex(t.to), t.value, "0x" + ToHex(t.data),
                      t.v, t.r, t.s, ChainIdFromV(t.v), "0x" + ToHex(account),
                      "0x" + ToHex(KeccakBytes(Encode(List(Fields(t))))))
            && Compared(d, draft) ==
               if draft.chainId != ChainIdFromV(t.v) then Refused(ChainIdMismatch)
               else if draft.nonce != t.nonce then Refused(NonceMismatch)
               else if draft.gasPrice != t.gasPrice then Refused(GasPriceMismatch)
               else if draft.gasLimit != t.gasLimit then Refused(GasLimitMismatch)
               else if draft.valueWei != t.value then Refused(ValueMismatch)
               else if !Spells(draft.transactionTo, t.to) then Refused(DestinationMismatch)
               else if !Spells(draft.dataHex, t.data) then Refused(CalldataMismatch)
               else if !Spells(draft.sender, account) then Refused(SignerMismatch)
               else Verified(d)
  {
    SameText(t.to, draft.transactionTo);
    SameText(t.data, draft.dataHex);
    SameText(account, draft.sender);
    NormHexIsNotEmpty(draft.dataHex);
    hide NormHex, ToHex, Spells, Encode, KeccakBytes, ChainIdFromV, Fields;
  }

  lemma NormHexIsNotEmpty(s: string)
    ensures |NormHex(s)| >= 2
  {}

  /** A field of the decoded list that reads as a number or as bytes. */
  predicate Readable(x: Item) { x.Bytes? || x.items == [] }

  /** The bytes are the encoding of nine readable fields with a twenty-byte destination. */
  ghost predicate IsLegacyTx(raw: seq<Byte>) {
    exists f: seq<Item> :: Encodable(List(f)) && raw == Encode(List(f)) && NineFields(f)
  }

  predicate NineFields(f: seq<Item>) {
    |f| == 9 && f[3].Bytes? && |f[3].bytes| == 20 && forall k :: 0 <= k < 9 ==> Readable(f[k])
  }

  predicate IsTyped(raw: seq<Byte>) { raw != [] && raw[0] < 0xc0 }

  /** Signed bytes in any spelling: a first byte below 0xc0 is an unsupported type; anything else
      that is not the strict encoding of a legacy transaction, or whose signer is not recovered,
      fails to decode; the verification never raises on them. */
  lemma BytesDecide(text: string, raw: seq<Byte>, draft: Draft, recover: Recover, signer: Option<string>)
    requires Spells(text, raw) && ReadsBytes(recover, raw, signer)
    ensures var r := VerifySignedTx(text, draft, recover);
            && r != IndexRaised
            && (r == Refused(UnsupportedTxType) <==> IsTyped(raw))
            && (r == Refused(DecodeOrRecoverFailed) <==> !IsTyped(raw) && !(signer.Some? && IsLegacyTx(raw)))
  {
    SpelledBody(text, raw);
    BodyIsTyped(raw);
    assert recover(WithPrefix(Trim(text))) == signer;
    DecodedExactly(text, raw, recover, signer);
    hide Spells, ReadsBytes, TypedTransactionPrefix, Without0x, WithPrefix, Trim, DecodeAndRecover, VerifySignedTx,
      ToHex, FromHex, IsLegacyTx;
    ReasonsByDecoding(text, draft, recover);
  }

  lemma ReasonsByDecoding(text: string, draft: Draft, recover: Recover)
    requires TypedTransactionPrefix(Without0x(Trim(text))) != EmptyPair
    ensures var r := VerifySignedTx(text, draft, recover);
            var typed := TypedTransactionPrefix(Without0x(Trim(text))) == Typed;
            && r != IndexRaised && (r == Refused(UnsupportedTxType) <==> typed)
            && (r == Refused(DecodeOrRecoverFailed) <==> !typed && DecodeAndRecover(text, recover).None?)
  {
    hide TypedTransactionPrefix, Without0x, Trim, DecodeAndRecover, Compared;
    if DecodeAndRecover(text, recover).Some? {
      ComparisonReasons(DecodeAndRecover(text, recover).value, draft);
    }
  }

  lemma ComparisonReasons(d: DecodedTx, draft: Draft)
    ensures Compared(d, draft) !in {IndexRaised, Refused(UnsupportedTxType), Refused(DecodeOrRecoverFailed)}
  {
    hide NormHex;
  }

  lemma BodyIsTyped(raw: seq<Byte>)
    ensures TypedTransactionPrefix(ToHex(raw)) == if IsTyped(raw) then Typed else NotTyped
  {
    if raw != [] {
      assert ToHex(raw)[..2] == ToHex([raw[0]]) by {
        assert ToHex([raw[0]]) == [NibbleChar(raw[0] / 16), NibbleChar(raw[0] % 16)] + ToHex([]);
      }
      HexRoundTrip([raw[0]]);
    }
    hide FromHex;
  }

  lemma DecodedExactly(text: string, raw: seq<Byte>, recover: Recover, signer: Option<string>)
    requires var body := Without0x(Trim(text));
             WithPrefix(Trim(text))[2..] == body && FromHex(body) == Some(raw)
             && TypedTransactionPrefix(body) == if IsTyped(raw) then Typed else NotTyped
    requires recover(WithPrefix(Trim(text))) == signer
    ensures !IsTyped(raw) ==>
              (DecodeAndRecover(text, recover).Some? <==> signer.Some? && IsLegacyTx(raw))
  {
    hide Without0x, WithPrefix, Trim, FromHex, Decode, Encode, Encodable, NormHex, ToHex, TypedTransactionPrefix,
      LocalTxHash, Lower, ReadFields, NineFields;
    EmptyIsNoTx(raw);
    match Decode(raw)
    case None =>
      if f: seq<Item> :| Encodable(List(f)) && raw == Encode(List(f)) && NineFields(f) {
        DecodeIsInverse(raw, List(f));
      }
    case Some(Bytes(b)) =>
      if f: seq<Item> :| Encodable(List(f)) && raw == Encode(List(f)) && NineFields(f) {
        DecodeIsInverse(raw, List(f));
      }
    case Some(List(f)) =>
      DecodeIsInverse(raw, List(f));
      if g: seq<Item> :| Encodable(List(g)) && raw == Encode(List(g)) && NineFields(g) {
        DecodeIsInverse(raw, List(g));
      }
      NineAreNine(f);
      if |f| == 9 && signer.Some? {
        ReadExactly(f, Lower(Trim(signer.value)), LocalTxHash(raw));
      }
  }

  lemma EmptyIsNoTx(raw: seq<Byte>)
    ensures IsLegacyTx(raw) ==> raw != []
  {}

  lemma NineAreNine(f: seq<Item>)
    ensures NineFields(f) ==> |f| == 9
  {}

  lemma ReadExactly(f: seq<Item>, sender: string, hash: string)
    requires |f| == 9
    ensures ReadFields(f, sender, hash).Some? <==> NineFields(f)
  {
    hide NormHex, ToHex, IntOf, ChainIdFromV;
    assert NineFields(f) <==>
      f[3].Bytes? && |f[3].bytes| == 20 && Readable(f[0]) && Readable(f[1]) && Readable(f[2]) && Readable(f[3])
      && Readable(f[4]) && Readable(f[5]) && Readable(f[6]) && Readable(f[7]) && Readable(f[8]);
  }
}
