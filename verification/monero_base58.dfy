/** The CryptoNote base 58 decoder: blocks of eleven characters for eight bytes, with one
    shorter block at the end. The reference is the CryptoNote block encoder; the decoder is
    proved to be its exact inverse. */
module MoneroBase58 {
  import opened Options
  import opened Numerals
  import opened ByteStrings

  datatype DecodeError = EmptyInput | BadBlockSize | BadCharacter | BlockOverflow

  /** The digits without 0, the letters without I, O and l: six unbroken character runs. */
  const ALPHABET := "123456789" + "ABCDEFGH" + "JKLMN" + "PQRSTUVWXYZ" + "abcdefghijk" + "mnopqrstuvwxyz"

  /** Characters of an encoded block, by the number of bytes it stands for. */
  const ENC_BLOCK_SIZES: seq<nat> := [0, 2, 3, 5, 6, 7, 9, 10, 11]

  const FULL_BLOCK := 8
  const FULL_CHARS := 11

  // ----- the alphabet -----

  function FindChar(c: char, from: nat): Option<nat>
    requires from <= |ALPHABET|
    decreases |ALPHABET| - from
  {
    if from == |ALPHABET| then None
    else if ALPHABET[from] == c then Some(from)
    else FindChar(c, from + 1)
  }

  function DigitOf(c: char): Option<nat> {
    FindChar(c, 0)
  }

  lemma {:induction false} FindCharSound(c: char, from: nat)
    requires from <= |ALPHABET|
    ensures FindChar(c, from).Some? ==>
              from <= FindChar(c, from).value < 58 && ALPHABET[FindChar(c, from).value] == c
    decreases |ALPHABET| - from
  {
    if from < |ALPHABET| && ALPHABET[from] != c {
      FindCharSound(c, from + 1);
    }
  }

  /** Each run counts upwards, so no two digits share a character. */
  lemma AlphabetAt(d: nat)
    requires d < 58
    ensures |ALPHABET| == 58
    ensures ALPHABET[d] as int ==
            if d < 9 then 49 + d else if d < 17 then 56 + d else if d < 22 then 57 + d
            else if d < 33 then 58 + d else if d < 44 then 64 + d else 65 + d
  {
    if d < 9 {
      assert ALPHABET[d] == "123456789"[d];
    } else if d < 17 {
      assert ALPHABET[d] == "ABCDEFGH"[d - 9];
    } else if d < 22 {
      assert ALPHABET[d] == "JKLMN"[d - 17];
    } else if d < 33 {
      assert ALPHABET[d] == "PQRSTUVWXYZ"[d - 22];
    } else if d < 44 {
      assert ALPHABET[d] == "abcdefghijk"[d - 33];
    } else {
      assert ALPHABET[d] == "mnopqrstuvwxyz"[d - 44];
    }
  }

  lemma {:induction false} FindCharComplete(d: nat, from: nat)
    requires from <= d < 58
    ensures FindChar(ALPHABET[d], from) == Some(d)
    decreases d - from
  {
    if from < d {
      AlphabetAt(from);
      AlphabetAt(d);
      FindCharComplete(d, from + 1);
    }
  }

  // ----- one block -----

  /** The position of a block length in ENC_BLOCK_SIZES, for the lengths the decoder admits. */
  function BytesOfChars(chars: nat): Option<nat> {
    match chars
    case 2 => Some(1)
    case 3 => Some(2)
    case 5 => Some(3)
    case 6 => Some(4)
    case 7 => Some(5)
    case 9 => Some(6)
    case 10 => Some(7)
    case 11 => Some(8)
    case _ => None
  }

  predicate AllBase58(block: string) {
    forall i :: 0 <= i < |block| ==> DigitOf(block[i]).Some?
  }

  function DigitsOf(block: string): (digits: seq<nat>)
    requires AllBase58(block)
    ensures |digits| == |block|
  {
    seq(|block|, i requires 0 <= i < |block| => DigitOf(block[i]).value)
  }

  ghost function CharsOf(digits: seq<nat>): (block: string)
    requires InBase(digits, 58)
    ensures |block| == |digits|
  {
    seq(|digits|, i requires 0 <= i < |digits| => ALPHABET[digits[i]])
  }

  lemma DigitsOfInBase(block: string)
    requires AllBase58(block)
    ensures InBase(DigitsOf(block), 58)
    ensures CharsOf(DigitsOf(block)) == block
  {
    forall i | 0 <= i < |block|
      ensures DigitsOf(block)[i] < 58 && ALPHABET[DigitsOf(block)[i]] == block[i]
    {
      FindCharSound(block[i], 0);
    }
  }

  lemma CharsOfDigits(digits: seq<nat>)
    requires InBase(digits, 58)
    ensures AllBase58(CharsOf(digits)) && DigitsOf(CharsOf(digits)) == digits
  {
    forall i | 0 <= i < |digits|
      ensures DigitOf(CharsOf(digits)[i]) == Some(digits[i])
    {
      FindCharComplete(digits[i], 0);
    }
  }

  /** What a block of characters decodes to. */
  function DecodedBlock(block: string): Result<seq<Byte>, DecodeError> {
    if block == "" then Ok([])
    else if BytesOfChars(|block|).None? then Err(BadBlockSize)
    else if !AllBase58(block) then Err(BadCharacter)
    else
      var n := Value(DigitsOf(block), 58);
      var width := BytesOfChars(|block|).value;
      if n >= Pow(256, width) then Err(BlockOverflow) else Ok(BigEndian(n, width))
  }

  lemma OneMoreDigit(block: string, i: nat)
    requires i < |block| && AllBase58(block[..i]) && DigitOf(block[i]).Some?
    ensures AllBase58(block[..i + 1])
    ensures Value(DigitsOf(block[..i + 1]), 58) == Value(DigitsOf(block[..i]), 58) * 58 + DigitOf(block[i]).value
  {
    assert DigitsOf(block[..i + 1])[..i] == DigitsOf(block[..i]);
  }

  method DecodeBlock(block: string) returns (r: Result<seq<Byte>, DecodeError>)
    ensures r == DecodedBlock(block)
  {
    if block == "" {
      return Ok([]);
    }
    if |block| !in {2, 3, 5, 6, 7, 9, 10, 11} {
      return Err(BadBlockSize);
    }
    var n: nat := 0;
    for i := 0 to |block|
      invariant AllBase58(block[..i]) && n == Value(DigitsOf(block[..i]), 58)
    {
      var idx := DigitOf(block[i]);
      if idx == None {
        return Err(BadCharacter);
      }
      OneMoreDigit(block, i);
      n := n * 58 + idx.value;
    }
    assert block[..|block|] == block;
    var width := BytesOfChars(|block|).value;
    if n >= Pow(256, width) {
      return Err(BlockOverflow);
    }
    return Ok(BigEndian(n, width));
  }

  /** The CryptoNote encoder of one block: the big-endian value written in base 58. */
  ghost function EncodedBlock(bytes: seq<Byte>): (block: string)
    requires |bytes| <= FULL_BLOCK
    ensures |block| == ENC_BLOCK_SIZES[|bytes|]
  {
    var width := ENC_BLOCK_SIZES[|bytes|];
    DigitsInBase(Value(bytes, 256), width, 58);
    CharsOf(Digits(Value(bytes, 256), width, 58))
  }

  /** Every block of bytes fits in its characters: 256^k <= 58^ENC_BLOCK_SIZES[k]. */
  lemma BlocksFit(k: nat)
    requires 1 <= k <= FULL_BLOCK
    ensures BytesOfChars(ENC_BLOCK_SIZES[k]) == Some(k)
    ensures Pow(256, k) <= Pow(58, ENC_BLOCK_SIZES[k])
  {
    assert Pow(58, 2) == 3364 && Pow(58, 3) == 195112;
    assert Pow(58, 5) == 656356768 && Pow(58, 6) == 38068692544 && Pow(58, 7) == 2207984167552;
    assert Pow(58, 9) == 7427658739644928 && Pow(58, 10) == 430804206899405824;
    assert Pow(58, 11) == 24986644000165537792;
    assert Pow(256, 1) == 256 && Pow(256, 2) == 65536 && Pow(256, 3) == 16777216;
    assert Pow(256, 4) == 4294967296 && Pow(256, 5) == 1099511627776;
    assert Pow(256, 6) == 281474976710656 && Pow(256, 7) == 72057594037927936;
    assert Pow(256, 8) == 18446744073709551616;
  }

  lemma DecodeEncodedBlock(bytes: seq<Byte>)
    requires 1 <= |bytes| <= FULL_BLOCK
    ensures DecodedBlock(EncodedBlock(bytes)) == Ok(bytes)
  {
    hide Pow, Value, DigitOf;
    var k := |bytes|;
    var width := ENC_BLOCK_SIZES[k];
    var n := Value(bytes, 256);
    BlocksFit(k);
    ValueBound(bytes, 256);
    DigitsInBase(n, width, 58);
    CharsOfDigits(Digits(n, width, 58));
    ValueOfDigits(n, width, 58);
    DigitsOfValue(bytes, 256);
    assert BigEndian(n, k) == bytes;
  }

  lemma EncodeDecodedBlock(block: string)
    requires block != "" && DecodedBlock(block).Ok?
    ensures 1 <= |DecodedBlock(block).value| <= FULL_BLOCK
    ensures EncodedBlock(DecodedBlock(block).value) == block
  {
    hide Pow, Value, DigitOf;
    var width := BytesOfChars(|block|).value;
    var digits := DigitsOf(block);
    var n := Value(digits, 58);
    var bytes := BigEndian(n, width);
    BlocksFit(width);
    DigitsOfInBase(block);
    assert bytes == Digits(n, width, 256);
    ValueOfDigits(n, width, 256);
    DigitsOfValue(digits, 58);
  }

  // ----- whole strings -----

  function Chunk(s: string): (head: string)
    ensures |head| == if |s| < FULL_CHARS then |s| else FULL_CHARS
  {
    s[..if |s| < FULL_CHARS then |s| else FULL_CHARS]
  }

  function DecodedChunks(s: string): Result<seq<Byte>, DecodeError> {
    if s == "" then Ok([])
    else
      match DecodedBlock(Chunk(s))
      case Err(e) => Err(e)
      case Ok(head) =>
        match DecodedChunks(s[|Chunk(s)|..])
        case Err(e) => Err(e)
        case Ok(tail) => Ok(head + tail)
  }

  function Decoded(s: string): Result<seq<Byte>, DecodeError> {
    if s == "" then Err(EmptyInput) else DecodedChunks(s)
  }

  ghost function Joined(out: seq<Byte>, rest: Result<seq<Byte>, DecodeError>): Result<seq<Byte>, DecodeError> {
    match rest
    case Ok(tail) => Ok(out + tail)
    case Err(e) => Err(e)
  }

  lemma JoinedEmpty(rest: Result<seq<Byte>, DecodeError>)
    ensures Joined([], rest) == rest
  {
    if rest.Ok? {
      assert [] + rest.value == rest.value;
    }
  }

  lemma JoinedTwice(a: seq<Byte>, b: seq<Byte>, rest: Result<seq<Byte>, DecodeError>)
    ensures Joined(a, Joined(b, rest)) == Joined(a + b, rest)
  {
    if rest.Ok? {
      assert a + (b + rest.value) == a + b + rest.value;
    }
  }

  method MoneroBase58Decode(s: string) returns (r: Result<seq<Byte>, DecodeError>)
    ensures r == Decoded(s)
  {
    if s == "" {
      return Err(EmptyInput);
    }
    var out: seq<Byte> := [];
    var i := 0;
    assert s[0..] == s;
    JoinedEmpty(DecodedChunks(s));
    while i < |s|
      invariant 0 <= i <= |s|
      invariant DecodedChunks(s) == Joined(out, DecodedChunks(s[i..]))
    {
      var take := if |s| - i < FULL_CHARS then |s| - i else FULL_CHARS;
      assert s[i..i + take] == Chunk(s[i..]);
      assert s[i..][take..] == s[i + take..];
      var block := DecodeBlock(s[i..i + take]);
      if block.Err? {
        return Err(block.error);
      }
      ghost var before := out;
      out := out + block.value;
      JoinedTwice(before, block.value, DecodedChunks(s[i + take..]));
      i := i + take;
    }
    assert out + [] == out;
    return Ok(out);
  }

  ghost function Encoded(bytes: seq<Byte>): string {
    if |bytes| <= FULL_BLOCK then EncodedBlock(bytes)
    else EncodedBlock(bytes[..FULL_BLOCK]) + Encoded(bytes[FULL_BLOCK..])
  }

  lemma {:induction false} DecodeEncodedChunks(bytes: seq<Byte>)
    ensures DecodedChunks(Encoded(bytes)) == Ok(bytes)
  {
    hide DecodedBlock, EncodedBlock;
    if bytes == [] {
    } else if |bytes| <= FULL_BLOCK {
      DecodeEncodedBlock(bytes);
      assert Chunk(Encoded(bytes)) == Encoded(bytes);
      assert bytes + [] == bytes;
    } else {
      var head, tail := bytes[..FULL_BLOCK], bytes[FULL_BLOCK..];
      DecodeEncodedBlock(head);
      DecodeEncodedChunks(tail);
      var s := Encoded(bytes);
      assert Chunk(s) == EncodedBlock(head);
      assert s[FULL_CHARS..] == Encoded(tail);
      assert head + tail == bytes;
    }
  }

  lemma {:induction false} EncodeDecodedChunks(s: string)
    requires DecodedChunks(s).Ok?
    ensures Encoded(DecodedChunks(s).value) == s
    ensures s != "" ==> DecodedChunks(s).value != []
  {
    hide DecodedBlock, EncodedBlock;
    if s != "" {
      var head := DecodedBlock(Chunk(s)).value;
      var rest := s[|Chunk(s)|..];
      var tail := DecodedChunks(rest).value;
      EncodeDecodedBlock(Chunk(s));
      EncodeDecodedChunks(rest);
      assert s == Chunk(s) + rest;
      if rest == "" {
        assert head + tail == head;
      } else {
        assert |head| == FULL_BLOCK;
        assert (head + tail)[..FULL_BLOCK] == head && (head + tail)[FULL_BLOCK..] == tail;
      }
    }
  }

  // ----- the bijection -----

  /** Decoding undoes the CryptoNote encoder on every non-empty byte string. */
  lemma DecodeInvertsEncode(bytes: seq<Byte>)
    requires bytes != []
    ensures Decoded(Encoded(bytes)) == Ok(bytes)
  {
    DecodeEncodedChunks(bytes);
    if Encoded(bytes) == "" {
      assert false;
    }
  }

  /** The accepted strings are exactly the encodings of non-empty byte strings, and each is
      the encoding of what it decodes to. */
  lemma AcceptedIsEncoded(s: string)
    ensures Decoded(s).Ok? <==> exists bytes: seq<Byte> :: bytes != [] && Encoded(bytes) == s
    ensures Decoded(s).Ok? ==> Decoded(s).value != [] && Encoded(Decoded(s).value) == s
  {
    if Decoded(s).Ok? {
      EncodeDecodedChunks(s);
    }
    forall bytes: seq<Byte> | bytes != [] && Encoded(bytes) == s
      ensures Decoded(s).Ok?
    {
      DecodeInvertsEncode(bytes);
    }
  }

  /** Distinct accepted strings, of whatever lengths, decode to distinct bytes. */
  lemma DecodeInjective(s: string, t: string)
    requires Decoded(s).Ok? && Decoded(s) == Decoded(t)
    ensures s == t
  {
    AcceptedIsEncoded(s);
    AcceptedIsEncoded(t);
  }

  function ByteLength(chars: nat): Option<nat> {
    if chars % FULL_CHARS == 0 then Some(chars / FULL_CHARS * FULL_BLOCK)
    else
      match BytesOfChars(chars % FULL_CHARS)
      case Some(k) => Some(chars / FULL_CHARS * FULL_BLOCK + k)
      case None => None
  }

  lemma OneBlockMore(chars: nat)
    requires chars >= FULL_CHARS
    ensures ByteLength(chars) == match ByteLength(chars - FULL_CHARS)
                                 case Some(k) => Some(FULL_BLOCK + k)
                                 case None => None
  {
    assert chars / 11 == 1 + (chars - 11) / 11 && chars % 11 == (chars - 11) % 11;
  }

  lemma {:induction false} AcceptedLength(s: string)
    requires DecodedChunks(s).Ok?
    ensures ByteLength(|s|) == Some(|DecodedChunks(s).value|)
  {
    hide DecodedBlock;
    if s != "" {
      var rest := s[|Chunk(s)|..];
      AcceptedLength(rest);
      BlockLength(Chunk(s));
      if |s| >= FULL_CHARS {
        OneBlockMore(|s|);
      }
    }
  }

  lemma BlockLength(block: string)
    requires block != "" && DecodedBlock(block).Ok?
    ensures Some(|DecodedBlock(block).value|) == BytesOfChars(|block|)
  {}

  /** Primary addresses and subaddresses are 69 bytes, integrated addresses 77. */
  lemma AddressLengths(s: string)
    requires Decoded(s).Ok?
    ensures |s| == 95 <==> |Decoded(s).value| == 69
    ensures |s| == 106 <==> |Decoded(s).value| == 77
  {
    AcceptedLength(s);
    var q, r := |s| / FULL_CHARS, |s| % FULL_CHARS;
    assert |s| == q * FULL_CHARS + r;
  }
}
